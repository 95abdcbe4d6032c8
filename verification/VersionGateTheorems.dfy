/**
 What an accepting run of the version gate says about the file and the tables: when the
 nearest-line search stands for real nesting, when it agrees with the field scanner, and
 that the accepted tables are a partition with the right versions.
 */
module VersionGateTheorems {
  import opened Options
  import opened Preprocessor
  import opened FieldScanner
  import opened VersionGate

  // ---- The span that check_guards looks at ----

  /** The comment and the exclusive bounds of the span, when the search finds all three. */
  datatype Span = Span(comment: nat, start: nat, end: nat)

  ghost predicate IsSpan(lines: seq<Line>, row: Row, span: Span) {
    && FirstComment(lines, row.cluster, row.declared, 0) == Some(span.comment)
    && span.comment < |lines|
    && GuardAbove(lines, row.declared, span.comment) == Some(span.start)
    && EndifFrom(lines, span.comment + 1) == Some(span.end)
  }

  /** The first comment for the row, the nearest guard above it, and the nearest `#endif` below it. */
  ghost predicate SpanBounds(lines: seq<Line>, row: Row, span: Span) {
    && span.start < span.comment < span.end < |lines|
    && lines[span.comment] == ClusterComment(row.cluster, row.declared)
    && (forall i :: 0 <= i < span.comment ==> lines[i] != ClusterComment(row.cluster, row.declared))
    && lines[span.start] == VersionIf(row.declared)
    && (forall i :: span.start < i < span.comment ==> lines[i] != VersionIf(row.declared))
    && lines[span.end] == Endif
    && (forall i :: span.comment < i < span.end ==> lines[i] != Endif)
  }

  /** The searches find exactly those bounds. */
  lemma IsSpanIff(lines: seq<Line>, row: Row, span: Span)
    ensures IsSpan(lines, row, span) <==> SpanBounds(lines, row, span)
  {
    FirstCommentMeaning(lines, row.cluster, row.declared, 0);
    if span.comment < |lines| {
      GuardAboveMeaning(lines, row.declared, span.comment);
      EndifFromMeaning(lines, span.comment + 1);
    }
  }

  ghost predicate MentionedWithin(lines: seq<Line>, name: Name, start: nat, end: nat)
    requires end <= |lines|
  {
    exists ln :: start < ln < end && Mentions(lines[ln], name)
  }

  lemma NoMemberFailureIff(lines: seq<Line>, row: Row, start: nat, end: nat, member: Name)
    requires start < end < |lines|
    ensures MemberFailure(lines, row, start, end, member) == [] <==> MentionedWithin(lines, member, start, end)
  {
    FirstMentionMeaning(lines, member, 0, |lines|);
    FirstMentionMeaning(lines, member, start + 1, end);
  }

  lemma {:induction false} NoMemberFailuresIff(lines: seq<Line>, row: Row, start: nat, end: nat, members: seq<Name>, k: nat)
    requires start < end < |lines| && k <= |members|
    ensures MemberFailures(lines, row, start, end, members, k) == [] <==>
      forall i :: 0 <= i < k ==> MentionedWithin(lines, members[i], start, end)
  {
    hide MemberFailure, Mentions;
    if k > 0 {
      NoMemberFailuresIff(lines, row, start, end, members, k - 1);
      NoMemberFailureIff(lines, row, start, end, members[k - 1]);
      var before, last := MemberFailures(lines, row, start, end, members, k - 1), MemberFailure(lines, row, start, end, members[k - 1]);
      assert MemberFailures(lines, row, start, end, members, k) == before + last;
      hide *;
    }
  }

  /** A row is accepted when checking it reports nothing. */
  predicate Accepted(lines: seq<Line>, registry: Registry, row: Row) {
    CheckRow(lines, registry, row) == Checked([])
  }

  ghost predicate AllMentioned(lines: seq<Line>, registry: Registry, row: Row, span: Span) {
    && row.cluster in registry.values && span.end <= |lines|
    && forall member :: member in registry.values[row.cluster] ==> MentionedWithin(lines, member, span.start, span.end)
  }

  lemma CheckRowAtSpan(lines: seq<Line>, registry: Registry, row: Row, span: Span)
    requires IsSpan(lines, row, span) && SpanBounds(lines, row, span)
    ensures CheckRow(lines, registry, row) ==
      if row.cluster !in registry.values then Raised
      else Checked(MemberFailures(lines, row, span.start, span.end, registry.values[row.cluster], |registry.values[row.cluster]|))
  {
  }

  lemma AcceptedWithSpanIff(lines: seq<Line>, registry: Registry, row: Row, span: Span)
    requires IsSpan(lines, row, span)
    ensures Accepted(lines, registry, row) <==> AllMentioned(lines, registry, row, span)
  {
    hide CheckRow;
    IsSpanIff(lines, row, span);
    CheckRowAtSpan(lines, registry, row, span);
    if row.cluster in registry.values {
      var members := registry.values[row.cluster];
      NoMemberFailuresIff(lines, row, span.start, span.end, members, |members|);
      assert forall i :: 0 <= i < |members| ==> members[i] in members;
    }
  }

  lemma AcceptedHasSpan(lines: seq<Line>, registry: Registry, row: Row) returns (span: Span)
    requires Accepted(lines, registry, row)
    ensures IsSpan(lines, row, span)
  {
    var c := FirstComment(lines, row.cluster, row.declared, 0).value;
    GuardSearchBounds(lines, row.cluster, row.declared, c);
    span := Span(c, GuardAbove(lines, row.declared, c).value, EndifFrom(lines, c + 1).value);
  }

  /** Acceptance, in terms of the file: a span is found and every member is mentioned inside it. */
  lemma AcceptedIff(lines: seq<Line>, registry: Registry, row: Row)
    ensures Accepted(lines, registry, row) <==>
      exists span :: SpanBounds(lines, row, span) && AllMentioned(lines, registry, row, span)
  {
    if Accepted(lines, registry, row) {
      var span := AcceptedHasSpan(lines, registry, row);
      IsSpanIff(lines, row, span);
      AcceptedWithSpanIff(lines, registry, row, span);
    }
    if span :| SpanBounds(lines, row, span) && AllMentioned(lines, registry, row, span) {
      IsSpanIff(lines, row, span);
      AcceptedWithSpanIff(lines, registry, row, span);
    }
  }

  // ---- When the span is really guarded ----

  /** Some `#if` for the version, at or above line `start`, is still open, and not passed by its `#else`, before line j. */
  ghost predicate OpenFromAbove(lines: seq<Line>, v: Version, start: nat, j: nat)
    requires start < j <= |lines|
  {
    exists k: nat :: k <= start && GuardOpen(lines, v, k, j)
  }

  lemma OpenEarlier(lines: seq<Line>, v: Version, k: nat, j: nat, later: nat)
    requires k < j <= later <= |lines| && GuardOpen(lines, v, k, later)
    ensures GuardOpen(lines, v, k, j)
  {
  }

  /** Until the next `#endif` the nesting depth does not fall. */
  lemma {:induction false} NestingNeverFalls(lines: seq<Line>, i: nat, j: nat)
    requires i <= j <= |lines|
    requires forall m :: i <= m < j ==> lines[m] != Endif
    ensures Nesting(lines, i) <= Nesting(lines, j)
  {
    if i < j {
      NestingNeverFalls(lines, i, j - 1);
      assert lines[j - 1] != Endif;
    }
  }

  /** If a guard opened inside another is open below line j, then line j was not the outer guard's `#else` or `#endif`. */
  lemma OuterStaysOpen(lines: seq<Line>, v: Version, k: nat, k': nat, j: nat)
    requires k < k' < j + 1 <= |lines| && GuardOpen(lines, v, k, j) && GuardOpen(lines, v, k', j + 1)
    ensures GuardOpen(lines, v, k, j + 1)
  {
    assert Nesting(lines, k) < Nesting(lines, k') < Nesting(lines, j + 1);
  }

  /** If every line of the span is guarded, then by an `#if` no lower than the one the search chose. */
  lemma {:induction false} GuardedFromAbove(lines: seq<Line>, row: Row, span: Span, j: nat) returns (k: nat)
    requires SpanBounds(lines, row, span) && span.comment <= j < span.end
    requires forall i: nat :: span.start < i < span.end ==> Guarded(lines, row.declared, i)
    ensures k <= span.start && GuardOpen(lines, row.declared, k, j)
  {
    GuardedIffOpen(lines, row.declared, j);
    k :| k < j && GuardOpen(lines, row.declared, k, j);
    if span.start < k {
      var k' := k;
      k := GuardedFromAbove(lines, row, span, j - 1);
      OuterStaysOpen(lines, row.declared, k, k', j - 1);
    }
  }

  /**
   Every line of the span is guarded by the declared version if and only if the chosen `#if`, or
   one for the same version above it, is still open, and not passed by its `#else`, at the last
   line of the span.
   */
  lemma SpanGuardedIff(lines: seq<Line>, row: Row, span: Span)
    requires SpanBounds(lines, row, span)
    ensures (forall j: nat :: span.start < j < span.end ==> Guarded(lines, row.declared, j)) <==>
      OpenFromAbove(lines, row.declared, span.start, span.end - 1)
  {
    var last := span.end - 1;
    if k: nat :| k <= span.start && GuardOpen(lines, row.declared, k, last) {
      forall j: nat | span.start < j < span.end
        ensures Guarded(lines, row.declared, j)
      {
        OpenEarlier(lines, row.declared, k, j, last);
        GuardedIffOpen(lines, row.declared, j);
      }
    }
    if forall j: nat :: span.start < j < span.end ==> Guarded(lines, row.declared, j) {
      var k := GuardedFromAbove(lines, row, span, last);
    }
  }

  /** In particular, when the span holds no `#endif` before the comment and no `#else` of the chosen `#if`. */
  lemma NoEndifKeepsGuardOpen(lines: seq<Line>, row: Row, span: Span)
    requires SpanBounds(lines, row, span)
    requires forall i :: span.start < i < span.comment ==> lines[i] != Endif
    requires forall i :: span.start < i < span.end && Nesting(lines, i) == Nesting(lines, span.start) + 1 ==> lines[i] != Else
    ensures OpenFromAbove(lines, row.declared, span.start, span.end - 1)
  {
    forall i: nat | span.start < i <= span.end - 1
      ensures Nesting(lines, span.start) < Nesting(lines, i)
    {
      NestingNeverFalls(lines, span.start + 1, i);
    }
    assert GuardOpen(lines, row.declared, span.start, span.end - 1);
  }

  /** The search stands for real nesting: it found a span, and a guard is open throughout. */
  ghost predicate FaithfulSpan(lines: seq<Line>, row: Row, span: Span) {
    SpanBounds(lines, row, span) && OpenFromAbove(lines, row.declared, span.start, span.end - 1)
  }

  /** Every member of an accepted row with a faithful span has an occurrence guarded by the declared version. */
  lemma AcceptedMembersAreGuarded(lines: seq<Line>, registry: Registry, row: Row, span: Span)
    requires Accepted(lines, registry, row) && FaithfulSpan(lines, row, span)
    ensures row.cluster in registry.values
    ensures forall member :: member in registry.values[row.cluster] ==>
      exists ln: nat :: span.start < ln < span.end && Mentions(lines[ln], member) && Guarded(lines, row.declared, ln)
  {
    IsSpanIff(lines, row, span);
    AcceptedWithSpanIff(lines, registry, row, span);
    SpanGuardedIff(lines, row, span);
    forall member | member in registry.values[row.cluster]
      ensures exists ln: nat :: span.start < ln < span.end && Mentions(lines[ln], member) && Guarded(lines, row.declared, ln)
    {
      var ln :| span.start < ln < span.end && Mentions(lines[ln], member);
      assert Guarded(lines, row.declared, ln);
    }
  }

  // ---- The two scanners agree ----

  /** Every line that declares the field mentions it; the line of an `extern` whose name the scanner normalises does not. */
  ghost predicate DeclaredByName(lines: seq<Line>, field: Name) {
    forall i: nat :: i < |lines| && Declares(lines, i, field) ==> Mentions(lines[i], field)
  }

  /** A line outside all version guards declares the field without mentioning it. */
  ghost predicate DeclaredUnmentioned(lines: seq<Line>, field: Name) {
    exists i: nat :: i < |lines| && Declares(lines, i, field) && !Mentions(lines[i], field) && GuardCount(Stack(lines, i)) == 0
  }

  /** A line other than a comment mentions the name. */
  predicate TextMentions(line: Line, name: Name) {
    line.Text? && Mentions(line, name)
  }

  /** At most one line other than comments mentions the name. */
  ghost predicate TextOnce(lines: seq<Line>, name: Name) {
    forall i, j :: 0 <= i < j < |lines| ==> !(TextMentions(lines[i], name) && TextMentions(lines[j], name))
  }

  /** No comment strictly inside the span names a cluster of that name. */
  ghost predicate NoCommentNames(lines: seq<Line>, name: Name, span: Span)
    requires span.end <= |lines|
  {
    forall i :: span.start < i < span.end && lines[i].ClusterComment? ==> lines[i].cluster != name
  }

  /** A line of the span other than a comment mentions the name, as its declaration does. */
  ghost predicate TextWithin(lines: seq<Line>, name: Name, span: Span)
    requires span.end <= |lines|
  {
    exists i :: span.start < i < span.end && TextMentions(lines[i], name)
  }

  /** Acceptance is about the member's declaration: no comment inside the span, second text line or normalised name stands in for it. */
  ghost predicate SpeaksOf(lines: seq<Line>, member: Name, span: Span)
    requires span.end <= |lines|
  {
    TextOnce(lines, member) && DeclaredByName(lines, member)
    && (NoCommentNames(lines, member, span) || TextWithin(lines, member, span))
  }

  lemma GuardedCounts(lines: seq<Line>, v: Version, i: nat)
    requires i <= |lines| && Guarded(lines, v, i)
    ensures 0 < GuardCount(Stack(lines, i))
  {
    var p :| 0 <= p < |Stack(lines, i)| && Stack(lines, i)[p] == Frame(Some(v), false);
    GuardCountPositive(Stack(lines, i), p);
  }

  /**
   A member that one text line mentions, inside a faithful span, is called always present exactly
   when some other line, outside all version guards, declares it under a name it does not spell.
   */
  lemma MemberPresentIff(lines: seq<Line>, row: Row, span: Span, member: Name)
    requires FaithfulSpan(lines, row, span) && GuardsHoldOnlyGuards(lines)
    requires TextOnce(lines, member) && TextWithin(lines, member, span)
    ensures member in AlwaysPresent(lines, |lines|) <==> DeclaredUnmentioned(lines, member)
  {
    hide Stack, GuardCount, Depth, GuardOpen, GuardsHoldOnlyGuards;
    SpanGuardedIff(lines, row, span);
    var ln: nat :| span.start < ln < span.end && TextMentions(lines[ln], member);
    assert Guarded(lines, row.declared, ln);
    hide Guarded, OpenFromAbove, SpanBounds;
    GuardedCounts(lines, row.declared, ln);
    if member in AlwaysPresent(lines, |lines|) {
      var i: nat :| i < |lines| && Declares(lines, i, member) && Depth(lines, i) == 0;
      DepthIsGuards(lines, i);
      assert TextMentions(lines[i], member) ==> i == ln;
    }
    if DeclaredUnmentioned(lines, member) {
      var i: nat :| i < |lines| && Declares(lines, i, member) && GuardCount(Stack(lines, i)) == 0;
      UnguardedFieldsAreFound(lines, i, member);
    }
  }

  /** What acceptance with a faithful span says of one member. */
  lemma MemberAgrees(lines: seq<Line>, registry: Registry, row: Row, span: Span, member: Name)
    requires Accepted(lines, registry, row) && FaithfulSpan(lines, row, span)
    requires GuardsHoldOnlyGuards(lines) && SpeaksOf(lines, member, span)
    requires row.cluster in registry.values && member in registry.values[row.cluster]
    ensures member !in AlwaysPresent(lines, |lines|)
  {
    AcceptedMembersAreGuarded(lines, registry, row, span);
    var ln: nat :| span.start < ln < span.end && Mentions(lines[ln], member);
    assert TextMentions(lines[ln], member) || TextWithin(lines, member, span);
    MemberPresentIff(lines, row, span, member);
  }

  /**
   In a file whose version guards contain only version guards, a row that is accepted with a
   faithful span has no member among the fields the scanner calls always present, if one text
   line mentions each, and neither the span's comments nor a normalised name stand in for it.
   */
  lemma ScannersAgree(lines: seq<Line>, registry: Registry, row: Row, span: Span)
    requires Accepted(lines, registry, row) && FaithfulSpan(lines, row, span) && GuardsHoldOnlyGuards(lines)
    requires row.cluster in registry.values
    requires forall member :: member in registry.values[row.cluster] ==> SpeaksOf(lines, member, span)
    ensures forall member :: member in registry.values[row.cluster] ==> member !in AlwaysPresent(lines, |lines|)
  {
    forall member | member in registry.values[row.cluster]
      ensures member !in AlwaysPresent(lines, |lines|)
    {
      MemberAgrees(lines, registry, row, span, member);
    }
  }

  /** Every cluster comment of the file names one of these clusters. */
  ghost predicate CommentsName(lines: seq<Line>, clusters: set<Name>) {
    forall i :: 0 <= i < |lines| && lines[i].ClusterComment? ==> lines[i].cluster in clusters
  }

  /** A file that the gate accepts for a row with this member, properly nested, with one text line that mentions the member. */
  ghost predicate SoundlyAccepted(lines: seq<Line>, registry: Registry, row: Row, span: Span, member: Name) {
    && Accepted(lines, registry, row) && FaithfulSpan(lines, row, span)
    && row.cluster in registry.values && member in registry.values[row.cluster]
    && WellNested(lines) && NoElse(lines)
    && GuardsHoldOnlyGuards(lines) && TextOnce(lines, member)
  }

  /**
   Acceptance keeps a member that is declared by name out of the always-present fields, whatever
   the file and registry, exactly when no cluster that the file's comments may name, the row's own included, has the
   member's name.
   */
  lemma AgreementIffNotAClusterName(row: Row, member: Name, clusters: set<Name>)
    requires row.cluster in clusters
    ensures member !in clusters <==>
      forall lines, registry, span ::
        SoundlyAccepted(lines, registry, row, span, member) && DeclaredByName(lines, member) && CommentsName(lines, clusters) ==>
          member !in AlwaysPresent(lines, |lines|)
  {
    if member !in clusters {
      forall lines, registry, span | SoundlyAccepted(lines, registry, row, span, member) && DeclaredByName(lines, member)
        && CommentsName(lines, clusters)
        ensures member !in AlwaysPresent(lines, |lines|)
      {
        MemberAgrees(lines, registry, row, span, member);
      }
    } else {
      var comment := ClusterComment(member, row.declared);
      var lines := MentionOnly(row.cluster, member, row.declared, comment, {member});
      GuardedMentionSuffices(row, member, comment, {member});
      assert SoundlyAccepted(lines, OneCluster(row.cluster, member), row, Span(1, 0, 3), member);
      assert CommentsName(lines, clusters);
    }
  }

  /**
   A field whose line does not spell its name misleads the gate even where no comment does: for
   all names and versions, another guarded line passes for it.
   */
  lemma UnmentionedFieldMisleads(row: Row, member: Name)
    requires member != row.cluster
    ensures var lines := MentionOnly(row.cluster, member, row.declared, Text(None, {member}), {});
      && SoundlyAccepted(lines, OneCluster(row.cluster, member), row, Span(1, 0, 3), member)
      && CommentsName(lines, {row.cluster}) && TextWithin(lines, member, Span(1, 0, 3))
      && member in AlwaysPresent(lines, |lines|)
  {
    GuardedMentionSuffices(row, member, Text(None, {member}), {});
    assert TextMentions(MentionOnly(row.cluster, member, row.declared, Text(None, {member}), {})[2], member);
  }

  predicate RowPasses(files: map<Name, seq<Line>>, registry: Registry, row: Row) {
    row.file in files && Accepted(files[row.file], registry, row)
  }

  lemma CheckRowsStep(files: map<Name, seq<Line>>, registry: Registry, rows: seq<Row>, k: nat)
    requires k < |rows|
    ensures CheckRows(files, registry, rows, k + 1) == ([], false) <==>
      CheckRows(files, registry, rows, k) == ([], false) && RowPasses(files, registry, rows[k])
  {
    hide CheckRow;
    var (failures, raised) := CheckRows(files, registry, rows, k);
    if rows[k].file in files {
      match CheckRow(files[rows[k].file], registry, rows[k])
      case Checked(_) =>
      case Raised =>
    }
  }

  /** The first k rows each name a file that exists and accepts them. */
  ghost predicate RowsPass(files: map<Name, seq<Line>>, registry: Registry, rows: seq<Row>, k: nat)
    requires k <= |rows|
  {
    forall i :: 0 <= i < k ==> RowPasses(files, registry, rows[i])
  }

  lemma RowsPassStep(files: map<Name, seq<Line>>, registry: Registry, rows: seq<Row>, k: nat)
    requires k < |rows|
    ensures RowsPass(files, registry, rows, k + 1) <==> RowsPass(files, registry, rows, k) && RowPasses(files, registry, rows[k])
  {
    hide RowPasses;
  }

  /** The guard rule passes iff every row names a file that exists and accepts it. */
  lemma {:induction false} CheckRowsPassIff(files: map<Name, seq<Line>>, registry: Registry, rows: seq<Row>, k: nat)
    requires k <= |rows|
    ensures CheckRows(files, registry, rows, k) == ([], false) <==> RowsPass(files, registry, rows, k)
  {
    hide CheckRow, RowPasses;
    if k > 0 {
      hide *;
      CheckRowsPassIff(files, registry, rows, k - 1);
      CheckRowsStep(files, registry, rows, k - 1);
      RowsPassStep(files, registry, rows, k - 1);
    }
  }

  /** A file in which the gate's shortcuts stand for real nesting and its mentions for declarations, for one row. */
  ghost predicate FaithfulFile(lines: seq<Line>, registry: Registry, row: Row) {
    exists span :: FaithfulSpan(lines, row, span) && (row.cluster in registry.values ==>
      forall member :: member in registry.values[row.cluster] ==> SpeaksOf(lines, member, span))
  }

  /**
   When the guard rule passes, the scanner finds no member of any listed cluster in any listed
   file whose version guards contain only version guards and which is faithful for its rows.
   */
  lemma PassingGateAgreesWithScanner(files: map<Name, seq<Line>>, registry: Registry, rows: seq<Row>, i: nat, member: Name)
    requires CheckRows(files, registry, rows, |rows|) == ([], false)
    requires i < |rows| && rows[i].file in files
    requires var lines := files[rows[i].file];
      GuardsHoldOnlyGuards(lines) && FaithfulFile(lines, registry, rows[i])
    ensures rows[i].cluster in registry.values
    ensures member in registry.values[rows[i].cluster] ==>
      member !in AlwaysPresent(files[rows[i].file], |files[rows[i].file]|)
  {
    CheckRowsPassIff(files, registry, rows, |rows|);
    assert RowPasses(files, registry, rows[i]);
    var span :| FaithfulSpan(files[rows[i].file], rows[i], span) && (rows[i].cluster in registry.values ==>
      forall member :: member in registry.values[rows[i].cluster] ==> SpeaksOf(files[rows[i].file], member, span));
    AcceptedMembersAreGuarded(files[rows[i].file], registry, rows[i], span);
    ScannersAgree(files[rows[i].file], registry, rows[i], span);
  }

  // ---- What acceptance alone does not give ----

  function OneCluster(cluster: Name, member: Name): Registry {
    Dict([cluster], map[cluster := [member]])
  }

  /** A cluster that follows a closed guard, inside the header's include guard. */
  function StaleGuard(cluster: Name, member: Name, v: Version): (lines: seq<Line>)
    ensures |lines| == 6
  {
    [OtherIf, VersionIf(v), Endif, ClusterComment(cluster, v), Text(Some(member), {member}), Endif]
  }

  /** For every cluster, member and version, such a file is accepted although its field is always declared. */
  lemma StaleGuardIsAccepted(file: Name, cluster: Name, member: Name, v: Version)
    ensures var lines := StaleGuard(cluster, member, v);
      && WellNested(lines) && NoElse(lines) && GuardsHoldOnlyGuards(lines)
      && Accepted(lines, OneCluster(cluster, member), Row(file, cluster, v))
      && member in AlwaysPresent(lines, |lines|)
  {
    var lines := StaleGuard(cluster, member, v);
    StaleGuardStacks(cluster, member, v);
    assert SpanBounds(lines, Row(file, cluster, v), Span(3, 1, 5));
    assert Mentions(lines[4], member);
    AcceptedIff(lines, OneCluster(cluster, member), Row(file, cluster, v));
    UnguardedFieldsAreFound(lines, 4, member);
  }

  lemma StaleGuardStacks(cluster: Name, member: Name, v: Version)
    ensures var lines := StaleGuard(cluster, member, v);
      WellNested(lines) && GuardsHoldOnlyGuards(lines) && GuardCount(Stack(lines, 4)) == 0
  {
    var lines := StaleGuard(cluster, member, v);
    var foreign := Frame(None, false);
    assert Stack(lines, 0) == [] && GuardCount([]) == 0;
    assert GuardCount([foreign]) == 0 by {
      GuardCountStep([], OtherIf);
    }
    hide Stack, GuardCount;
    StackStep(lines, 0, [foreign]);
    StackStep(lines, 1, [foreign, Frame(Some(v), false)]);
    StackStep(lines, 2, [foreign]);
    StackStep(lines, 3, [foreign]);
    StackStep(lines, 4, [foreign]);
    StackStep(lines, 5, []);
    hide NextStack;
    forall i: nat | i < |lines|
      ensures HasOpener(lines, i) && NotOpenedInGuard(lines, i)
    {
      assert i == 0 || i == 1 || i == 2 || i == 3 || i == 4 || i == 5;
    }
  }

  /** A guarded line that mentions a member, and below the guard the member's field, on a line with any words. */
  function MentionOnly(cluster: Name, member: Name, v: Version, mention: Line, words: set<Name>): (lines: seq<Line>)
    ensures |lines| == 5
  {
    [VersionIf(v), ClusterComment(cluster, v), mention, Endif, Text(Some(member), words)]
  }

  /**
   Any guarded line that mentions a member passes for it: the file is accepted, with a faithful
   span, although the field is always declared.
   */
  lemma GuardedMentionSuffices(row: Row, member: Name, mention: Line, words: set<Name>)
    requires Mentions(mention, member)
    ensures var lines := MentionOnly(row.cluster, member, row.declared, mention, words);
      && WellNested(lines) && NoElse(lines) && GuardsHoldOnlyGuards(lines)
      && FaithfulSpan(lines, row, Span(1, 0, 3))
      && Accepted(lines, OneCluster(row.cluster, member), row)
      && member in AlwaysPresent(lines, |lines|)
  {
    var lines := MentionOnly(row.cluster, member, row.declared, mention, words);
    MentionOnlyStacks(row.cluster, member, row.declared, mention, words);
    assert SpanBounds(lines, row, Span(1, 0, 3));
    NoEndifKeepsGuardOpen(lines, row, Span(1, 0, 3));
    assert Mentions(lines[2], member);
    AcceptedIff(lines, OneCluster(row.cluster, member), row);
    UnguardedFieldsAreFound(lines, 4, member);
  }

  lemma MentionOnlySteps(cluster: Name, member: Name, v: Version, mention: Line, words: set<Name>)
    requires Mentions(mention, member)
    ensures var lines := MentionOnly(cluster, member, v, mention, words);
      && Stack(lines, 3) == [Frame(Some(v), false)]
      && Stack(lines, 4) == [] && Stack(lines, 5) == []
  {
    var lines := MentionOnly(cluster, member, v, mention, words);
    var guard := Frame(Some(v), false);
    assert Stack(lines, 0) == [];
    hide Stack;
    StackStep(lines, 0, [guard]);
    StackStep(lines, 1, [guard]);
    StackStep(lines, 2, [guard]);
    StackStep(lines, 3, []);
    StackStep(lines, 4, []);
  }

  lemma MentionOnlyStacks(cluster: Name, member: Name, v: Version, mention: Line, words: set<Name>)
    requires Mentions(mention, member)
    ensures var lines := MentionOnly(cluster, member, v, mention, words);
      WellNested(lines) && GuardsHoldOnlyGuards(lines) && GuardCount(Stack(lines, 4)) == 0
  {
    var lines := MentionOnly(cluster, member, v, mention, words);
    assert GuardCount([]) == 0;
    hide Stack, NextStack, GuardCount;
    MentionOnlySteps(cluster, member, v, mention, words);
    forall i: nat | i < |lines|
      ensures HasOpener(lines, i) && NotOpenedInGuard(lines, i)
    {
      assert i == 0 || i == 1 || i == 2 || i == 3 || i == 4;
    }
  }

  /** A cluster in the `#else` branch of its own guard. */
  function InElseBranch(cluster: Name, member: Name, v: Version): (lines: seq<Line>)
    ensures |lines| == 5
  {
    [VersionIf(v), Else, ClusterComment(cluster, v), Text(Some(member), {member}), Endif]
  }

  /** Such a file is accepted although its field is compiled exactly for the targets older than the declared version. */
  lemma ElseBranchIsAccepted(row: Row, member: Name, target: Version)
    ensures var lines := InElseBranch(row.cluster, member, row.declared);
      && WellNested(lines) && GuardsHoldOnlyGuards(lines)
      && Accepted(lines, OneCluster(row.cluster, member), row)
      && (InSurface(lines, target, member) <==> Less(target, row.declared))
  {
    var lines := InElseBranch(row.cluster, member, row.declared);
    InElseBranchStacks(row.cluster, member, row.declared);
    assert SpanBounds(lines, row, Span(2, 0, 4));
    assert Mentions(lines[3], member);
    AcceptedIff(lines, OneCluster(row.cluster, member), row);
    assert Frame(Some(row.declared), true) in Stack(lines, 3);
    assert Declares(lines, 3, member);
    forall i: nat | i < |lines| && Declares(lines, i, member)
      ensures i == 3
    {
      assert i == 0 || i == 1 || i == 2 || i == 3 || i == 4;
    }
  }

  lemma InElseBranchStacks(cluster: Name, member: Name, v: Version)
    ensures var lines := InElseBranch(cluster, member, v);
      WellNested(lines) && GuardsHoldOnlyGuards(lines) && Stack(lines, 3) == [Frame(Some(v), true)]
  {
    var lines := InElseBranch(cluster, member, v);
    var guard := Frame(Some(v), false);
    assert Stack(lines, 0) == [] && GuardCount([]) == 0;
    hide Stack, GuardCount;
    StackStep(lines, 0, [guard]);
    StackStep(lines, 1, [guard.(negated := true)]);
    StackStep(lines, 2, [guard.(negated := true)]);
    StackStep(lines, 3, [guard.(negated := true)]);
    StackStep(lines, 4, []);
    hide NextStack;
    forall i: nat | i < |lines|
      ensures HasOpener(lines, i) && NotOpenedInGuard(lines, i)
    {
      assert i == 0 || i == 1 || i == 2 || i == 3 || i == 4;
    }
  }
}
