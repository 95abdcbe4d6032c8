/**
 What the failures of the version gate report: each kind of failure is in the list exactly
 when the table or the file has the defect it names.
 */
module GateFailures {
  import opened Options
  import opened Preprocessor
  import opened VersionGate
  import opened VersionGateTheorems
  import opened RegistryTheorems

  // ---- Rule (a) ----

  /** The defects of one row that rule (a) reports. */
  ghost predicate VersionDefect(entities: Entities, registry: Registry, row: Row, f: Failure) {
    match f
    case UnknownCluster(r) => r == row && row.cluster !in registry.values
    case NoEntry(cluster, member) =>
      cluster == row.cluster && cluster in registry.values && member in registry.values[cluster] && member !in entities.values
    case WrongVersion(r, implied) =>
      r == row && row.cluster in registry.values && row.declared != implied
      && GreatestVersion(entities, registry.values[row.cluster], implied)
    case _ => false
  }

  lemma {:induction false} MissingEntryIff(entities: Entities, cluster: Name, members: seq<Name>, k: nat, f: Failure)
    requires k <= |members|
    ensures f in MissingEntries(entities, cluster, members, k) <==>
      f.NoEntry? && f.cluster == cluster && f.member in members[..k] && f.member !in entities.values
  {
    if k > 0 {
      MissingEntryIff(entities, cluster, members, k - 1, f);
      assert members[..k] == members[..k - 1] + [members[k - 1]];
    }
  }

  lemma RowVersionFailureIff(entities: Entities, registry: Registry, row: Row, f: Failure)
    ensures f in RowVersionFailures(entities, registry, row) <==> VersionDefect(entities, registry, row, f)
  {
    if row.cluster in registry.values {
      var members := registry.values[row.cluster];
      MissingEntryIff(entities, row.cluster, members, |members|, f);
      assert members[..|members|] == members;
      MaxVersionIff(entities, members, MaxVersion(entities, members, |members|));
      if f.WrongVersion? {
        MaxVersionIff(entities, members, f.implied);
      }
    }
  }

  /** Rule (a) reports exactly the version defects of the rows. */
  lemma {:induction false} VersionFailureIff(entities: Entities, registry: Registry, rows: seq<Row>, k: nat, f: Failure)
    requires k <= |rows|
    ensures f in VersionFailures(entities, registry, rows, k) <==>
      exists i :: 0 <= i < k && VersionDefect(entities, registry, rows[i], f)
  {
    hide VersionDefect, RowVersionFailures;
    if k > 0 {
      VersionFailureIff(entities, registry, rows, k - 1, f);
      RowVersionFailureIff(entities, registry, rows[k - 1], f);
    }
  }

  // ---- Rule (b) ----

  /** The listed owners of a name are the clusters that own it, each once. */
  lemma OwnersAreClusters(registry: Registry, name: Name)
    requires ValidDict(registry)
    ensures var owners := Owners(registry, name, |registry.keys|);
      && (forall cluster :: cluster in owners <==> Owns(registry, cluster, name))
      && (forall i, j :: 0 <= i < j < |owners| ==> owners[i] != owners[j])
  {
    var owners := Owners(registry, name, |registry.keys|);
    forall cluster | cluster in owners
      ensures Owns(registry, cluster, name)
    {
      var i :| 0 <= i < |owners| && owners[i] == cluster;
      var p := OwnerIsKey(registry, name, |registry.keys|, i);
    }
    forall cluster | Owns(registry, cluster, name)
      ensures cluster in owners
    {
      var i := OwnsIsKey(registry, cluster, name);
    }
    forall i, j | 0 <= i < j < |owners|
      ensures owners[i] != owners[j]
    {
      OwnersDiffer(registry, name, |registry.keys|, i, j);
    }
  }

  /** The defects of one entity that rule (b) reports. */
  ghost predicate CoverageDefect(registry: Registry, name: Name, f: Failure)
    requires ValidDict(registry)
  {
    match f
    case Unowned(n) => n == name && forall cluster :: !Owns(registry, cluster, name)
    case ManyOwners(n, owners) =>
      n == name && owners == Owners(registry, name, |registry.keys|)
      && exists c, d :: Owns(registry, c, name) && Owns(registry, d, name) && c != d
    case _ => false
  }

  lemma OwnerCount(registry: Registry, name: Name)
    requires ValidDict(registry)
    ensures var n := |Owners(registry, name, |registry.keys|)|;
      && (n == 0 <==> forall cluster :: !Owns(registry, cluster, name))
      && (n > 1 <==> exists c, d :: Owns(registry, c, name) && Owns(registry, d, name) && c != d)
  {
    var owners := Owners(registry, name, |registry.keys|);
    OwnersAreClusters(registry, name);
    if |owners| > 1 {
      OwnersDiffer(registry, name, |registry.keys|, 0, 1);
      assert owners[0] in owners && owners[1] in owners;
    }
    if |owners| > 0 {
      assert owners[0] in owners;
    }
    if c, d :| Owns(registry, c, name) && Owns(registry, d, name) && c != d {
      assert c in owners && d in owners;
    }
  }

  lemma OwnerFailureIff(registry: Registry, name: Name, f: Failure)
    requires ValidDict(registry)
    ensures f in OwnerFailures(registry, name) <==> CoverageDefect(registry, name, f)
  {
    OwnerCount(registry, name);
    hide ValidDict, Owners, Owns;
    match f
    case Unowned(n) =>
    case ManyOwners(n, owners) =>
    case _ =>
  }

  /** Rule (b) reports exactly the entities without an owner or with several, with all their owners. */
  lemma {:induction false} CoverageFailureIff(entities: Entities, registry: Registry, k: nat, f: Failure)
    requires ValidDict(registry) && k <= |entities.keys|
    ensures f in CoverageFailures(entities, registry, k) <==>
      exists i :: 0 <= i < k && CoverageDefect(registry, entities.keys[i], f)
  {
    hide CoverageDefect, OwnerFailures, ValidDict;
    if k > 0 {
      CoverageFailureIff(entities, registry, k - 1, f);
      OwnerFailureIff(registry, entities.keys[k - 1], f);
    }
  }

  // ---- Rule (c) ----

  /** The comment at line c is the first for the row. */
  ghost predicate CommentAt(lines: seq<Line>, row: Row, c: nat) {
    && c < |lines| && lines[c] == ClusterComment(row.cluster, row.declared)
    && forall i :: 0 <= i < c ==> lines[i] != ClusterComment(row.cluster, row.declared)
  }

  /** A guard for the row's version stands above line c. */
  ghost predicate GuardedAbove(lines: seq<Line>, row: Row, c: nat)
    requires c <= |lines|
  {
    exists i :: 0 <= i < c && lines[i] == VersionIf(row.declared)
  }

  ghost predicate EndsBelow(lines: seq<Line>, c: nat) {
    exists i :: c < i < |lines| && lines[i] == Endif
  }

  /** The member is first mentioned on line n, counting from 1. */
  ghost predicate FirstMentionedOn(lines: seq<Line>, member: Name, n: nat) {
    0 < n <= |lines| && Mentions(lines[n - 1], member) && forall i :: 0 <= i < n - 1 ==> !Mentions(lines[i], member)
  }

  /** The defects of one row in its file that rule (c) reports. */
  ghost predicate GuardDefect(lines: seq<Line>, registry: Registry, row: Row, f: Failure) {
    match f
    case NoComment(r) => r == row && forall c :: !CommentAt(lines, row, c)
    case NoGuard(r) => r == row && exists c :: CommentAt(lines, row, c) && !GuardedAbove(lines, row, c)
    case NoEndif(r) =>
      r == row && exists c :: CommentAt(lines, row, c) && GuardedAbove(lines, row, c) && !EndsBelow(lines, c)
    case MemberMissing(r, member) =>
      r == row && row.cluster in registry.values && member in registry.values[row.cluster]
      && (exists span :: SpanBounds(lines, row, span)) && forall line :: line in lines ==> !Mentions(line, member)
    case MemberOutside(r, member, n) =>
      r == row && row.cluster in registry.values && member in registry.values[row.cluster] && FirstMentionedOn(lines, member, n)
      && exists span :: SpanBounds(lines, row, span) && !MentionedWithin(lines, member, span.start, span.end)
    case _ => false
  }

  /** The defects of one member, once a span is found. */
  ghost predicate MemberDefect(lines: seq<Line>, row: Row, start: nat, end: nat, member: Name, f: Failure)
    requires end <= |lines|
  {
    match f
    case MemberMissing(r, m) => r == row && m == member && forall line :: line in lines ==> !Mentions(line, member)
    case MemberOutside(r, m, n) =>
      r == row && m == member && FirstMentionedOn(lines, member, n) && !MentionedWithin(lines, member, start, end)
    case _ => false
  }

  lemma MemberFailureIff(lines: seq<Line>, row: Row, start: nat, end: nat, member: Name, f: Failure)
    requires start < end < |lines|
    ensures f in MemberFailure(lines, row, start, end, member) <==> MemberDefect(lines, row, start, end, member, f)
  {
    FirstMentionMeaning(lines, member, 0, |lines|);
    FirstMentionMeaning(lines, member, start + 1, end);
    hide FirstMention, Mentions;
    match FirstMention(lines, member, 0, |lines|)
    case None =>
    case Some(hit) =>
      assert lines[hit] in lines && FirstMentionedOn(lines, member, hit + 1);
  }

  lemma {:induction false} MemberFailuresIff(lines: seq<Line>, row: Row, start: nat, end: nat, members: seq<Name>, k: nat, f: Failure)
    requires start < end < |lines| && k <= |members|
    ensures f in MemberFailures(lines, row, start, end, members, k) <==>
      exists i :: 0 <= i < k && f in MemberFailure(lines, row, start, end, members[i])
  {
    hide MemberFailure;
    if k > 0 {
      MemberFailuresIff(lines, row, start, end, members, k - 1, f);
    }
  }

  lemma SpanIsUnique(lines: seq<Line>, row: Row, a: Span, b: Span)
    requires SpanBounds(lines, row, a) && SpanBounds(lines, row, b)
    ensures a == b
  {
    IsSpanIff(lines, row, a);
    IsSpanIff(lines, row, b);
  }

  lemma CommentIsUnique(lines: seq<Line>, row: Row, c: nat)
    ensures CommentAt(lines, row, c) <==> FirstComment(lines, row.cluster, row.declared, 0) == Some(c)
  {
    FirstCommentMeaning(lines, row.cluster, row.declared, 0);
  }

  /** The search for a span ends at the first missing bound. */
  lemma SearchIff(lines: seq<Line>, row: Row, c: nat)
    requires FirstComment(lines, row.cluster, row.declared, 0) == Some(c)
    ensures CommentAt(lines, row, c)
    ensures GuardAbove(lines, row.declared, c).Some? <==> GuardedAbove(lines, row, c)
    ensures EndifFrom(lines, c + 1).Some? <==> EndsBelow(lines, c)
    ensures (exists span :: SpanBounds(lines, row, span)) <==> GuardedAbove(lines, row, c) && EndsBelow(lines, c)
  {
    CommentIsUnique(lines, row, c);
    GuardAboveMeaning(lines, row.declared, c);
    EndifFromMeaning(lines, c + 1);
    if GuardAbove(lines, row.declared, c).Some? && EndifFrom(lines, c + 1).Some? {
      var span := Span(c, GuardAbove(lines, row.declared, c).value, EndifFrom(lines, c + 1).value);
      IsSpanIff(lines, row, span);
    }
    if span :| SpanBounds(lines, row, span) {
      IsSpanIff(lines, row, span);
    }
  }

  lemma NoSpanWithoutComment(lines: seq<Line>, row: Row)
    requires FirstComment(lines, row.cluster, row.declared, 0) == None
    ensures forall c :: !CommentAt(lines, row, c)
    ensures forall span :: !SpanBounds(lines, row, span)
  {
    forall c: nat
      ensures !CommentAt(lines, row, c)
    {
      CommentIsUnique(lines, row, c);
    }
    forall span
      ensures !SpanBounds(lines, row, span)
    {
      IsSpanIff(lines, row, span);
    }
  }

  lemma DefectsWithSpan(lines: seq<Line>, registry: Registry, row: Row, span: Span, f: Failure)
    requires SpanBounds(lines, row, span) && row.cluster in registry.values
    ensures GuardDefect(lines, registry, row, f) <==>
      exists i :: 0 <= i < |registry.values[row.cluster]|
        && f in MemberFailure(lines, row, span.start, span.end, registry.values[row.cluster][i])
  {
    IsSpanIff(lines, row, span);
    SearchIff(lines, row, span.comment);
    forall other | SpanBounds(lines, row, other)
      ensures other == span
    {
      SpanIsUnique(lines, row, other, span);
    }
    forall c | CommentAt(lines, row, c)
      ensures c == span.comment
    {
      CommentIsUnique(lines, row, c);
    }
    var members := registry.values[row.cluster];
    forall member
      ensures f in MemberFailure(lines, row, span.start, span.end, member) <==>
        MemberDefect(lines, row, span.start, span.end, member, f)
    {
      MemberFailureIff(lines, row, span.start, span.end, member, f);
    }
    hide SpanBounds, IsSpan, CommentAt, GuardedAbove, EndsBelow, FirstMentionedOn, MentionedWithin, MemberFailure, Mentions;
    if f.MemberMissing? || f.MemberOutside? {
      assert f.member in members <==> exists i :: 0 <= i < |members| && members[i] == f.member;
    }
  }

  /** Checking a row reports exactly its defects, or raises exactly when a span is found for an unknown cluster. */
  lemma RowFailureIff(lines: seq<Line>, registry: Registry, row: Row, f: Failure)
    ensures CheckRow(lines, registry, row) == Raised <==>
      row.cluster !in registry.values && exists span :: SpanBounds(lines, row, span)
    ensures CheckRow(lines, registry, row).Checked? ==>
      (f in CheckRow(lines, registry, row).failures <==> GuardDefect(lines, registry, row, f))
  {
    match FirstComment(lines, row.cluster, row.declared, 0)
    case None =>
      NoSpanWithoutComment(lines, row);
    case Some(c) =>
      SearchIff(lines, row, c);
      forall d | CommentAt(lines, row, d)
        ensures d == c
      {
        CommentIsUnique(lines, row, d);
      }
      if span :| SpanBounds(lines, row, span) {
        IsSpanIff(lines, row, span);
        CheckRowAtSpan(lines, registry, row, span);
        if row.cluster in registry.values {
          var members := registry.values[row.cluster];
          MemberFailuresIff(lines, row, span.start, span.end, members, |members|, f);
          DefectsWithSpan(lines, registry, row, span, f);
          hide CheckRow, GuardDefect, SpanBounds;
        }
      }
  }

  /** Some row before the k-th raised an exception. */
  ghost predicate RaisedBefore(files: map<Name, seq<Line>>, registry: Registry, rows: seq<Row>, k: nat)
    requires k <= |rows|
  {
    exists i :: 0 <= i < k && RowRaises(files, registry, rows[i])
  }

  ghost predicate RowRaises(files: map<Name, seq<Line>>, registry: Registry, row: Row) {
    row.file in files && row.cluster !in registry.values && exists span :: SpanBounds(files[row.file], row, span)
  }

  /** What rule (c) has to report of one row. */
  ghost predicate FileDefect(files: map<Name, seq<Line>>, registry: Registry, row: Row, f: Failure) {
    if row.file !in files then f == NoFile(row)
    else !RowRaises(files, registry, row) && GuardDefect(files[row.file], registry, row, f)
  }

  lemma CheckRowsOneMore(files: map<Name, seq<Line>>, registry: Registry, rows: seq<Row>, k: nat, f: Failure)
    requires k < |rows|
    ensures var (failures, raised), (more, stopped) := CheckRows(files, registry, rows, k), CheckRows(files, registry, rows, k + 1);
      && (stopped <==> raised || RowRaises(files, registry, rows[k]))
      && (f in more <==> f in failures || (!raised && FileDefect(files, registry, rows[k], f)))
  {
    if rows[k].file in files {
      RowFailureIff(files[rows[k].file], registry, rows[k], f);
    }
    hide CheckRow, GuardDefect, SpanBounds;
  }

  /** Rule (c) reports exactly the defects of the rows up to the first that raises, and raises iff one does. */
  lemma {:induction false} GuardFailureIff(files: map<Name, seq<Line>>, registry: Registry, rows: seq<Row>, k: nat, f: Failure)
    requires k <= |rows|
    ensures CheckRows(files, registry, rows, k).1 <==> RaisedBefore(files, registry, rows, k)
    ensures f in CheckRows(files, registry, rows, k).0 <==>
      exists i: nat :: i < k && !RaisedBefore(files, registry, rows, i) && FileDefect(files, registry, rows[i], f)
  {
    hide CheckRow, RowRaises, FileDefect;
    if k > 0 {
      GuardFailureIff(files, registry, rows, k - 1, f);
      CheckRowsOneMore(files, registry, rows, k - 1, f);
      hide CheckRows;
    }
  }

  // ---- The order of the report ----

  /** Every rule reports in the order of its table: what it reports of a prefix of the table comes first. */
  lemma {:induction false} ReportsGrow(entities: Entities, registry: Registry, files: map<Name, seq<Line>>, rows: seq<Row>, j: nat, k: nat)
    requires j <= k && ValidDict(registry)
    ensures k <= |rows| ==> VersionFailures(entities, registry, rows, j) <= VersionFailures(entities, registry, rows, k)
    ensures k <= |entities.keys| ==> CoverageFailures(entities, registry, j) <= CoverageFailures(entities, registry, k)
    ensures k <= |rows| ==> CheckRows(files, registry, rows, j).0 <= CheckRows(files, registry, rows, k).0
  {
    hide RowVersionFailures, OwnerFailures, CheckRow, ValidDict;
    if j < k {
      ReportsGrow(entities, registry, files, rows, j, k - 1);
    }
  }

  /** The owners of a name are listed in the order of the registry. */
  lemma {:induction false} OwnersGrow(registry: Registry, name: Name, j: nat, k: nat)
    requires j <= k <= |registry.keys| && ValidDict(registry)
    ensures Owners(registry, name, j) <= Owners(registry, name, k)
  {
    if j < k {
      OwnersGrow(registry, name, j, k - 1);
    }
  }
}
