/**
 The checks of tools/mpi_version_gate.py, as a tool that accumulates failures. Tables that
 the tool keeps as Python dictionaries are key sequences in insertion order with a map.
 */
module VersionGate {
  import opened Options
  import opened Preprocessor

  datatype Dict<V> = Dict(keys: seq<Name>, values: map<Name, V>)

  ghost predicate ValidDict<V>(d: Dict<V>) {
    && (forall key :: key in d.keys <==> key in d.values)
    && (forall i, j :: 0 <= i < j < |d.keys| ==> d.keys[i] != d.keys[j])
  }

  /** A row of versioned_clusters.csv. */
  datatype Row = Row(file: Name, cluster: Name, declared: Version)

  type Registry = Dict<seq<Name>>

  type Entities = Dict<Version>

  datatype Failure =
    | UnknownCluster(row: Row)
    | NoEntry(cluster: Name, member: Name)
    | WrongVersion(row: Row, implied: Version)
    | Unowned(name: Name)
    | ManyOwners(name: Name, owners: seq<Name>)
    | NoFile(row: Row)
    | NoComment(row: Row)
    | NoGuard(row: Row)
    | NoEndif(row: Row)
    | MemberMissing(row: Row, member: Name)
    | MemberOutside(row: Row, member: Name, firstHit: nat)

  const ZERO := Version(0, 0)

  // ---- Rule (a): declared versions ----

  /** The running maximum over the first k members, starting from 0.0; members without an entry are skipped. */
  function MaxVersion(entities: Entities, members: seq<Name>, k: nat): Version
    requires k <= |members|
  {
    if k == 0 then ZERO
    else
      var before := MaxVersion(entities, members, k - 1);
      var member := members[k - 1];
      if member in entities.values && Less(before, entities.values[member]) then entities.values[member] else before
  }

  function MissingEntries(entities: Entities, cluster: Name, members: seq<Name>, k: nat): seq<Failure>
    requires k <= |members|
  {
    if k == 0 then []
    else MissingEntries(entities, cluster, members, k - 1)
         + if members[k - 1] in entities.values then [] else [NoEntry(cluster, members[k - 1])]
  }

  function RowVersionFailures(entities: Entities, registry: Registry, row: Row): seq<Failure> {
    if row.cluster !in registry.values then [UnknownCluster(row)]
    else
      var members := registry.values[row.cluster];
      var implied := MaxVersion(entities, members, |members|);
      MissingEntries(entities, row.cluster, members, |members|)
      + if row.declared != implied then [WrongVersion(row, implied)] else []
  }

  function VersionFailures(entities: Entities, registry: Registry, rows: seq<Row>, k: nat): seq<Failure>
    requires k <= |rows|
  {
    if k == 0 then []
    else VersionFailures(entities, registry, rows, k - 1) + RowVersionFailures(entities, registry, rows[k - 1])
  }

  // ---- Rule (b): coverage ----

  /** The clusters among the first k of the registry that list a name. */
  function Owners(registry: Registry, name: Name, k: nat): seq<Name>
    requires ValidDict(registry) && k <= |registry.keys|
  {
    if k == 0 then []
    else
      var cluster := registry.keys[k - 1];
      Owners(registry, name, k - 1) + if name in registry.values[cluster] then [cluster] else []
  }

  function OwnerFailures(registry: Registry, name: Name): seq<Failure>
    requires ValidDict(registry)
  {
    var owners := Owners(registry, name, |registry.keys|);
    if |owners| == 0 then [Unowned(name)]
    else if |owners| > 1 then [ManyOwners(name, owners)]
    else []
  }

  function CoverageFailures(entities: Entities, registry: Registry, k: nat): seq<Failure>
    requires ValidDict(registry) && k <= |entities.keys|
  {
    if k == 0 then []
    else CoverageFailures(entities, registry, k - 1) + OwnerFailures(registry, entities.keys[k - 1])
  }

  // ---- Rule (c): guards ----

  /** The first comment naming the cluster and version, from line k on. */
  function FirstComment(lines: seq<Line>, cluster: Name, v: Version, k: nat): Option<nat>
    requires k <= |lines|
    decreases |lines| - k
  {
    if k == |lines| then None
    else if lines[k] == ClusterComment(cluster, v) then Some(k)
    else FirstComment(lines, cluster, v, k + 1)
  }

  /** The nearest `#if` for the version strictly above line k. */
  function GuardAbove(lines: seq<Line>, v: Version, k: nat): Option<nat>
    requires k <= |lines|
  {
    if k == 0 then None
    else if lines[k - 1] == VersionIf(v) then Some(k - 1)
    else GuardAbove(lines, v, k - 1)
  }

  /** The nearest `#endif` from line k on. */
  function EndifFrom(lines: seq<Line>, k: nat): Option<nat>
    requires k <= |lines|
    decreases |lines| - k
  {
    if k == |lines| then None
    else if lines[k] == Endif then Some(k)
    else EndifFrom(lines, k + 1)
  }

  /** The first line from k on, below `limit`, that mentions a name. */
  function FirstMention(lines: seq<Line>, name: Name, k: nat, limit: nat): Option<nat>
    requires k <= limit <= |lines|
    decreases limit - k
  {
    if k == limit then None
    else if Mentions(lines[k], name) then Some(k)
    else FirstMention(lines, name, k + 1, limit)
  }

  function MemberFailure(lines: seq<Line>, row: Row, start: nat, end: nat, member: Name): seq<Failure>
    requires start < end < |lines|
  {
    match FirstMention(lines, member, 0, |lines|)
    case None => [MemberMissing(row, member)]
    case Some(hit) =>
      if FirstMention(lines, member, start + 1, end).Some? then [] else [MemberOutside(row, member, hit + 1)]
  }

  function MemberFailures(lines: seq<Line>, row: Row, start: nat, end: nat, members: seq<Name>, k: nat): seq<Failure>
    requires start < end < |lines| && k <= |members|
  {
    if k == 0 then []
    else MemberFailures(lines, row, start, end, members, k - 1) + MemberFailure(lines, row, start, end, members[k - 1])
  }

  /** What checking one row ends with: failures, or an exception when the cluster is not in the registry. */
  datatype RowResult = Checked(failures: seq<Failure>) | Raised

  function CheckRow(lines: seq<Line>, registry: Registry, row: Row): RowResult {
    match FirstComment(lines, row.cluster, row.declared, 0)
    case None => Checked([NoComment(row)])
    case Some(c) =>
      GuardSearchBounds(lines, row.cluster, row.declared, c);
      match GuardAbove(lines, row.declared, c)
      case None => Checked([NoGuard(row)])
      case Some(start) =>
        match EndifFrom(lines, c + 1)
        case None => Checked([NoEndif(row)])
        case Some(end) =>
          if row.cluster !in registry.values then Raised
          else
            var members := registry.values[row.cluster];
            Checked(MemberFailures(lines, row, start, end, members, |members|))
  }

  lemma {:induction false} FirstCommentMeaning(lines: seq<Line>, cluster: Name, v: Version, k: nat)
    requires k <= |lines|
    ensures match FirstComment(lines, cluster, v, k)
      case None => forall i :: k <= i < |lines| ==> lines[i] != ClusterComment(cluster, v)
      case Some(c) => k <= c < |lines| && lines[c] == ClusterComment(cluster, v)
                      && forall i :: k <= i < c ==> lines[i] != ClusterComment(cluster, v)
    decreases |lines| - k
  {
    if k < |lines| {
      FirstCommentMeaning(lines, cluster, v, k + 1);
    }
  }

  lemma {:induction false} GuardAboveMeaning(lines: seq<Line>, v: Version, k: nat)
    requires k <= |lines|
    ensures match GuardAbove(lines, v, k)
      case None => forall i :: 0 <= i < k ==> lines[i] != VersionIf(v)
      case Some(start) => start < k && lines[start] == VersionIf(v) && forall i :: start < i < k ==> lines[i] != VersionIf(v)
  {
    if k > 0 {
      GuardAboveMeaning(lines, v, k - 1);
    }
  }

  lemma {:induction false} EndifFromMeaning(lines: seq<Line>, k: nat)
    requires k <= |lines|
    ensures match EndifFrom(lines, k)
      case None => forall i :: k <= i < |lines| ==> lines[i] != Endif
      case Some(end) => k <= end < |lines| && lines[end] == Endif && forall i :: k <= i < end ==> lines[i] != Endif
    decreases |lines| - k
  {
    if k < |lines| {
      EndifFromMeaning(lines, k + 1);
    }
  }

  lemma {:induction false} FirstMentionMeaning(lines: seq<Line>, name: Name, k: nat, limit: nat)
    requires k <= limit <= |lines|
    ensures match FirstMention(lines, name, k, limit)
      case None => forall i :: k <= i < limit ==> !Mentions(lines[i], name)
      case Some(hit) => k <= hit < limit && Mentions(lines[hit], name) && forall i :: k <= i < hit ==> !Mentions(lines[i], name)
    decreases limit - k
  {
    if k < limit {
      FirstMentionMeaning(lines, name, k + 1, limit);
    }
  }

  /** The span the search finds runs from above the comment to below it. */
  lemma GuardSearchBounds(lines: seq<Line>, cluster: Name, v: Version, c: nat)
    requires FirstComment(lines, cluster, v, 0) == Some(c)
    ensures c < |lines|
    ensures GuardAbove(lines, v, c).Some? ==> GuardAbove(lines, v, c).value < c
    ensures EndifFrom(lines, c + 1).Some? ==> c < EndifFrom(lines, c + 1).value < |lines|
  {
    FirstCommentMeaning(lines, cluster, v, 0);
    GuardAboveMeaning(lines, v, c);
    EndifFromMeaning(lines, c + 1);
  }

  /** What checking the first k rows ends with; an exception ends the tool. */
  function CheckRows(files: map<Name, seq<Line>>, registry: Registry, rows: seq<Row>, k: nat): (seq<Failure>, bool)
    requires k <= |rows|
  {
    if k == 0 then ([], false)
    else
      var (failures, raised) := CheckRows(files, registry, rows, k - 1);
      var row := rows[k - 1];
      if raised then (failures, true)
      else if row.file !in files then (failures + [NoFile(row)], false)
      else
        match CheckRow(files[row.file], registry, row)
        case Checked(more) => (failures + more, false)
        case Raised => (failures, true)
  }

  function DataFailures(entities: Entities, registry: Registry, rows: seq<Row>): seq<Failure>
    requires ValidDict(registry)
  {
    VersionFailures(entities, registry, rows, |rows|) + CoverageFailures(entities, registry, |entities.keys|)
  }

  // ---- The tool ----

  datatype CheckResult = CheckPassed | CheckFailed | Exception

  class Gate {
    var failures: seq<Failure>

    constructor ()
      ensures failures == []
    {
      failures := [];
    }

    method Fail(failure: Failure)
      modifies this
      ensures failures == old(failures) + [failure]
    {
      failures := failures + [failure];
    }

    method CheckClusterVersions(entities: Entities, registry: Registry, rows: seq<Row>)
      modifies this
      ensures failures == old(failures) + VersionFailures(entities, registry, rows, |rows|)
    {
      hide RowVersionFailures;
      for i := 0 to |rows|
        invariant failures == old(failures) + VersionFailures(entities, registry, rows, i)
      {
        ghost var before := failures;
        CheckClusterVersion(entities, registry, rows[i]);
        assert failures == old(failures) + (VersionFailures(entities, registry, rows, i) + RowVersionFailures(entities, registry, rows[i]));
      }
    }

    method CheckClusterVersion(entities: Entities, registry: Registry, row: Row)
      modifies this
      ensures failures == old(failures) + RowVersionFailures(entities, registry, row)
    {
      if row.cluster !in registry.values {
        Fail(UnknownCluster(row));
        return;
      }
      var members := registry.values[row.cluster];
      var implied := ZERO;
      for i := 0 to |members|
        invariant implied == MaxVersion(entities, members, i)
        invariant failures == old(failures) + MissingEntries(entities, row.cluster, members, i)
      {
        var member := members[i];
        if member !in entities.values {
          Fail(NoEntry(row.cluster, member));
        } else if Less(implied, entities.values[member]) {
          implied := entities.values[member];
        }
      }
      if row.declared != implied {
        Fail(WrongVersion(row, implied));
      }
    }

    method CheckCoverage(entities: Entities, registry: Registry)
      requires ValidDict(registry)
      modifies this
      ensures failures == old(failures) + CoverageFailures(entities, registry, |entities.keys|)
    {
      for i := 0 to |entities.keys|
        invariant failures == old(failures) + CoverageFailures(entities, registry, i)
      {
        var name := entities.keys[i];
        var owning := Owners(registry, name, |registry.keys|);
        if |owning| == 0 {
          Fail(Unowned(name));
        } else if |owning| > 1 {
          Fail(ManyOwners(name, owning));
        }
      }
    }

    method FindComment(lines: seq<Line>, cluster: Name, v: Version) returns (c: Option<nat>)
      ensures c == FirstComment(lines, cluster, v, 0)
    {
      c := None;
      var i: nat := |lines|;
      while i > 0
        invariant i <= |lines| && c == FirstComment(lines, cluster, v, i)
      {
        i := i - 1;
        if lines[i] == ClusterComment(cluster, v) {
          c := Some(i);
        }
      }
    }

    method FindGuardAbove(lines: seq<Line>, v: Version, c: nat) returns (start: Option<nat>)
      requires c <= |lines|
      ensures start == GuardAbove(lines, v, c)
    {
      start := None;
      var i: nat := c;
      while i > 0
        invariant i <= c && GuardAbove(lines, v, i) == GuardAbove(lines, v, c)
      {
        i := i - 1;
        if lines[i] == VersionIf(v) {
          return Some(i);
        }
      }
    }

    method FindEndif(lines: seq<Line>, k: nat) returns (end: Option<nat>)
      requires k <= |lines|
      ensures end == EndifFrom(lines, k)
    {
      end := None;
      for i := k to |lines|
        invariant EndifFrom(lines, i) == EndifFrom(lines, k)
      {
        if lines[i] == Endif {
          return Some(i);
        }
      }
    }

    /** Check the guard of one row in its file; true when an exception ended the tool. */
    method CheckGuard(lines: seq<Line>, registry: Registry, row: Row) returns (raised: bool)
      modifies this
      ensures match CheckRow(lines, registry, row)
        case Checked(more) => !raised && failures == old(failures) + more
        case Raised => raised && failures == old(failures)
    {
      raised := false;
      var c := FindComment(lines, row.cluster, row.declared);
      if c.None? {
        Fail(NoComment(row));
        return;
      }
      GuardSearchBounds(lines, row.cluster, row.declared, c.value);
      var start := FindGuardAbove(lines, row.declared, c.value);
      var end := FindEndif(lines, c.value + 1);
      if start.None? {
        Fail(NoGuard(row));
        return;
      }
      if end.None? {
        Fail(NoEndif(row));
        return;
      }
      if row.cluster !in registry.values {
        return true;
      }
      CheckMembers(lines, row, start.value, end.value, registry.values[row.cluster]);
    }

    method CheckMembers(lines: seq<Line>, row: Row, start: nat, end: nat, members: seq<Name>)
      requires start < end < |lines|
      modifies this
      ensures failures == old(failures) + MemberFailures(lines, row, start, end, members, |members|)
    {
      for i := 0 to |members|
        invariant failures == old(failures) + MemberFailures(lines, row, start, end, members, i)
      {
        var member := members[i];
        var hit := FirstMention(lines, member, 0, |lines|);
        if hit.None? {
          Fail(MemberMissing(row, member));
        } else if FirstMention(lines, member, start + 1, end).None? {
          Fail(MemberOutside(row, member, hit.value + 1));
        }
      }
    }

    method CheckGuards(files: map<Name, seq<Line>>, registry: Registry, rows: seq<Row>) returns (raised: bool)
      modifies this
      ensures var (more, stopped) := CheckRows(files, registry, rows, |rows|);
        failures == old(failures) + more && raised == stopped
    {
      hide CheckRow;
      raised := false;
      for i := 0 to |rows|
        invariant CheckRows(files, registry, rows, i).1 == raised
        invariant failures == old(failures) + CheckRows(files, registry, rows, i).0
      {
        if !raised {
          var row := rows[i];
          if row.file !in files {
            Fail(NoFile(row));
          } else {
            raised := CheckGuard(files[row.file], registry, row);
          }
        }
      }
    }

    /** `check`: the data rules, then the guard rule if it is asked for. */
    method RunCheck(entities: Entities, registry: Registry, rows: seq<Row>, files: map<Name, seq<Line>>, requireGuards: bool)
      returns (result: CheckResult)
      requires ValidDict(registry)
      modifies this
      ensures failures == old(failures) + DataFailures(entities, registry, rows)
        + if requireGuards then CheckRows(files, registry, rows, |rows|).0 else []
      ensures result ==
        if requireGuards && CheckRows(files, registry, rows, |rows|).1 then Exception
        else if failures == [] then CheckPassed else CheckFailed
    {
      hide VersionFailures, CoverageFailures, CheckRows;
      CheckClusterVersions(entities, registry, rows);
      CheckCoverage(entities, registry);
      var raised := false;
      if requireGuards {
        raised := CheckGuards(files, registry, rows);
      }
      result := if raised then Exception else if failures == [] then CheckPassed else CheckFailed;
    }
  }
}
