/**
 What the version and coverage rules of tools/mpi_version_gate.py say about the tables
 when they report nothing, and what the roster check adds.
 */
module RegistryTheorems {
  import opened Preprocessor
  import opened VersionGate

  // ---- The declared version is the greatest member version ----

  /** `v` is the greatest of 0.0 and the versions of the members that have an entry. */
  ghost predicate GreatestVersion(entities: Entities, members: seq<Name>, v: Version) {
    && !Less(v, ZERO)
    && (forall i :: 0 <= i < |members| && members[i] in entities.values ==> !Less(v, entities.values[members[i]]))
    && (v == ZERO || exists i :: 0 <= i < |members| && members[i] in entities.values && entities.values[members[i]] == v)
  }

  lemma {:induction false} MaxVersionIsGreatest(entities: Entities, members: seq<Name>, k: nat)
    requires k <= |members|
    ensures GreatestVersion(entities, members[..k], MaxVersion(entities, members, k))
  {
    if k > 0 {
      MaxVersionIsGreatest(entities, members, k - 1);
      var shorter, longer := members[..k - 1], members[..k];
      var before := MaxVersion(entities, members, k - 1);
      assert forall i :: 0 <= i < |shorter| ==> longer[i] == shorter[i];
      assert longer[k - 1] == members[k - 1];
      if MaxVersion(entities, members, k) == before && before != ZERO {
        var i :| 0 <= i < |shorter| && shorter[i] in entities.values && entities.values[shorter[i]] == before;
        assert longer[i] in entities.values && entities.values[longer[i]] == before;
      }
    }
  }

  /** The running maximum is the greatest version, and the only one. */
  lemma MaxVersionIff(entities: Entities, members: seq<Name>, v: Version)
    ensures v == MaxVersion(entities, members, |members|) <==> GreatestVersion(entities, members, v)
  {
    MaxVersionIsGreatest(entities, members, |members|);
    assert members[..|members|] == members;
  }

  lemma {:induction false} NoMissingEntriesIff(entities: Entities, cluster: Name, members: seq<Name>, k: nat)
    requires k <= |members|
    ensures MissingEntries(entities, cluster, members, k) == [] <==> forall i :: 0 <= i < k ==> members[i] in entities.values
  {
    if k > 0 {
      NoMissingEntriesIff(entities, cluster, members, k - 1);
    }
  }

  /** A row is in order: its cluster is known, its members all have entries, and it declares their greatest version. */
  ghost predicate RowInOrder(entities: Entities, registry: Registry, row: Row) {
    && row.cluster in registry.values
    && (forall member :: member in registry.values[row.cluster] ==> member in entities.values)
    && GreatestVersion(entities, registry.values[row.cluster], row.declared)
  }

  lemma NoRowFailuresIff(entities: Entities, registry: Registry, row: Row)
    ensures RowVersionFailures(entities, registry, row) == [] <==> RowInOrder(entities, registry, row)
  {
    if row.cluster in registry.values {
      var members := registry.values[row.cluster];
      NoMissingEntriesIff(entities, row.cluster, members, |members|);
      MaxVersionIff(entities, members, row.declared);
    }
  }

  lemma {:induction false} NoVersionFailuresIff(entities: Entities, registry: Registry, rows: seq<Row>, k: nat)
    requires k <= |rows|
    ensures VersionFailures(entities, registry, rows, k) == [] <==>
      forall i :: 0 <= i < k ==> RowInOrder(entities, registry, rows[i])
  {
    if k > 0 {
      NoVersionFailuresIff(entities, registry, rows, k - 1);
      NoRowFailuresIff(entities, registry, rows[k - 1]);
      var before, last := VersionFailures(entities, registry, rows, k - 1), RowVersionFailures(entities, registry, rows[k - 1]);
      assert VersionFailures(entities, registry, rows, k) == before + last;
      hide *;
    }
  }

  // ---- Every entity has exactly one owner ----

  predicate Owns(registry: Registry, cluster: Name, name: Name) {
    cluster in registry.values && name in registry.values[cluster]
  }

  /** Every listed owner is a key of the registry that lists the name. */
  lemma {:induction false} OwnerIsKey(registry: Registry, name: Name, k: nat, i: nat) returns (p: nat)
    requires ValidDict(registry) && k <= |registry.keys| && i < |Owners(registry, name, k)|
    ensures p < k && registry.keys[p] == Owners(registry, name, k)[i] && Owns(registry, registry.keys[p], name)
  {
    if i < |Owners(registry, name, k - 1)| {
      p := OwnerIsKey(registry, name, k - 1, i);
    } else {
      p := k - 1;
    }
  }

  /** Every key of the registry that lists the name is a listed owner. */
  lemma {:induction false} KeyIsOwner(registry: Registry, name: Name, k: nat, p: nat) returns (i: nat)
    requires ValidDict(registry) && p < k <= |registry.keys| && Owns(registry, registry.keys[p], name)
    ensures i < |Owners(registry, name, k)| && Owners(registry, name, k)[i] == registry.keys[p]
  {
    if p < k - 1 {
      i := KeyIsOwner(registry, name, k - 1, p);
    } else {
      i := |Owners(registry, name, k - 1)|;
    }
  }

  /** No owner is listed twice. */
  lemma {:induction false} OwnersDiffer(registry: Registry, name: Name, k: nat, i: nat, j: nat)
    requires ValidDict(registry) && k <= |registry.keys| && i < j < |Owners(registry, name, k)|
    ensures Owners(registry, name, k)[i] != Owners(registry, name, k)[j]
  {
    if j < |Owners(registry, name, k - 1)| {
      OwnersDiffer(registry, name, k - 1, i, j);
    } else {
      var p := OwnerIsKey(registry, name, k - 1, i);
    }
  }

  ghost predicate OwnedOnce(registry: Registry, name: Name) {
    exists cluster :: Owns(registry, cluster, name) && forall other :: Owns(registry, other, name) ==> other == cluster
  }

  lemma OwnsIsKey(registry: Registry, cluster: Name, name: Name) returns (i: nat)
    requires ValidDict(registry) && Owns(registry, cluster, name)
    ensures i < |Owners(registry, name, |registry.keys|)| && Owners(registry, name, |registry.keys|)[i] == cluster
  {
    assert cluster in registry.keys;
    var p :| 0 <= p < |registry.keys| && registry.keys[p] == cluster;
    i := KeyIsOwner(registry, name, |registry.keys|, p);
  }

  lemma SingleOwner(registry: Registry, name: Name)
    requires ValidDict(registry) && |Owners(registry, name, |registry.keys|)| == 1
    ensures OwnedOnce(registry, name)
  {
    var p := OwnerIsKey(registry, name, |registry.keys|, 0);
    forall other | Owns(registry, other, name)
      ensures other == registry.keys[p]
    {
      var i := OwnsIsKey(registry, other, name);
    }
  }

  lemma OwnedOnceIsSingle(registry: Registry, name: Name)
    requires ValidDict(registry) && OwnedOnce(registry, name)
    ensures |Owners(registry, name, |registry.keys|)| == 1
  {
    var cluster :| Owns(registry, cluster, name) && forall other :: Owns(registry, other, name) ==> other == cluster;
    var i := OwnsIsKey(registry, cluster, name);
    if 1 < |Owners(registry, name, |registry.keys|)| {
      var p := OwnerIsKey(registry, name, |registry.keys|, 0);
      var q := OwnerIsKey(registry, name, |registry.keys|, 1);
      OwnersDiffer(registry, name, |registry.keys|, 0, 1);
    }
  }

  lemma NoOwnerFailuresIff(registry: Registry, name: Name)
    requires ValidDict(registry)
    ensures OwnerFailures(registry, name) == [] <==> OwnedOnce(registry, name)
  {
    hide OwnedOnce;
    if OwnedOnce(registry, name) {
      OwnedOnceIsSingle(registry, name);
    } else if |Owners(registry, name, |registry.keys|)| == 1 {
      SingleOwner(registry, name);
    }
  }

  lemma {:induction false} NoCoverageFailuresIff(entities: Entities, registry: Registry, k: nat)
    requires ValidDict(registry) && k <= |entities.keys|
    ensures CoverageFailures(entities, registry, k) == [] <==> forall i :: 0 <= i < k ==> OwnedOnce(registry, entities.keys[i])
  {
    hide OwnedOnce, OwnerFailures, ValidDict;
    if k > 0 {
      NoCoverageFailuresIff(entities, registry, k - 1);
      NoOwnerFailuresIff(registry, entities.keys[k - 1]);
    }
  }

  // ---- The accepted tables ----

  /** The clusters partition the entities: every member is an entity, and every entity is in exactly one cluster. */
  ghost predicate Partitions(registry: Registry, entities: Entities) {
    && (forall cluster, member :: Owns(registry, cluster, member) ==> member in entities.values)
    && (forall name :: name in entities.values ==> OwnedOnce(registry, name))
  }

  ghost predicate EveryClusterListed(registry: Registry, rows: seq<Row>) {
    forall cluster :: cluster in registry.values ==> exists i :: 0 <= i < |rows| && rows[i].cluster == cluster
  }

  /**
   With every cluster listed, the data check passes if and only if the clusters partition the
   versioned entities, and every row names a known cluster and declares the greatest version
   of its members.
   */
  lemma CheckPassesIff(entities: Entities, registry: Registry, rows: seq<Row>)
    requires ValidDict(entities) && ValidDict(registry) && EveryClusterListed(registry, rows)
    ensures DataFailures(entities, registry, rows) == [] <==>
      && Partitions(registry, entities)
      && forall i :: 0 <= i < |rows| ==>
           rows[i].cluster in registry.values && GreatestVersion(entities, registry.values[rows[i].cluster], rows[i].declared)
  {
    hide OwnedOnce, GreatestVersion, VersionFailures, CoverageFailures, ValidDict, EveryClusterListed;
    NoVersionFailuresIff(entities, registry, rows, |rows|);
    NoCoverageFailuresIff(entities, registry, |entities.keys|);
    CoveredIff(entities, registry);
    if forall i :: 0 <= i < |rows| ==> RowInOrder(entities, registry, rows[i]) {
      MembersAreEntities(entities, registry, rows);
    }
    if Partitions(registry, entities) {
      PartitionGivesEntries(entities, registry);
    }
  }

  lemma CoveredIff(entities: Entities, registry: Registry)
    requires ValidDict(entities)
    ensures (forall i :: 0 <= i < |entities.keys| ==> OwnedOnce(registry, entities.keys[i])) <==>
      forall name :: name in entities.values ==> OwnedOnce(registry, name)
  {
  }

  lemma MembersAreEntities(entities: Entities, registry: Registry, rows: seq<Row>)
    requires EveryClusterListed(registry, rows)
    requires forall i :: 0 <= i < |rows| ==> RowInOrder(entities, registry, rows[i])
    ensures forall cluster, member :: Owns(registry, cluster, member) ==> member in entities.values
  {
  }

  lemma PartitionGivesEntries(entities: Entities, registry: Registry)
    requires Partitions(registry, entities)
    ensures forall cluster, member :: cluster in registry.values && member in registry.values[cluster] ==> member in entities.values
  {
    forall cluster, member | cluster in registry.values && member in registry.values[cluster]
      ensures member in entities.values
    {
      assert Owns(registry, cluster, member);
    }
  }

  // ---- The roster check ----

  /** How `mpi3` ends; with an empty roster its percentage divides by zero. */
  datatype RosterResult = Passed | Failed(missing: set<Name>, stray: set<Name>) | DividedByZero

  function Gated(registry: Registry): set<Name> {
    set cluster, member | cluster in registry.values && member in registry.values[cluster] :: member
  }

  /** The functions introduced by MPI-3.0 and MPI-3.1. */
  function Canonical(entities: Entities): set<Name> {
    set name | name in entities.values && entities.values[name] in {Version(3, 0), Version(3, 1)}
  }

  function CheckMpi3(entities: Entities, registry: Registry, fields: set<Name>): RosterResult {
    var canonical := Canonical(entities);
    var stray, missing := Gated(registry) - canonical, canonical - fields;
    if |canonical| == 0 then DividedByZero
    else if missing != {} || stray != {} then Failed(missing, stray)
    else Passed
  }

  /** The name was introduced by MPI-3.0 or MPI-3.1. */
  predicate InRoster(entities: Entities, name: Name) {
    name in entities.values && (entities.values[name] == Version(3, 0) || entities.values[name] == Version(3, 1))
  }

  lemma NothingLeftIff(a: set<Name>, b: set<Name>)
    ensures a - b == {} <==> forall name :: name in a ==> name in b
  {
    forall name | name in a && a - b == {}
      ensures name in b
    {
      assert name !in a - b;
    }
  }

  /** The roster check reports exactly the roster names that are no field, and the members of any cluster outside the roster. */
  lemma CheckMpi3Iff(entities: Entities, registry: Registry, fields: set<Name>)
    ensures var r := CheckMpi3(entities, registry, fields);
      && (r == DividedByZero <==> forall name :: !InRoster(entities, name))
      && (r == Passed <==>
            && (exists name :: InRoster(entities, name))
            && (forall name :: InRoster(entities, name) ==> name in fields)
            && (forall cluster, member :: Owns(registry, cluster, member) ==> InRoster(entities, member)))
      && (r.Failed? ==>
            && (forall name :: name in r.missing <==> InRoster(entities, name) && name !in fields)
            && (forall name :: name in r.stray <==> !InRoster(entities, name) && exists cluster :: Owns(registry, cluster, name)))
  {
    var canonical := Canonical(entities);
    assert forall name :: name in canonical <==> InRoster(entities, name);
    assert forall cluster, member :: Owns(registry, cluster, member) ==> member in Gated(registry);
    forall name | name in Gated(registry)
      ensures exists cluster :: Owns(registry, cluster, name)
    {
      var cluster :| cluster in registry.values && name in registry.values[cluster];
      assert Owns(registry, cluster, name);
    }
    hide Canonical, Gated, InRoster, Owns;
    assert canonical != {} <==> exists name :: name in canonical;
    NothingLeftIff(canonical, fields);
    NothingLeftIff(Gated(registry), canonical);
  }

  /**
   On tables that pass the data check and version every entity 3.0 or 3.1, the gated members are
   exactly the roster, so the roster check passes iff the roster is not empty and every
   versioned entity is a field.
   */
  lemma RosterAfterCheck(entities: Entities, registry: Registry, fields: set<Name>)
    requires Partitions(registry, entities)
    requires forall name :: name in entities.values ==> entities.values[name] in {Version(3, 0), Version(3, 1)}
    ensures Gated(registry) == Canonical(entities) == entities.values.Keys
    ensures CheckMpi3(entities, registry, fields) == Passed <==> entities.values.Keys != {} && entities.values.Keys <= fields
  {
    forall name | name in entities.values
      ensures name in Gated(registry)
    {
      assert OwnedOnce(registry, name);
      var cluster :| Owns(registry, cluster, name);
    }
    forall name | name in Gated(registry)
      ensures name in entities.values
    {
      var cluster :| cluster in registry.values && name in registry.values[cluster];
      assert Owns(registry, cluster, name);
    }
    assert Canonical(entities) == entities.values.Keys;
  }
}
