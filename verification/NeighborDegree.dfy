/**
 The degree query that sizes the type arrays of the neighbour collectives, and the
 wrapper around it. Every answer of the backend is a parameter: a dispatch slot may be
 null, the call may return an error code, or it may answer.
 */
module NeighborDegree {
  import opened Options
  import opened HandleWords
  import opened HandleAdapters
  import opened TypeArrayPairs
  import opened CartesianGrid

  const MPI_ERR_TOPOLOGY := 10
  const MPI_ERR_NO_MEM := 34

  type ErrorCode = x: int | x != MPI_SUCCESS witness 1

  datatype Query<T> = NullSlot | Failed(rc: ErrorCode) | Answer(value: T)

  datatype TopologyKind = Cart | Graph | Other

  /** The neighbours of a process in a distributed graph: those it receives from, and those it sends to. */
  datatype DistGraphCount = DistGraphCount(sources: int, destinations: int)

  datatype CartInfo = CartInfo(dims: seq<int>, periods: seq<bool>, coords: seq<int>)

  /** What the backend answers about one communicator. */
  datatype Topology = Topology(
    topoTest: Query<TopologyKind>,
    cartdimGet: Query<int>,
    cartGet: Query<CartInfo>,
    graphdimsGet: Query<int>,
    graphGet: Query<seq<int>>,
    commRank: Query<int>,
    distGraphCount: Query<DistGraphCount>,
    outOfMemory: bool)

  /** The backend fills the arrays it is handed, and reports a rank of the communicator. */
  ghost predicate Consistent(t: Topology) {
    && (t.cartdimGet.Answer? && t.cartGet.Answer? ==>
          var info := t.cartGet.value; |info.dims| == |info.periods| == |info.coords| == if t.cartdimGet.value < 0 then 0 else t.cartdimGet.value)
    && (t.graphdimsGet.Answer? && t.graphGet.Answer? ==>
          |t.graphGet.value| == if t.graphdimsGet.value < 0 then 0 else t.graphdimsGet.value)
    && (t.graphGet.Answer? && t.commRank.Answer? ==> 0 <= t.commRank.value < |t.graphGet.value|)
  }

  // ---- Graph topologies ----

  /** A graph's index array holds running totals; a node's degree is the step it makes. */
  function GraphDegree(index: seq<int>, rank: nat): int
    requires rank < |index|
  {
    if rank == 0 then index[0] else index[rank] - index[rank - 1]
  }

  function GraphDegreeSum(index: seq<int>, k: nat): int
    requires k <= |index|
  {
    if k == 0 then 0 else GraphDegreeSum(index, k - 1) + GraphDegree(index, k - 1)
  }

  /** The degrees of the first k nodes add up to the running total there. */
  lemma {:induction false} GraphDegreesTelescope(index: seq<int>, k: nat)
    requires 0 < k <= |index|
    ensures GraphDegreeSum(index, k) == index[k - 1]
  {
    if k > 1 {
      GraphDegreesTelescope(index, k - 1);
    }
  }

  ghost predicate Nondecreasing(index: seq<int>) {
    forall i, j :: 0 <= i <= j < |index| ==> index[i] <= index[j]
  }

  lemma {:induction false} StepsMakeNondecreasing(index: seq<int>, i: nat, j: nat)
    requires i <= j < |index| && forall rank: nat :: rank < |index| ==> 0 <= GraphDegree(index, rank)
    ensures index[i] <= index[j]
    decreases j - i
  {
    if i < j {
      StepsMakeNondecreasing(index, i, j - 1);
      assert 0 <= GraphDegree(index, j);
    }
  }

  /** No degree is negative exactly when the totals start at or above zero and never decrease. */
  lemma GraphDegreesNonNegativeIff(index: seq<int>)
    ensures (forall rank: nat :: rank < |index| ==> 0 <= GraphDegree(index, rank)) <==>
      Nondecreasing(index) && (index != [] ==> 0 <= index[0])
  {
    if forall rank: nat :: rank < |index| ==> 0 <= GraphDegree(index, rank) {
      forall i, j | 0 <= i <= j < |index|
        ensures index[i] <= index[j]
      {
        StepsMakeNondecreasing(index, i, j);
      }
      assert index != [] ==> 0 <= GraphDegree(index, 0);
    }
  }

  // ---- The query ----

  datatype Degrees = Degrees(rc: int, indegree: int, outdegree: int)

  /** Out-parameters that an error leaves as the callers initialised them. */
  function Refused(rc: int): Degrees {
    Degrees(rc, 0, 0)
  }

  function CartDegrees(t: Topology): Degrees
    requires Consistent(t)
  {
    if t.cartdimGet.NullSlot? || t.cartGet.NullSlot? then Refused(MPI_ERR_TOPOLOGY)
    else if t.cartdimGet.Failed? then Refused(t.cartdimGet.rc)
    else if t.cartdimGet.value <= 0 then Degrees(MPI_SUCCESS, 0, 0)
    else if t.outOfMemory then Refused(MPI_ERR_NO_MEM)
    else if t.cartGet.Failed? then Refused(t.cartGet.rc)
    else
      var info := t.cartGet.value;
      var deg := CartDegree(info.dims, info.periods, info.coords, |info.dims|);
      Degrees(MPI_SUCCESS, deg, deg)
  }

  function GraphDegrees(t: Topology): Degrees
    requires Consistent(t)
  {
    if t.graphdimsGet.NullSlot? || t.graphGet.NullSlot? || t.commRank.NullSlot? then Refused(MPI_ERR_TOPOLOGY)
    else if t.graphdimsGet.Failed? then Refused(t.graphdimsGet.rc)
    else if t.outOfMemory then Refused(MPI_ERR_NO_MEM)
    else if t.graphGet.Failed? then Refused(t.graphGet.rc)
    else if t.commRank.Failed? then Refused(t.commRank.rc)
    else
      var deg := GraphDegree(t.graphGet.value, t.commRank.value);
      Degrees(MPI_SUCCESS, deg, deg)
  }

  function QueryDegrees(t: Topology): Degrees
    requires Consistent(t)
  {
    match t.topoTest
    case NullSlot => Refused(MPI_ERR_TOPOLOGY)
    case Failed(rc) => Refused(rc)
    case Answer(Cart) => CartDegrees(t)
    case Answer(Graph) => GraphDegrees(t)
    case Answer(Other) =>
      match t.distGraphCount
      case NullSlot => Refused(MPI_ERR_TOPOLOGY)
      case Failed(rc) => Refused(rc)
      case Answer(count) => Degrees(MPI_SUCCESS, count.sources, count.destinations)
  }

  method NeighborDegree(t: Topology) returns (rc: int, indegree: int, outdegree: int)
    requires Consistent(t)
    ensures Degrees(rc, indegree, outdegree) == QueryDegrees(t)
  {
    rc, indegree, outdegree := MPI_SUCCESS, 0, 0;
    if t.topoTest.NullSlot? {
      return MPI_ERR_TOPOLOGY, 0, 0;
    }
    if t.topoTest.Failed? {
      return t.topoTest.rc, 0, 0;
    }
    if t.topoTest.value == Cart {
      if t.cartdimGet.NullSlot? || t.cartGet.NullSlot? {
        return MPI_ERR_TOPOLOGY, 0, 0;
      }
      if t.cartdimGet.Failed? {
        return t.cartdimGet.rc, 0, 0;
      }
      if t.cartdimGet.value <= 0 {
        return MPI_SUCCESS, 0, 0;
      }
      if t.outOfMemory {
        return MPI_ERR_NO_MEM, 0, 0;
      }
      if t.cartGet.Failed? {
        return t.cartGet.rc, 0, 0;
      }
      var info := t.cartGet.value;
      indegree := CountCartNeighbors(info.dims, info.periods, info.coords);
      outdegree := indegree;
      return;
    }
    if t.topoTest.value == Graph {
      if t.graphdimsGet.NullSlot? || t.graphGet.NullSlot? || t.commRank.NullSlot? {
        return MPI_ERR_TOPOLOGY, 0, 0;
      }
      if t.graphdimsGet.Failed? {
        return t.graphdimsGet.rc, 0, 0;
      }
      if t.outOfMemory {
        return MPI_ERR_NO_MEM, 0, 0;
      }
      if t.graphGet.Failed? {
        return t.graphGet.rc, 0, 0;
      }
      if t.commRank.Failed? {
        return t.commRank.rc, 0, 0;
      }
      var index, rank := t.graphGet.value, t.commRank.value;
      indegree := if rank == 0 then index[0] else index[rank] - index[rank - 1];
      outdegree := indegree;
      return;
    }
    if t.distGraphCount.NullSlot? {
      return MPI_ERR_TOPOLOGY, 0, 0;
    }
    if t.distGraphCount.Failed? {
      return t.distGraphCount.rc, 0, 0;
    }
    indegree, outdegree := t.distGraphCount.value.sources, t.distGraphCount.value.destinations;
  }

  // ---- What the degrees count ----

  /** The process lies on the grid whose extents the backend reports. */
  ghost predicate LiesOnGrid(t: Topology) {
    t.cartdimGet.Answer? && t.cartGet.Answer? && 0 < t.cartdimGet.value ==> OnGrid(t.cartGet.value.dims, t.cartGet.value.coords)
  }

  /** The arrivals and departures of the process's grid point; a grid of no dimensions has none. */
  ghost predicate CartNeighbors(t: Topology, receives: int, sends: int)
    requires Consistent(t) && t.cartdimGet.Answer?
  {
    if t.cartdimGet.value <= 0 then receives == sends == 0
    else
      t.cartGet.Answer? &&
      var info := t.cartGet.value;
      receives == |Arrivals(info.dims, info.periods, info.coords)| &&
      sends == |HalfEdges(info.dims, info.periods, info.coords, |info.dims|)|
  }

  /**
   How many neighbours a process receives from and sends to: the arrivals and departures of
   its grid point, the edges of its graph node, or the sources and destinations of a distributed graph.
   */
  ghost predicate HasNeighbors(t: Topology, receives: int, sends: int)
    requires Consistent(t)
  {
    t.topoTest.Answer? &&
    match t.topoTest.value
    case Cart =>
      t.cartdimGet.Answer? && CartNeighbors(t, receives, sends)
    case Graph =>
      t.graphGet.Answer? && t.commRank.Answer? &&
      var index, rank := t.graphGet.value, t.commRank.value;
      receives == sends == index[rank] - if rank == 0 then 0 else index[rank - 1]
    case Other =>
      t.distGraphCount == Answer(DistGraphCount(receives, sends))
  }

  /** A query that succeeds answers with exactly these numbers, for every kind of topology. */
  lemma DegreesCountNeighbors(t: Topology, receives: int, sends: int)
    requires Consistent(t) && LiesOnGrid(t) && QueryDegrees(t).rc == MPI_SUCCESS
    ensures HasNeighbors(t, receives, sends) <==> QueryDegrees(t) == Degrees(MPI_SUCCESS, receives, sends)
  {
    if t.topoTest.value == Cart && 0 < t.cartdimGet.value {
      var info := t.cartGet.value;
      InEqualsOut(info.dims, info.periods, info.coords);
      DegreeCountsHalfEdges(info.dims, info.periods, info.coords, |info.dims|);
    }
  }

  function MissingSlot(missing: bool): Option<int> {
    if missing then Some(MPI_ERR_TOPOLOGY) else None
  }

  function CodeOf<T>(query: Query<T>): Option<int> {
    if query.Failed? then Some(query.rc) else None
  }

  function NoMemory(t: Topology): Option<int> {
    if t.outOfMemory then Some(MPI_ERR_NO_MEM) else None
  }

  /** What may refuse the query, in the order in which it is met; a grid of no dimensions is not asked about further. */
  function Refusals(t: Topology): seq<Option<int>> {
    match t.topoTest
    case NullSlot => [MissingSlot(true)]
    case Failed(rc) => [Some(rc)]
    case Answer(Cart) =>
      var asked := !(t.cartdimGet.Answer? && t.cartdimGet.value <= 0);
      [MissingSlot(t.cartdimGet.NullSlot? || t.cartGet.NullSlot?), CodeOf(t.cartdimGet),
       if asked then NoMemory(t) else None, if asked then CodeOf(t.cartGet) else None]
    case Answer(Graph) =>
      [MissingSlot(t.graphdimsGet.NullSlot? || t.graphGet.NullSlot? || t.commRank.NullSlot?),
       CodeOf(t.graphdimsGet), NoMemory(t), CodeOf(t.graphGet), CodeOf(t.commRank)]
    case Answer(Other) => [MissingSlot(t.distGraphCount.NullSlot?), CodeOf(t.distGraphCount)]
  }

  /** `code` is the first refusal of the list, or success if there is none. */
  ghost predicate FirstRefusal(refusals: seq<Option<int>>, code: int) {
    || (code == MPI_SUCCESS && forall i :: 0 <= i < |refusals| ==> refusals[i] == None)
    || (exists i :: 0 <= i < |refusals| && refusals[i] == Some(code) && forall j :: 0 <= j < i ==> refusals[j] == None)
  }

  /** The query returns the code of the first thing that refuses it, and both degrees are then zero. */
  lemma QueryCodeIsFirstRefusal(t: Topology)
    requires Consistent(t)
    ensures FirstRefusal(Refusals(t), QueryDegrees(t).rc)
    ensures QueryDegrees(t).rc != MPI_SUCCESS ==> QueryDegrees(t) == Refused(QueryDegrees(t).rc)
  {
    var refusals := Refusals(t);
    assert refusals[0].Some? ==> refusals[0] == Some(QueryDegrees(t).rc);
    if 1 < |refusals| && refusals[0] == None {
      assert refusals[1].Some? ==> refusals[1] == Some(QueryDegrees(t).rc);
      if 2 < |refusals| && refusals[1] == None {
        assert refusals[2].Some? ==> refusals[2] == Some(QueryDegrees(t).rc);
        if refusals[2] == None {
          assert refusals[3].Some? ==> refusals[3] == Some(QueryDegrees(t).rc);
          if 4 < |refusals| && refusals[3] == None {
            assert refusals[4].Some? ==> refusals[4] == Some(QueryDegrees(t).rc);
          }
        }
      }
    }
  }

  // ---- The neighbour collectives ----

  /** Query the degrees, then adapt both type arrays; a refused query touches no memory. */
  method WrapNeighborTypes(mem: array<Int32>, sb: nat, rb: nat, t: Topology, native: (seq<Int32>, seq<Int32>) -> int)
    returns (ret: int)
    requires Consistent(t)
    requires var q := QueryDegrees(t); q.rc == MPI_SUCCESS ==> FitBoth(mem[..], sb, q.outdegree, rb, q.indegree)
    modifies mem
    ensures QueryDegrees(t).rc != MPI_SUCCESS ==> ret == QueryDegrees(t).rc && mem[..] == old(mem[..])
    ensures var q := QueryDegrees(t); q.rc == MPI_SUCCESS ==>
      && (var seen := old(CompressedPair(mem[..], sb, q.outdegree, rb, q.indegree));
          ret == native(NativeView(seen, sb, q.outdegree), NativeView(seen, rb, q.indegree)))
      && mem[..] == old(AfterPair(mem[..], sb, q.outdegree, rb, q.indegree))
  {
    var rc, indegree, outdegree := NeighborDegree(t);
    if rc != MPI_SUCCESS {
      return rc;
    }
    ret := WrapTypePair(mem, sb, outdegree, rb, indegree, native);
  }

  /**
   The native call of a neighbour collective sees exactly one type for every neighbour the
   process sends to and one for every neighbour it receives from, and canonical arrays end
   unchanged, provided the two arrays do not overlap.
   */
  lemma NeighborTypesSeen(t: Topology, s: seq<Int32>, sb: nat, rb: nat, receives: int, sends: int)
    requires Consistent(t) && LiesOnGrid(t) && QueryDegrees(t).rc == MPI_SUCCESS && HasNeighbors(t, receives, sends)
    requires FitBoth(s, sb, sends, rb, receives) && Disjoint(sb, sends, rb, receives)
    ensures var q := QueryDegrees(t);
      && q.outdegree == sends && q.indegree == receives
      && (var seen := CompressedPair(s, sb, q.outdegree, rb, q.indegree);
          && NativeView(seen, sb, q.outdegree) == LowWords(s, sb, sends)
          && NativeView(seen, rb, q.indegree) == LowWords(s, rb, receives))
      && (Canonical(s, sb, sends) && Canonical(s, rb, receives) ==> AfterPair(s, sb, q.outdegree, rb, q.indegree) == s)
  {
    DegreesCountNeighbors(t, receives, sends);
    DisjointViews(s, sb, sends, rb, receives);
    if Canonical(s, sb, sends) && Canonical(s, rb, receives) {
      DisjointIsFaithful(s, sb, sends, rb, receives);
    }
  }

  /** A native call that reads `wanted` types sees all of them right after `deg` were compressed. */
  ghost predicate AllTypesRight(s: seq<Int32>, base: nat, deg: nat, wanted: nat)
    requires Fits(s, base, wanted)
  {
    Fits(s, base, deg) && NativeView(Compressed(s, base, deg), base, wanted) == LowWords(s, base, wanted)
  }

  lemma TooFewCompressed(len: nat, base: nat, deg: nat, wanted: nat) returns (special: nat)
    requires 2 <= wanted && deg < wanted && 2 * (base + wanted) <= len
    ensures !AllTypesRight(Marked(len, special), base, deg, wanted)
  {
    var i := if deg == 0 then 1 else deg;
    special := base + i;
    LowWordsAt(Marked(len, special), base, wanted, i);
    assert Compressed(Marked(len, special), base, deg)[2 * base + i] == 0;
  }

  lemma EnoughCompressed(s: seq<Int32>, base: nat, deg: nat, wanted: nat)
    requires Fits(s, base, deg) && Fits(s, base, wanted) && (wanted <= deg || wanted <= 1)
    ensures AllTypesRight(s, base, deg, wanted)
  {
    forall i: nat | i < wanted
      ensures NativeView(Compressed(s, base, deg), base, wanted)[i] == LowWords(s, base, wanted)[i]
    {
      LowWordsAt(s, base, wanted, i);
    }
  }

  /**
   Every canonical content is read right iff at least as many handles are compressed as the call
   reads; one handle needs no compressing, because its low word is in place.
   */
  lemma AllTypesRightIff(len: nat, base: nat, deg: nat, wanted: nat)
    requires 2 * (base + deg) <= len && 2 * (base + wanted) <= len
    ensures wanted <= deg || wanted <= 1 <==>
      forall s: seq<Int32> :: |s| == len && Canonical(s, base, wanted) ==> AllTypesRight(s, base, deg, wanted)
  {
    if wanted <= deg || wanted <= 1 {
      forall s: seq<Int32> | |s| == len
        ensures AllTypesRight(s, base, deg, wanted)
      {
        EnoughCompressed(s, base, deg, wanted);
      }
    } else {
      var special := TooFewCompressed(len, base, deg, wanted);
      MarkedCanonical(len, special, base, wanted);
      assert |Marked(len, special)| == len;
    }
  }

  /**
   Section 7.6 of MPI-3.1 gives a Cartesian neighbour collective two types per dimension on
   every process. With the computed degree, a native call that reads that many sees all of
   them right, whatever they are, exactly where no dimension is 1-wide or at a border.
   */
  lemma TwoTypesPerDimensionRightIff(len: nat, base: nat, dims: seq<int>, periods: seq<bool>, coords: seq<int>)
    requires 0 < |dims| == |periods| == |coords| && 2 * (base + 2 * |dims|) <= len
    ensures (forall i :: 0 <= i < |dims| ==> Interior(dims[i], periods[i], coords[i])) <==>
      var deg := CartDegree(dims, periods, coords, |dims|);
      forall s: seq<Int32> :: |s| == len && Canonical(s, base, 2 * |dims|) ==> AllTypesRight(s, base, deg, 2 * |dims|)
  {
    DegreeBounds(dims, periods, coords, |dims|);
    AllTypesRightIff(len, base, CartDegree(dims, periods, coords, |dims|), 2 * |dims|);
  }
}
