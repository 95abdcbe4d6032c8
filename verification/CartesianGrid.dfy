/**
 The neighbour count that src/backends/mpich_wrappers.c computes for a Cartesian
 communicator, against the grid graph it stands for: a half-edge (coords, dimension,
 direction) for every neighbour, and the handshake sum over the whole grid.
 */
module CartesianGrid {

  datatype Direction = Down | Up {
    function Opposite(): Direction {
      if this == Down then Up else Down
    }
  }

  predicate OnGrid(dims: seq<int>, coords: seq<int>) {
    |coords| == |dims| && forall i :: 0 <= i < |dims| ==> 0 <= coords[i] < dims[i]
  }

  /** The neighbours counted in one dimension: none in a 1-wide one, no far side off a boundary. */
  function DegreeAt(d: int, periodic: bool, c: int): nat {
    if d <= 1 then 0
    else if periodic then 2
    else (if c > 0 then 1 else 0) + (if c < d - 1 then 1 else 0)
  }

  /** The neighbours counted in the first k dimensions. */
  function CartDegree(dims: seq<int>, periods: seq<bool>, coords: seq<int>, k: nat): nat
    requires k <= |dims| == |periods| && k <= |coords|
  {
    if k == 0 then 0
    else CartDegree(dims, periods, coords, k - 1) + DegreeAt(dims[k - 1], periods[k - 1], coords[k - 1])
  }

  method CountCartNeighbors(dims: seq<int>, periods: seq<bool>, coords: seq<int>) returns (deg: nat)
    requires |dims| == |periods| == |coords|
    ensures deg == CartDegree(dims, periods, coords, |dims|)
  {
    deg := 0;
    for i := 0 to |dims|
      invariant deg == CartDegree(dims, periods, coords, i)
    {
      if dims[i] <= 1 {
        continue;
      }
      if periods[i] {
        deg := deg + 2;
      } else {
        if coords[i] > 0 {
          deg := deg + 1;
        }
        if coords[i] < dims[i] - 1 {
          deg := deg + 1;
        }
      }
    }
  }

  // ---- The grid graph ----

  predicate HasNeighbor(dims: seq<int>, periods: seq<bool>, coords: seq<int>, i: nat, dir: Direction)
    requires |dims| == |periods| == |coords| && i < |dims|
  {
    dims[i] > 1 && (periods[i] || (if dir == Up then coords[i] < dims[i] - 1 else coords[i] > 0))
  }

  /** One step along a dimension, wrapping around at the border. */
  function Neighbor(dims: seq<int>, coords: seq<int>, i: nat, dir: Direction): (r: seq<int>)
    requires |dims| == |coords| && i < |dims|
    ensures |r| == |coords|
  {
    var c, d := coords[i], dims[i];
    coords[i := if dir == Up then (if c == d - 1 then 0 else c + 1) else (if c == 0 then d - 1 else c - 1)]
  }

  /** The half-edges that leave a grid point along its first k dimensions. */
  function HalfEdges(dims: seq<int>, periods: seq<bool>, coords: seq<int>, k: nat): set<(nat, Direction)>
    requires k <= |dims| == |periods| == |coords|
  {
    set i: nat, dir | i < k && dir in {Down, Up} && HasNeighbor(dims, periods, coords, i, dir) :: (i, dir)
  }

  function HalfEdge(dims: seq<int>, periods: seq<bool>, coords: seq<int>, i: nat, dir: Direction): set<(nat, Direction)>
    requires |dims| == |periods| == |coords| && i < |dims|
  {
    if HasNeighbor(dims, periods, coords, i, dir) then {(i, dir)} else {}
  }

  lemma HalfEdgesStep(dims: seq<int>, periods: seq<bool>, coords: seq<int>, i: nat)
    requires i < |dims| == |periods| == |coords|
    ensures HalfEdges(dims, periods, coords, i + 1) ==
      HalfEdges(dims, periods, coords, i) + HalfEdge(dims, periods, coords, i, Down) + HalfEdge(dims, periods, coords, i, Up)
  {
  }

  /** The computed degree is the number of half-edges that leave the point. */
  lemma {:induction false} DegreeCountsHalfEdges(dims: seq<int>, periods: seq<bool>, coords: seq<int>, k: nat)
    requires k <= |dims| == |periods| == |coords|
    ensures |HalfEdges(dims, periods, coords, k)| == CartDegree(dims, periods, coords, k)
  {
    if k == 0 {
      assert HalfEdges(dims, periods, coords, 0) == {};
    } else {
      DegreeCountsHalfEdges(dims, periods, coords, k - 1);
      HalfEdgesStep(dims, periods, coords, k - 1);
    }
  }

  /** Every half-edge pairs with the opposite half-edge of the neighbour it leads to. */
  lemma HalfEdgePairs(dims: seq<int>, periods: seq<bool>, coords: seq<int>, i: nat, dir: Direction)
    requires |dims| == |periods| && OnGrid(dims, coords) && i < |dims|
    requires HasNeighbor(dims, periods, coords, i, dir)
    ensures var there := Neighbor(dims, coords, i, dir);
      && OnGrid(dims, there) && there != coords
      && HasNeighbor(dims, periods, there, i, dir.Opposite())
      && Neighbor(dims, there, i, dir.Opposite()) == coords
  {
  }

  /** The half-edges that arrive at a grid point, each with the point it comes from. */
  function Arrivals(dims: seq<int>, periods: seq<bool>, coords: seq<int>): set<(seq<int>, nat, Direction)>
    requires |dims| == |periods| == |coords|
  {
    set e | e in HalfEdges(dims, periods, coords, |dims|) :: (Neighbor(dims, coords, e.0, e.1), e.0, e.1.Opposite())
  }

  /** `Arrivals` is what its name says: exactly the half-edges of grid points that lead here. */
  lemma ArrivalsLeadHere(dims: seq<int>, periods: seq<bool>, coords: seq<int>, from: seq<int>, i: nat, dir: Direction)
    requires |dims| == |periods| && OnGrid(dims, coords) && i < |dims|
    ensures (from, i, dir) in Arrivals(dims, periods, coords) <==>
      OnGrid(dims, from) && HasNeighbor(dims, periods, from, i, dir) && Neighbor(dims, from, i, dir) == coords
  {
    if (from, i, dir) in Arrivals(dims, periods, coords) {
      HalfEdgePairs(dims, periods, coords, i, dir.Opposite());
    }
    if OnGrid(dims, from) && HasNeighbor(dims, periods, from, i, dir) && Neighbor(dims, from, i, dir) == coords {
      HalfEdgePairs(dims, periods, from, i, dir);
      assert (i, dir.Opposite()) in HalfEdges(dims, periods, coords, |dims|);
    }
  }

  /** An injective image has as many elements as the set it comes from. */
  lemma {:induction false} ImageSize(dims: seq<int>, coords: seq<int>, es: set<(nat, Direction)>)
    requires |dims| == |coords| && forall e :: e in es ==> e.0 < |dims|
    ensures |set e | e in es :: (Neighbor(dims, coords, e.0, e.1), e.0, e.1.Opposite())| == |es|
    decreases |es|
  {
    var image := set e | e in es :: (Neighbor(dims, coords, e.0, e.1), e.0, e.1.Opposite());
    if es == {} {
      assert image == {};
    } else {
      var e :| e in es;
      var rest := es - {e};
      ImageSize(dims, coords, rest);
      var restImage := set x | x in rest :: (Neighbor(dims, coords, x.0, x.1), x.0, x.1.Opposite());
      assert image == restImage + {(Neighbor(dims, coords, e.0, e.1), e.0, e.1.Opposite())};
    }
  }

  /** In-degree equals out-degree at every grid point, which is why one count serves both. */
  lemma InEqualsOut(dims: seq<int>, periods: seq<bool>, coords: seq<int>)
    requires |dims| == |periods| && OnGrid(dims, coords)
    ensures |Arrivals(dims, periods, coords)| == CartDegree(dims, periods, coords, |dims|)
  {
    DegreeCountsHalfEdges(dims, periods, coords, |dims|);
    ImageSize(dims, coords, HalfEdges(dims, periods, coords, |dims|));
  }

  // ---- Bounds ----

  predicate Interior(d: int, periodic: bool, c: int) {
    d > 1 && (periodic || 0 < c < d - 1)
  }

  /** At most two neighbours a dimension, and exactly two everywhere iff no dimension is 1-wide or at a border. */
  lemma {:induction false} DegreeBounds(dims: seq<int>, periods: seq<bool>, coords: seq<int>, k: nat)
    requires k <= |dims| == |periods| == |coords|
    ensures CartDegree(dims, periods, coords, k) <= 2 * k
    ensures CartDegree(dims, periods, coords, k) == 2 * k <==>
      forall i :: 0 <= i < k ==> Interior(dims[i], periods[i], coords[i])
  {
    if k > 0 {
      DegreeBounds(dims, periods, coords, k - 1);
      assert DegreeAt(dims[k - 1], periods[k - 1], coords[k - 1]) == 2 <==> Interior(dims[k - 1], periods[k - 1], coords[k - 1]);
    }
  }

  // ---- The handshake sum ----

  /** The sum of the degrees of all grid points whose first coordinates are `prefix`. */
  function DegreeSum(dims: seq<int>, periods: seq<bool>, prefix: seq<int>): nat
    requires |prefix| <= |dims| == |periods|
    decreases |dims| - |prefix|, 1, 0
  {
    if |prefix| == |dims| then CartDegree(dims, periods, prefix, |dims|)
    else AxisSum(dims, periods, prefix, dims[|prefix|])
  }

  /** The same sum over the points whose next coordinate is below k. */
  function AxisSum(dims: seq<int>, periods: seq<bool>, prefix: seq<int>, k: int): nat
    requires |prefix| < |dims| == |periods|
    decreases |dims| - |prefix|, 0, k
  {
    if k <= 0 then 0
    else AxisSum(dims, periods, prefix, k - 1) + DegreeSum(dims, periods, prefix + [k - 1])
  }

  /** The product of the dimensions from the j-th on. */
  function Volume(dims: seq<int>, j: nat): int
    requires j <= |dims|
    decreases |dims| - j
  {
    if j == |dims| then 1 else dims[j] * Volume(dims, j + 1)
  }

  /** The product of the first j dimensions. */
  function VolumeTo(dims: seq<int>, j: nat): int
    requires j <= |dims|
  {
    if j == 0 then 1 else VolumeTo(dims, j - 1) * dims[j - 1]
  }

  /** The number of half-edges along one line of d points. */
  function LineWeight(d: int, periodic: bool): int {
    if d <= 1 then 0 else if periodic then 2 * d else 2 * (d - 1)
  }

  /** The sum over the first j dimensions of (product of the other dimensions) * (half-edges of a line). */
  function Handshake(dims: seq<int>, periods: seq<bool>, j: nat): int
    requires j <= |dims| == |periods|
  {
    if j == 0 then 0
    else Handshake(dims, periods, j - 1)
         + VolumeTo(dims, j - 1) * Volume(dims, j) * LineWeight(dims[j - 1], periods[j - 1])
  }

  /** The half-edges along the dimensions from the j-th on, with the first coordinates fixed. */
  function TailWeight(dims: seq<int>, periods: seq<bool>, j: nat): int
    requires j <= |dims| == |periods|
    decreases |dims| - j
  {
    if j == |dims| then 0
    else LineWeight(dims[j], periods[j]) * Volume(dims, j + 1) + dims[j] * TailWeight(dims, periods, j + 1)
  }

  /** The degrees of the first k points of a line. */
  function LineSum(d: int, periodic: bool, k: nat): nat {
    if k == 0 then 0 else LineSum(d, periodic, k - 1) + DegreeAt(d, periodic, k - 1)
  }

  lemma {:induction false} LineSumClosed(d: int, periodic: bool, k: nat)
    requires k <= d
    ensures d <= 1 ==> LineSum(d, periodic, k) == 0
    ensures d > 1 && periodic ==> LineSum(d, periodic, k) == 2 * k
    ensures d > 1 && !periodic ==>
      LineSum(d, periodic, k) == if k == 0 then 0 else if k == d then 2 * (d - 1) else 2 * k - 1
  {
    if k > 0 {
      LineSumClosed(d, periodic, k - 1);
    }
  }

  lemma {:induction false} CartDegreePrefix(dims: seq<int>, periods: seq<bool>, coords: seq<int>, more: seq<int>, k: nat)
    requires k <= |dims| == |periods| && k <= |coords|
    ensures CartDegree(dims, periods, coords + more, k) == CartDegree(dims, periods, coords, k)
  {
    if k > 0 {
      CartDegreePrefix(dims, periods, coords, more, k - 1);
    }
  }

  /** What the degrees below a prefix add up to: the prefix counts at every point, the other dimensions on their own. */
  function DegreeClosed(volume: int, head: int, tail: int): int {
    volume * head + tail
  }

  /** What the degrees of the first k points of the next axis add up to. */
  function AxisClosed(k: int, volume: int, head: int, tail: int, line: int): int {
    k * (volume * head + tail) + volume * line
  }

  /** One more point on an axis: pure arithmetic over the pieces. */
  lemma AxisStep(k: int, volume: int, head: int, tail: int, line: int, deg: int)
    ensures AxisClosed(k - 1, volume, head, tail, line) + DegreeClosed(volume, head + deg, tail)
         == AxisClosed(k, volume, head, tail, line + deg)
  {
  }

  lemma AxisTotal(d: int, volume: int, head: int, tail: int, line: int)
    ensures AxisClosed(d, volume, head, tail, line) == DegreeClosed(d * volume, head, line * volume + d * tail)
  {
  }

  lemma HandshakeStep(before: int, front: int, line: int, back: int, d: int, tail: int)
    ensures before + front * (line * back + d * tail) == (before + front * back * line) + (front * d) * tail
  {
  }

  lemma {:induction false} AxisSumClosed(dims: seq<int>, periods: seq<bool>, prefix: seq<int>, k: nat)
    requires |prefix| < |dims| == |periods|
    requires forall i :: 0 <= i < |dims| ==> 0 <= dims[i]
    ensures var j := |prefix|;
      AxisSum(dims, periods, prefix, k) == AxisClosed(k, Volume(dims, j + 1), CartDegree(dims, periods, prefix, j),
                                                      TailWeight(dims, periods, j + 1), LineSum(dims[j], periods[j], k))
    decreases |dims| - |prefix|, 0, k
  {
    hide Volume, TailWeight, DegreeSum;
    var j := |prefix|;
    if k > 0 {
      hide AxisClosed, DegreeClosed, DegreeAt;
      AxisSumClosed(dims, periods, prefix, k - 1);
      DegreeSumClosed(dims, periods, prefix + [k - 1]);
      CartDegreePrefix(dims, periods, prefix, [k - 1], j);
      AxisStep(k, Volume(dims, j + 1), CartDegree(dims, periods, prefix, j), TailWeight(dims, periods, j + 1),
               LineSum(dims[j], periods[j], k - 1), DegreeAt(dims[j], periods[j], k - 1));
    }
  }

  lemma {:induction false} DegreeSumClosed(dims: seq<int>, periods: seq<bool>, prefix: seq<int>)
    requires |prefix| <= |dims| == |periods|
    requires forall i :: 0 <= i < |dims| ==> 0 <= dims[i]
    ensures var j := |prefix|;
      DegreeSum(dims, periods, prefix) ==
        DegreeClosed(Volume(dims, j), CartDegree(dims, periods, prefix, j), TailWeight(dims, periods, j))
    decreases |dims| - |prefix|, 1, 0
  {
    hide AxisSum, CartDegree, LineSum;
    var j := |prefix|;
    if j < |dims| {
      hide AxisClosed, DegreeClosed;
      AxisSumClosed(dims, periods, prefix, dims[j]);
      LineSumClosed(dims[j], periods[j], dims[j]);
      AxisTotal(dims[j], Volume(dims, j + 1), CartDegree(dims, periods, prefix, j), TailWeight(dims, periods, j + 1),
                LineWeight(dims[j], periods[j]));
    }
  }

  lemma {:induction false} HandshakeSplits(dims: seq<int>, periods: seq<bool>, j: nat)
    requires j <= |dims| == |periods|
    ensures Handshake(dims, periods, j) + VolumeTo(dims, j) * TailWeight(dims, periods, j)
         == Handshake(dims, periods, |dims|)
    decreases |dims| - j
  {
    if j < |dims| {
      HandshakeSplits(dims, periods, j + 1);
      HandshakeStep(Handshake(dims, periods, j), VolumeTo(dims, j), LineWeight(dims[j], periods[j]),
                    Volume(dims, j + 1), dims[j], TailWeight(dims, periods, j + 1));
    }
  }

  /** Summing the computed degree over the whole grid counts every line of every dimension once. */
  lemma HandshakeTheorem(dims: seq<int>, periods: seq<bool>)
    requires |dims| == |periods| && forall i :: 0 <= i < |dims| ==> 0 <= dims[i]
    ensures DegreeSum(dims, periods, []) == Handshake(dims, periods, |dims|)
  {
    DegreeSumClosed(dims, periods, []);
    HandshakeSplits(dims, periods, 0);
  }
}
