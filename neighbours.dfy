/** The neighbour search of `k_nearest` (kNearest.py:4-18): pair every chip
    with its distance to the query, stable-sort the pairs by distance and keep
    the first `k`.

    A chip is a row `(x1, x2, label)`; only its first two columns are a
    position. Distances are squared Euclidean distances: the square root that
    `np.linalg.norm` takes is monotone, so it never changes the order and
    hence never changes which chips are selected. */
module Neighbours {
  import opened Sorting

  datatype Point = Point(x1: real, x2: real)

  /** A labelled data point; its outcome is 0 (FAIL) or 1 (OK) in the data,
      stored as a number like the rest of the row. */
  datatype Chip = Chip(pos: Point, outcome: real)

  /** The dictionary `{"chip": chip, "distance": dist}` of kNearest.py:13. */
  datatype Neighbour = Neighbour(chip: Chip, distance: real)

  /** Real multiplication, kept behind a name so that the solver reasons
      about squares through `MulSigns` only. */
  function Mul(x: real, y: real): real {
    x * y
  }

  lemma MulSigns(x: real, y: real)
    ensures x > 0.0 && y > 0.0 ==> Mul(x, y) > 0.0
    ensures x < 0.0 && y < 0.0 ==> Mul(x, y) > 0.0
  {
    if x < 0.0 && y < 0.0 {
      assert (-x) * (-y) > 0.0;
      assert x * y == (-x) * (-y);
    }
  }

  /** A square is never negative, and positive unless its root is zero. */
  lemma SquareSign(u: real)
    ensures Mul(u, u) >= 0.0
    ensures u != 0.0 ==> Mul(u, u) > 0.0
  {
    MulSigns(u, u);
  }

  /** Squared Euclidean distance in the plane (kNearest.py:11 without the
      square root): never negative, and zero exactly on equal points. */
  function SqDist(a: Point, b: Point): (d: real)
    ensures d >= 0.0
    ensures d == 0.0 <==> a == b
  {
    SquareSign(a.x1 - b.x1);
    SquareSign(a.x2 - b.x2);
    Mul(a.x1 - b.x1, a.x1 - b.x1) + Mul(a.x2 - b.x2, a.x2 - b.x2)
  }

  function Distance(n: Neighbour): real {
    n.distance
  }

  /** The list `chip_distances` that the loop at kNearest.py:10-13 builds. */
  function Records(query: Point, chips: seq<Chip>): seq<Neighbour> {
    seq(|chips|, i requires 0 <= i < |chips| => Neighbour(chips[i], SqDist(chips[i].pos, query)))
  }

  /** What `k_nearest(query, k, chips)` returns. */
  function Nearest(query: Point, k: int, chips: seq<Chip>): seq<Neighbour>
    requires k >= 1
  {
    Take(SortBy(Records(query, chips), Distance), k)
  }

  /** `k_nearest`: the loop that pairs chips with distances, then the sort
      and the slice. */
  method KNearest(query: Point, k: int, chips: seq<Chip>) returns (nearest: seq<Neighbour>)
    requires k >= 1
    ensures nearest == Nearest(query, k, chips)
  {
    var chipDistances: seq<Neighbour> := [];
    for i := 0 to |chips|
      invariant chipDistances == Records(query, chips[..i])
    {
      chipDistances := chipDistances + [Neighbour(chips[i], SqDist(chips[i].pos, query))];
    }
    assert chips[..|chips|] == chips;
    var sortList := SortBy(chipDistances, Distance);
    nearest := Take(sortList, k);
  }

  /** `k_nearest` keeps `min(k, n)` records, each a dataset chip paired with
      its own distance to the query, sorted by distance, and together a
      sub-multiset of all the records (a prefix of a permutation). */
  lemma NearestSpec(query: Point, k: int, chips: seq<Chip>)
    requires k >= 1
    ensures |Nearest(query, k, chips)| == if k < |chips| then k else |chips|
    ensures SortedBy(Nearest(query, k, chips), Distance)
    ensures multiset(Nearest(query, k, chips)) <= multiset(Records(query, chips))
    ensures forall n :: n in Nearest(query, k, chips) ==>
              n.chip in chips && n.distance == SqDist(n.chip.pos, query)
  {
    var recs := Records(query, chips);
    var r := Nearest(query, k, chips);
    TakeSorted(recs, k, Distance);
    forall n | n in r ensures n.chip in chips && n.distance == SqDist(n.chip.pos, query) {
      assert n in multiset(r);
      assert n in multiset(recs);
      var i :| 0 <= i < |recs| && recs[i] == n;
    }
  }

  /** A record the cut leaves out is at least as far as every record kept. */
  lemma NearestLeftOut(query: Point, k: int, chips: seq<Chip>, e: Neighbour)
    requires k >= 1
    requires e in multiset(Records(query, chips)) - multiset(Nearest(query, k, chips))
    ensures forall n :: n in Nearest(query, k, chips) ==> n.distance <= e.distance
  {
    TakeLeftOut(Records(query, chips), k, Distance, e);
  }

  /** Stability: the records kept at any one distance are the first records
      at that distance in dataset order. */
  lemma NearestStable(query: Point, k: int, chips: seq<Chip>, d: real)
    requires k >= 1
    ensures WithKey(Nearest(query, k, chips), Distance, d) <= WithKey(Records(query, chips), Distance, d)
  {
    TakeStable(Records(query, chips), k, Distance, d);
  }
}
