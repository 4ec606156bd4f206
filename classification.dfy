/** Classification by majority vote among the nearest chips: `classifyChip`
    (kNearest.py:63-80), its use over a mesh of query points, `classifyMesh`
    (kNearest.py:21-36), and the in-sample error count `classifyErrors`
    (kNearest.py:39-60). An outcome of 0 means FAIL and 1 means OK. */
module Classification {
  import opened Sorting
  import opened Neighbours
  import opened Mapping

  /** How many of the neighbours are failed chips (outcome exactly 0). */
  function FailCount(s: seq<Neighbour>): (n: nat)
    ensures n <= |s|
  {
    if s == [] then 0
    else FailCount(s[..|s| - 1]) + (if s[|s| - 1].chip.outcome == 0.0 then 1 else 0)
  }

  /** The decision of kNearest.py:75-80: FAIL (0) on a strict majority of
      failed neighbours, where "half" is a real-valued division; OK (1)
      otherwise, so a tie and an empty list both give OK. */
  function Vote(s: seq<Neighbour>): (r: int)
    ensures r == 0 || r == 1
    ensures r == 0 <==> 2 * FailCount(s) > |s|
  {
    if FailCount(s) as real > |s| as real / 2.0 then 0 else 1
  }

  /** `classifyChip`: counts failed neighbours in a loop, then votes. */
  method ClassifyChip(nearest: seq<Neighbour>) returns (r: int)
    ensures r == Vote(nearest)
  {
    var fail := 0;
    for i := 0 to |nearest|
      invariant fail == FailCount(nearest[..i])
    {
      assert nearest[..i + 1][..i] == nearest[..i];
      if nearest[i].chip.outcome == 0.0 {
        fail := fail + 1;
      }
    }
    assert nearest[..|nearest|] == nearest;
    var result := fail as real > |nearest| as real / 2.0;
    if result {
      r := 0;
    } else {
      r := 1;
    }
  }

  lemma {:induction false} FailCountAppend(a: seq<Neighbour>, b: seq<Neighbour>)
    ensures FailCount(a + b) == FailCount(a) + FailCount(b)
    decreases |b|
  {
    if b == [] {
      assert a + b == a;
    } else {
      var b' := b[..|b| - 1];
      assert (a + b)[..|a + b| - 1] == a + b';
      assert (a + b)[|a + b| - 1] == b[|b| - 1];
      FailCountAppend(a, b');
    }
  }

  /** Taking out the element at `i` takes out its share of the count. */
  lemma FailCountRemove(t: seq<Neighbour>, i: int)
    requires 0 <= i < |t|
    ensures FailCount(t) == FailCount(t[..i] + t[i + 1..]) + FailCount([t[i]])
  {
    var front, mid, back := t[..i], [t[i]], t[i + 1..];
    assert front + mid == t[..i + 1];
    assert t == t[..i + 1] + back;
    FailCountAppend(front, mid);
    FailCountAppend(front + mid, back);
    FailCountAppend(front, back);
  }

  lemma MultisetRemove(t: seq<Neighbour>, i: int)
    requires 0 <= i < |t|
    ensures multiset(t[..i] + t[i + 1..]) == multiset(t) - multiset{t[i]}
  {
    assert t == t[..i] + [t[i]] + t[i + 1..];
  }

  /** The count, and so the vote, ignores the order of the neighbours. */
  lemma {:induction false} FailCountPermutation(s: seq<Neighbour>, t: seq<Neighbour>)
    requires multiset(s) == multiset(t)
    ensures FailCount(s) == FailCount(t)
    decreases |s|
  {
    if s != [] {
      var last := s[|s| - 1];
      var s' := s[..|s| - 1];
      assert s == s' + [last];
      assert multiset(s') == multiset(s) - multiset{last};
      assert last in multiset(t);
      var i :| 0 <= i < |t| && t[i] == last;
      MultisetRemove(t, i);
      FailCountPermutation(s', t[..i] + t[i + 1..]);
      FailCountRemove(t, i);
      assert [last][..0] == [];
    }
  }

  /** Permuting the nearest chips never changes the prediction. */
  lemma VotePermutation(s: seq<Neighbour>, t: seq<Neighbour>)
    requires multiset(s) == multiset(t)
    ensures Vote(s) == Vote(t)
  {
    FailCountPermutation(s, t);
    assert |s| == |multiset(s)| == |multiset(t)| == |t|;
  }

  /** The vote at a query point, as a function of the point. */
  function VoteAt(k: int, data: seq<Chip>): Point --> int {
    p requires k >= 1 => Vote(Nearest(p, k, data))
  }

  /** How many chips of the data set are failed chips. */
  function ChipFails(chips: seq<Chip>): (n: nat)
    ensures n <= |chips|
  {
    if chips == [] then 0
    else ChipFails(chips[..|chips| - 1]) + (if chips[|chips| - 1].outcome == 0.0 then 1 else 0)
  }

  /** Pairing chips with distances does not change how many failed. */
  lemma {:induction false} FailCountRecords(query: Point, chips: seq<Chip>)
    ensures FailCount(Records(query, chips)) == ChipFails(chips)
    decreases |chips|
  {
    if chips != [] {
      var n := |chips| - 1;
      var recs := Records(query, chips);
      assert recs[..n] == Records(query, chips[..n]);
      assert recs[n].chip == chips[n];
      FailCountRecords(query, chips[..n]);
    }
  }

  /** With `k` at least the size of the data set every chip is a neighbour,
      so every query point gets the majority vote of the whole set. */
  lemma WholeSetVote(query: Point, k: int, chips: seq<Chip>)
    requires k >= 1
    requires k >= |chips|
    ensures Vote(Nearest(query, k, chips)) == if 2 * ChipFails(chips) > |chips| then 0 else 1
  {
    var recs := Records(query, chips);
    assert Nearest(query, k, chips) == SortBy(recs, Distance);
    VotePermutation(SortBy(recs, Distance), recs);
    FailCountRecords(query, chips);
  }

  /** `classifyMesh`: one vote per mesh point, in mesh order. */
  method ClassifyMesh(k: int, data: seq<Chip>, mesh: seq<Point>) returns (classified: seq<int>)
    requires k >= 1
    ensures |classified| == |mesh|
    ensures forall i :: 0 <= i < |mesh| ==> classified[i] == Vote(Nearest(mesh[i], k, data))
  {
    classified := [];
    for i := 0 to |mesh|
      invariant classified == Map(VoteAt(k, data), mesh[..i])
    {
      var nearest := KNearest(mesh[i], k, data);
      var predicted := ClassifyChip(nearest);
      assert predicted == VoteAt(k, data)(mesh[i]);
      MapSnoc(VoteAt(k, data), mesh, i);
      classified := classified + [predicted];
    }
    assert mesh[..|mesh|] == mesh;
  }

  /** Python's `int(...)` on a number: truncation toward zero. */
  function Truncate(r: real): int {
    if r >= 0.0 then r.Floor else -((-r).Floor)
  }

  /** The chip's own vote among its `k` nearest chips of `data` (itself
      included) disagrees with its recorded outcome (kNearest.py:51-57). */
  predicate Misclassified(k: int, data: seq<Chip>, chip: Chip)
    requires k >= 1
  {
    Vote(Nearest(chip.pos, k, data)) != Truncate(chip.outcome)
  }

  /** The number of `queries` that `data` misclassifies. */
  function ErrorCount(k: int, queries: seq<Chip>, data: seq<Chip>): (n: nat)
    requires k >= 1
    ensures n <= |queries|
  {
    if queries == [] then 0
    else
      ErrorCount(k, queries[..|queries| - 1], data)
      + (if Misclassified(k, data, queries[|queries| - 1]) then 1 else 0)
  }

  /** `classifyErrors`: in-sample evaluation, every chip of the set is
      classified against the whole set, itself included. */
  method ClassifyErrors(k: int, xSet: seq<Chip>) returns (fail: int)
    requires k >= 1
    ensures fail == ErrorCount(k, xSet, xSet)
    ensures 0 <= fail <= |xSet|
  {
    fail := 0;
    for i := 0 to |xSet|
      invariant fail == ErrorCount(k, xSet[..i], xSet)
    {
      assert xSet[..i + 1][..i] == xSet[..i];
      var chip := xSet[i];
      var ySet := KNearest(chip.pos, k, xSet);
      var result := ClassifyChip(ySet);
      var compare := Truncate(chip.outcome);
      assert Misclassified(k, xSet, chip) <==> compare != result;
      if compare != result {
        fail := fail + 1;
      }
    }
    assert xSet[..|xSet|] == xSet;
  }

  predicate DistinctPositions(chips: seq<Chip>) {
    forall i, j :: 0 <= i < j < |chips| ==> chips[i].pos != chips[j].pos
  }

  /** With `k = 1` and no two chips at one position, a chip's only
      neighbour is the chip itself, at distance 0 (kNearest.py:11). */
  lemma OwnNearest(xSet: seq<Chip>, i: int)
    requires DistinctPositions(xSet)
    requires 0 <= i < |xSet|
    ensures Nearest(xSet[i].pos, 1, xSet) == [Neighbour(xSet[i], 0.0)]
  {
    var q := xSet[i].pos;
    var recs := Records(q, xSet);
    var sorted := SortBy(recs, Distance);
    SortBySorted(recs, Distance);
    assert recs[i] == Neighbour(xSet[i], 0.0);
    assert recs[i] in multiset(sorted);
    FirstIsLeast(sorted, Distance, recs[i]);
    assert sorted[0] in multiset(recs);
    var j :| 0 <= j < |recs| && recs[j] == sorted[0];
    assert SqDist(xSet[j].pos, q) == 0.0;
    assert xSet[j].pos == q;
    assert j == i;
    assert Take(sorted, 1) == [sorted[0]];
  }

  lemma {:induction false} NoErrorsUpTo(xSet: seq<Chip>, n: nat)
    requires DistinctPositions(xSet)
    requires forall i :: 0 <= i < |xSet| ==> xSet[i].outcome == 0.0 || xSet[i].outcome == 1.0
    requires n <= |xSet|
    ensures ErrorCount(1, xSet[..n], xSet) == 0
  {
    if n > 0 {
      assert xSet[..n][..n - 1] == xSet[..n - 1];
      NoErrorsUpTo(xSet, n - 1);
      OwnNearest(xSet, n - 1);
      var own := [Neighbour(xSet[n - 1], 0.0)];
      assert own[..0] == [];
      assert FailCount(own) == if xSet[n - 1].outcome == 0.0 then 1 else 0;
    }
  }

  /** With `k = 1`, outcomes 0 or 1 and no two chips at one position,
      in-sample evaluation finds no error: each chip is its own sole
      neighbour and so agrees with itself. */
  lemma {:induction false} NoErrorsWithOwnNeighbour(xSet: seq<Chip>)
    requires DistinctPositions(xSet)
    requires forall i :: 0 <= i < |xSet| ==> xSet[i].outcome == 0.0 || xSet[i].outcome == 1.0
    ensures ErrorCount(1, xSet, xSet) == 0
  {
    NoErrorsUpTo(xSet, |xSet|);
    assert xSet[..|xSet|] == xSet;
  }
}
