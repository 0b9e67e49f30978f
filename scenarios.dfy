/** The duplicate-circle filter on concrete inputs, with each result proved
    for every radius order the sort may produce. */
module Scenarios {
  import opened Geometry
  import opened Suppression

  /** Two radius-10 circles one pixel apart, and a small circle far away. */
  function Cluster(): seq<Circle>
  {
    [Circle(0, 0, 10), Circle(1, 1, 10), Circle(100, 100, 5)]
  }

  /** The two near circles share a 19 x 19 square: 361 pixels of a union of
      200 PI - 361, a ratio near 1.35, above every threshold up to 1. */
  lemma NearPairSuppresses(t: real)
    requires t <= 1.0
    ensures Suppresses(Circle(0, 0, 10), Circle(1, 1, 10), t)
    ensures Suppresses(Circle(1, 1, 10), Circle(0, 0, 10), t)
  {
    var a, b := Circle(0, 0, 10), Circle(1, 1, 10);
    assert Width(a, b) == 19 && Height(a, b) == 19;
    assert InterArea(a, b) == 361;
    assert UnionArea(a, b) == 200.0 * PI - 361.0;
    SuppressesWithoutDivision(a, b, t);
    if t >= 0.0 {
      assert t * UnionArea(a, b) <= UnionArea(a, b);
    }
    SuppressesSymmetric(a, b, t);
  }

  /** Circles whose squares do not meet never suppress each other at a
      threshold of 0 or more: their ratio is 0. */
  lemma ApartNeverSuppress(a: Circle, b: Circle, t: real)
    requires t >= 0.0 && InterArea(a, b) == 0
    ensures !Suppresses(a, b, t)
  {
  }

  /** The radius orders of Cluster(): the small circle last, the two
      radius-10 circles in either order before it. */
  lemma ClusterOrders(order: seq<int>)
    requires IsRadiusOrder(Cluster(), order)
    ensures order == [0, 1, 2] || order == [1, 0, 2]
  {
    var cs := Cluster();
    var o0, o1, o2 := order[0], order[1], order[2];
    assert o0 != o1 && o0 != o2 && o1 != o2;
    assert cs[o0].r >= cs[o2].r && cs[o1].r >= cs[o2].r;
    assert o2 == 2;
  }

  /** The deletion test at 0.5 on Cluster(): the near pair suppress each
      other, the small circle suppresses neither. */
  lemma ClusterOverlaps()
    ensures var cs, rel := Cluster(), OverlapTest(0.5);
            rel(cs[0], cs[1]) && rel(cs[1], cs[0]) && !rel(cs[2], cs[0]) && !rel(cs[2], cs[1])
  {
    var cs := Cluster();
    NearPairSuppresses(0.5);
    assert InterArea(cs[2], cs[0]) == 0 && InterArea(cs[2], cs[1]) == 0;
    ApartNeverSuppress(cs[2], cs[0], 0.5);
    ApartNeverSuppress(cs[2], cs[1], 0.5);
  }

  /** A worklist of two entries where the last one overlaps the first:
      only the last one is picked. */
  lemma PairPicks(cs: seq<Circle>, pair: seq<int>, rel: (Circle, Circle) -> bool)
    requires ValidIndices(pair, |cs|) && |pair| == 2
    requires rel(cs[pair[1]], cs[pair[0]])
    ensures Picks(cs, pair, rel) == [pair[1]]
  {
    PicksStep(cs, pair, rel);
    assert NextWorklist(cs, pair[1], pair[..1], rel) == [];
  }

  /** A last entry that overlaps neither of two others deletes nothing. */
  lemma KeepFirstTwo(cs: seq<Circle>, work: seq<int>, rel: (Circle, Circle) -> bool)
    requires ValidIndices(work, |cs|) && |work| == 3
    requires !rel(cs[work[2]], cs[work[0]]) && !rel(cs[work[2]], cs[work[1]])
    ensures NextWorklist(cs, work[2], work[..2], rel) == work[..2]
  {
    var rest := work[..2];
    forall x | x in rest
      ensures !rel(cs[work[2]], cs[x])
    {
      assert x == work[0] || x == work[1];
    }
    NextWorklistKeepsAll(cs, work[2], rest, rel);
  }

  /** A worklist of three entries where the last overlaps neither of the
      others and the middle one overlaps the first: the last and then the
      middle entry are picked. */
  lemma ThreePicks(cs: seq<Circle>, work: seq<int>, rel: (Circle, Circle) -> bool)
    requires ValidIndices(work, |cs|) && |work| == 3
    requires !rel(cs[work[2]], cs[work[0]]) && !rel(cs[work[2]], cs[work[1]])
    requires rel(cs[work[1]], cs[work[0]])
    ensures Picks(cs, work, rel) == [work[2], work[1]]
  {
    PicksStep(cs, work, rel);
    KeepFirstTwo(cs, work, rel);
    PairPicks(cs, work[..2], rel);
  }

  /** At threshold 0.5 the filter keeps two circles: the small one first
      (smallest radius is picked first), then one of the near pair. */
  lemma ClusterSurvivors(order: seq<int>)
    requires IsRadiusOrder(Cluster(), order)
    ensures var kept := Survivors(Cluster(), order, 0.5);
            |kept| == 2 && kept[0] == Circle(100, 100, 5) &&
            (kept[1] == Circle(0, 0, 10) || kept[1] == Circle(1, 1, 10))
  {
    ClusterOrders(order);
    ClusterOverlaps();
    ThreePicks(Cluster(), order, OverlapTest(0.5));
  }

  /** The same pair at threshold 1.0: the ratio exceeds 1, so one of them is
      still dropped. */
  lemma NearPairAtOne(order: seq<int>)
    requires IsRadiusOrder([Circle(0, 0, 10), Circle(1, 1, 10)], order)
    ensures |Survivors([Circle(0, 0, 10), Circle(1, 1, 10)], order, 1.0)| == 1
  {
    var cs, rel := [Circle(0, 0, 10), Circle(1, 1, 10)], OverlapTest(1.0);
    NearPairSuppresses(1.0);
    assert rel(cs[order[1]], cs[order[0]]);
    PairPicks(cs, order, rel);
  }

  /** Two circles far apart both survive, whatever the threshold at or
      above 0. */
  lemma ApartPairKept(order: seq<int>, t: real)
    requires t >= 0.0
    requires IsRadiusOrder([Circle(0, 0, 5), Circle(50, 50, 5)], order)
    ensures var kept := Survivors([Circle(0, 0, 5), Circle(50, 50, 5)], order, t);
            |kept| == 2 && Circle(0, 0, 5) in kept && Circle(50, 50, 5) in kept
  {
    var cs, rel := [Circle(0, 0, 5), Circle(50, 50, 5)], OverlapTest(t);
    assert InterArea(cs[0], cs[1]) == 0 && InterArea(cs[1], cs[0]) == 0;
    ApartNeverSuppress(cs[0], cs[1], t);
    ApartNeverSuppress(cs[1], cs[0], t);
    assert order[0] != order[1];
    var a, b := order[0], order[1];
    assert !rel(cs[b], cs[a]);
    PicksStep(cs, order, rel);
    assert order[..1] == [a];
    assert NextWorklist(cs, b, [a], rel) == [a];
    assert Picks(cs, [a], rel) == [a];
    assert Picks(cs, order, rel) == [b, a];
    var kept := Survivors(cs, order, t);
    assert kept[0] == cs[b] && kept[1] == cs[a];
    assert {a, b} == {0, 1};
  }
}
