/** The greedy duplicate-circle filter non_max_suppression: indices are
    ordered by radius, largest first; the filter repeatedly picks the LAST
    remaining index (so the smallest remaining radius), keeps it, and drops
    it together with every other remaining index whose overlap ratio with it
    exceeds the threshold. */
module Suppression {
  import opened Geometry

  /** Every entry of s indexes a sequence of length n. */
  predicate ValidIndices(s: seq<int>, n: int)
  {
    forall k :: 0 <= k < |s| ==> 0 <= s[k] < n
  }

  /** No index occurs twice in s. */
  predicate Distinct(s: seq<int>)
  {
    forall a, b :: 0 <= a < b < |s| ==> s[a] != s[b]
  }

  /** The radii along s never increase. */
  predicate Descending(cs: seq<Circle>, s: seq<int>)
    requires ValidIndices(s, |cs|)
  {
    forall a, b :: 0 <= a < b < |s| ==> cs[s[a]].r >= cs[s[b]].r
  }

  /** The radii along s never decrease. */
  predicate Ascending(cs: seq<Circle>, s: seq<int>)
    requires ValidIndices(s, |cs|)
  {
    forall a, b :: 0 <= a < b < |s| ==> cs[s[a]].r <= cs[s[b]].r
  }

  /** What "np.argsort(r)[::-1]" promises: every index of cs exactly once,
      by radius, largest first (the order among equal radii is left open). */
  predicate IsRadiusOrder(cs: seq<Circle>, order: seq<int>)
  {
    && |order| == |cs|
    && ValidIndices(order, |cs|)
    && (forall x :: 0 <= x < |cs| ==> x in order)
    && Distinct(order)
    && Descending(cs, order)
  }

  lemma DistinctSnoc(s: seq<int>, x: int)
    requires Distinct(s) && x !in s
    ensures Distinct(s + [x])
  {
    var u := s + [x];
    forall a, b | 0 <= a < b < |u|
      ensures u[a] != u[b]
    {
      assert u[a] == s[a];
      if b < |s| {
        assert u[b] == s[b];
      }
    }
  }

  lemma DistinctCons(x: int, s: seq<int>)
    requires Distinct(s) && x !in s
    ensures Distinct([x] + s)
  {
    var u := [x] + s;
    forall a, b | 0 <= a < b < |u|
      ensures u[a] != u[b]
    {
      assert u[b] == s[b - 1];
      if a > 0 {
        assert u[a] == s[a - 1];
      }
    }
  }

  lemma DescendingSnoc(cs: seq<Circle>, s: seq<int>, x: int)
    requires ValidIndices(s, |cs|) && Descending(cs, s) && 0 <= x < |cs|
    requires forall y :: y in s ==> cs[y].r >= cs[x].r
    ensures ValidIndices(s + [x], |cs|) && Descending(cs, s + [x])
  {
    var u := s + [x];
    forall a, b | 0 <= a < b < |u|
      ensures cs[u[a]].r >= cs[u[b]].r
    {
      assert u[a] == s[a];
      if b < |s| {
        assert u[b] == s[b];
      } else {
        assert s[a] in s;
      }
    }
  }

  lemma AscendingCons(cs: seq<Circle>, x: int, s: seq<int>)
    requires ValidIndices(s, |cs|) && Ascending(cs, s) && 0 <= x < |cs|
    requires forall y :: y in s ==> cs[x].r <= cs[y].r
    ensures ValidIndices([x] + s, |cs|) && Ascending(cs, [x] + s)
  {
    var u := [x] + s;
    forall a, b | 0 <= a < b < |u|
      ensures cs[u[a]].r <= cs[u[b]].r
    {
      assert u[b] == s[b - 1];
      if a > 0 {
        assert u[a] == s[a - 1];
      } else {
        assert s[b - 1] in s;
      }
    }
  }

  /** In a largest-first worklist the last entry has the smallest radius. */
  lemma LastIsSmallest(cs: seq<Circle>, s: seq<int>)
    requires ValidIndices(s, |cs|) && Descending(cs, s) && s != []
    ensures forall y :: y in s ==> cs[y].r >= cs[s[|s| - 1]].r
  {
    forall y | y in s
      ensures cs[y].r >= cs[s[|s| - 1]].r
    {
      var k :| 0 <= k < |s| && s[k] == y;
    }
  }

  /** The worklist after the current circle cs[i] was picked: the entries
      of rest (the worklist without its last entry), in their order, that
      cs[i] does not suppress; the others are deleted. */
  function NextWorklist(cs: seq<Circle>, i: int, rest: seq<int>, overlaps: (Circle, Circle) -> bool): (next: seq<int>)
    requires 0 <= i < |cs| && ValidIndices(rest, |cs|)
    ensures ValidIndices(next, |cs|)
    ensures |next| <= |rest|
  {
    if rest == [] then []
    else
      var x := rest[|rest| - 1];
      var prev := NextWorklist(cs, i, rest[..|rest| - 1], overlaps);
      if overlaps(cs[i], cs[x]) then prev else prev + [x]
  }

  /** The entries of s are those of s without its last entry, and that one. */
  lemma InitMembers(s: seq<int>)
    requires s != []
    ensures forall y :: y in s <==> y in s[..|s| - 1] || y == s[|s| - 1]
  {
    assert s == s[..|s| - 1] + [s[|s| - 1]];
  }

  /** The next worklist keeps exactly the entries of rest that cs[i] does
      not suppress. */
  lemma {:induction false} NextWorklistMembers(cs: seq<Circle>, i: int, rest: seq<int>, overlaps: (Circle, Circle) -> bool)
    requires 0 <= i < |cs| && ValidIndices(rest, |cs|)
    ensures forall x :: x in NextWorklist(cs, i, rest, overlaps) <==> x in rest && !overlaps(cs[i], cs[x])
    decreases |rest|
  {
    if rest != [] {
      var init := rest[..|rest| - 1];
      NextWorklistMembers(cs, i, init, overlaps);
      InitMembers(rest);
    }
  }

  /** Deleting entries keeps a worklist free of repetitions. */
  lemma {:induction false} NextWorklistDistinct(cs: seq<Circle>, i: int, rest: seq<int>, overlaps: (Circle, Circle) -> bool)
    requires 0 <= i < |cs| && ValidIndices(rest, |cs|) && Distinct(rest)
    ensures Distinct(NextWorklist(cs, i, rest, overlaps))
    decreases |rest|
  {
    if rest != [] {
      var x := rest[|rest| - 1];
      var init := rest[..|rest| - 1];
      NextWorklistDistinct(cs, i, init, overlaps);
      NextWorklistMembers(cs, i, init, overlaps);
      assert x !in init;
      DistinctSnoc(NextWorklist(cs, i, init, overlaps), x);
    }
  }

  /** Deleting entries keeps a worklist ordered largest radius first. */
  lemma {:induction false} NextWorklistDescending(cs: seq<Circle>, i: int, rest: seq<int>, overlaps: (Circle, Circle) -> bool)
    requires 0 <= i < |cs| && ValidIndices(rest, |cs|) && Descending(cs, rest)
    ensures Descending(cs, NextWorklist(cs, i, rest, overlaps))
    decreases |rest|
  {
    if rest != [] {
      var x := rest[|rest| - 1];
      var init := rest[..|rest| - 1];
      NextWorklistDescending(cs, i, init, overlaps);
      var prev := NextWorklist(cs, i, init, overlaps);
      LastIsSmallest(cs, rest);
      NextWorklistMembers(cs, i, init, overlaps);
      InitMembers(rest);
      DescendingSnoc(cs, prev, x);
    }
  }

  /** The pick list the filter builds from worklist work, in pick order. */
  function Picks(cs: seq<Circle>, work: seq<int>, overlaps: (Circle, Circle) -> bool): (pick: seq<int>)
    requires ValidIndices(work, |cs|)
    ensures ValidIndices(pick, |cs|)
    ensures |pick| <= |work|
    decreases |work|
  {
    if work == [] then []
    else
      var last := |work| - 1;
      [work[last]] + Picks(cs, NextWorklist(cs, work[last], work[..last], overlaps), overlaps)
  }

  /** Only worklist entries are picked. */
  lemma {:induction false} PicksMembers(cs: seq<Circle>, work: seq<int>, overlaps: (Circle, Circle) -> bool)
    requires ValidIndices(work, |cs|)
    ensures forall x :: x in Picks(cs, work, overlaps) ==> x in work
    decreases |work|
  {
    if work != [] {
      var last := |work| - 1;
      var next := NextWorklist(cs, work[last], work[..last], overlaps);
      PicksMembers(cs, next, overlaps);
      NextWorklistMembers(cs, work[last], work[..last], overlaps);
      InitMembers(work);
    }
  }

  /** One round of the worklist loop: pick the last entry, then carry on
      with what the deletion leaves of the others. */
  lemma PicksStep(cs: seq<Circle>, work: seq<int>, overlaps: (Circle, Circle) -> bool)
    requires ValidIndices(work, |cs|) && work != []
    ensures var last := |work| - 1;
            Picks(cs, work, overlaps)
              == [work[last]] + Picks(cs, NextWorklist(cs, work[last], work[..last], overlaps), overlaps)
  {
  }

  /** Each round picks the last worklist entry, which in a largest-first
      worklist is a circle of the smallest radius still in it. */
  lemma FirstPickIsSmallest(cs: seq<Circle>, work: seq<int>, overlaps: (Circle, Circle) -> bool)
    requires ValidIndices(work, |cs|) && Descending(cs, work) && work != []
    ensures var pick := Picks(cs, work, overlaps);
            pick != [] && pick[0] == work[|work| - 1] &&
            forall y :: y in work ==> cs[y].r >= cs[pick[0]].r
  {
    LastIsSmallest(cs, work);
  }

  /** No index is picked twice. */
  lemma {:induction false} PicksDistinct(cs: seq<Circle>, work: seq<int>, overlaps: (Circle, Circle) -> bool)
    requires ValidIndices(work, |cs|) && Distinct(work)
    ensures Distinct(Picks(cs, work, overlaps))
    decreases |work|
  {
    if work != [] {
      var last := |work| - 1;
      var i := work[last];
      var rest := work[..last];
      NextWorklistDistinct(cs, i, rest, overlaps);
      var next := NextWorklist(cs, i, rest, overlaps);
      PicksDistinct(cs, next, overlaps);
      PicksMembers(cs, next, overlaps);
      NextWorklistMembers(cs, i, rest, overlaps);
      assert i !in rest;
      DistinctCons(i, Picks(cs, next, overlaps));
    }
  }

  /** The filter's result: the picked circles, in pick order. */
  function Gather(cs: seq<Circle>, pick: seq<int>): (kept: seq<Circle>)
    requires ValidIndices(pick, |cs|)
    ensures |kept| == |pick|
    ensures forall k :: 0 <= k < |pick| ==> kept[k] == cs[pick[k]]
  {
    seq(|pick|, k requires 0 <= k < |pick| => cs[pick[k]])
  }

  /** From a largest-first worklist, each pick is the smallest remaining
      radius, so the picked radii never decrease. */
  lemma {:induction false} PicksAscending(cs: seq<Circle>, work: seq<int>, overlaps: (Circle, Circle) -> bool)
    requires ValidIndices(work, |cs|) && Descending(cs, work)
    ensures Ascending(cs, Picks(cs, work, overlaps))
    decreases |work|
  {
    if work != [] {
      var last := |work| - 1;
      var i := work[last];
      var rest := work[..last];
      var next := NextWorklist(cs, i, rest, overlaps);
      NextWorklistDescending(cs, i, rest, overlaps);
      PicksAscending(cs, next, overlaps);
      LastIsSmallest(cs, work);
      PicksMembers(cs, next, overlaps);
      NextWorklistMembers(cs, i, rest, overlaps);
      InitMembers(work);
      AscendingCons(cs, i, Picks(cs, next, overlaps));
    }
  }

  /** No circle along s overlaps a circle that comes after it in s. */
  predicate Separated(cs: seq<Circle>, s: seq<int>, overlaps: (Circle, Circle) -> bool)
    requires ValidIndices(s, |cs|)
  {
    forall a, b :: 0 <= a < b < |s| ==> !overlaps(cs[s[a]], cs[s[b]])
  }

  lemma SeparatedCons(cs: seq<Circle>, i: int, s: seq<int>, overlaps: (Circle, Circle) -> bool)
    requires 0 <= i < |cs| && ValidIndices(s, |cs|) && Separated(cs, s, overlaps)
    requires forall y :: y in s ==> !overlaps(cs[i], cs[y])
    ensures ValidIndices([i] + s, |cs|) && Separated(cs, [i] + s, overlaps)
  {
    var p := [i] + s;
    forall a, b | 0 <= a < b < |p|
      ensures !overlaps(cs[p[a]], cs[p[b]])
    {
      assert p[b] == s[b - 1];
      if a > 0 {
        assert p[a] == s[a - 1];
      } else {
        assert s[b - 1] in s;
      }
    }
  }

  /** No picked circle suppresses a circle picked after it. */
  lemma {:induction false} PicksSeparated(cs: seq<Circle>, work: seq<int>, overlaps: (Circle, Circle) -> bool)
    requires ValidIndices(work, |cs|)
    ensures Separated(cs, Picks(cs, work, overlaps), overlaps)
    decreases |work|
  {
    if work != [] {
      var last := |work| - 1;
      var i := work[last];
      var rest := work[..last];
      var next := NextWorklist(cs, i, rest, overlaps);
      PicksSeparated(cs, next, overlaps);
      var tail := Picks(cs, next, overlaps);
      PicksMembers(cs, next, overlaps);
      NextWorklistMembers(cs, i, rest, overlaps);
      SeparatedCons(cs, i, tail, overlaps);
    }
  }

  /** An entry of s other than its last one is in s without its last one. */
  lemma InInit(s: seq<int>, j: int)
    requires j in s && j != s[|s| - 1]
    ensures j in s[..|s| - 1]
  {
    var k :| 0 <= k < |s| && s[k] == j;
    assert s[..|s| - 1][k] == j;
  }

  /** Every index of the worklist that is not picked was deleted because
      some picked circle suppressed it. */
  lemma {:induction false} PicksCover(cs: seq<Circle>, work: seq<int>, overlaps: (Circle, Circle) -> bool, j: int)
    requires ValidIndices(work, |cs|) && j in work
    ensures var pick := Picks(cs, work, overlaps);
            j in pick || exists p :: p in pick && overlaps(cs[p], cs[j])
    decreases |work|
  {
    var last := |work| - 1;
    var i := work[last];
    var rest := work[..last];
    var next := NextWorklist(cs, i, rest, overlaps);
    var tail := Picks(cs, next, overlaps);
    PicksStep(cs, work, overlaps);
    NextWorklistMembers(cs, i, rest, overlaps);
    if j != i {
      InInit(work, j);
      if j in next {
        PicksCover(cs, next, overlaps, j);
        if j !in tail {
          var p :| p in tail && overlaps(cs[p], cs[j]);
          assert p in [i] + tail;
        }
      } else {
        assert i in [i] + tail;
      }
    }
  }

  /** Without suppression the next worklist is the rest itself. */
  lemma {:induction false} NextWorklistKeepsAll(cs: seq<Circle>, i: int, rest: seq<int>, overlaps: (Circle, Circle) -> bool)
    requires 0 <= i < |cs| && ValidIndices(rest, |cs|)
    requires forall x :: x in rest ==> !overlaps(cs[i], cs[x])
    ensures NextWorklist(cs, i, rest, overlaps) == rest
    decreases |rest|
  {
    if rest != [] {
      var x := rest[|rest| - 1];
      var init := rest[..|rest| - 1];
      assert forall y :: y in init ==> y in rest;
      NextWorklistKeepsAll(cs, i, init, overlaps);
      assert !overlaps(cs[i], cs[x]);
      assert NextWorklist(cs, i, rest, overlaps) == init + [x];
      assert init + [x] == rest;
    }
  }

  /** The entries of s, last first. */
  function Reversed(s: seq<int>): (r: seq<int>)
    ensures |r| == |s|
    ensures forall x :: x in r <==> x in s
  {
    if s == [] then []
    else
      var init := s[..|s| - 1];
      assert forall y :: y in s <==> y in init || y == s[|s| - 1];
      [s[|s| - 1]] + Reversed(init)
  }

  /** No two different indices in s name overlapping circles. */
  predicate Independent(cs: seq<Circle>, s: seq<int>, overlaps: (Circle, Circle) -> bool)
    requires ValidIndices(s, |cs|)
  {
    forall x, y :: x in s && y in s && x != y ==> !overlaps(cs[x], cs[y])
  }

  /** Dropping the last entry of an independent worklist without
      repetitions leaves one, none of whose circles the last one overlaps. */
  lemma DropLastIndependent(cs: seq<Circle>, work: seq<int>, overlaps: (Circle, Circle) -> bool)
    requires ValidIndices(work, |cs|) && Distinct(work) && Independent(cs, work, overlaps)
    requires work != []
    ensures var i, rest := work[|work| - 1], work[..|work| - 1];
            Distinct(rest) && Independent(cs, rest, overlaps) &&
            forall x :: x in rest ==> !overlaps(cs[i], cs[x])
  {
    var last := |work| - 1;
    var i := work[last];
    var rest := work[..last];
    assert forall k :: 0 <= k < |rest| ==> rest[k] == work[k];
    assert forall x :: x in rest ==> x in work;
    forall x | x in rest
      ensures !overlaps(cs[i], cs[x])
    {
      var k :| 0 <= k < |rest| && rest[k] == x;
      assert work[k] == x && k < last;
    }
  }

  /** When no two different worklist circles overlap, every index is
      picked, last entry first. */
  lemma {:induction false} PicksKeepAll(cs: seq<Circle>, work: seq<int>, overlaps: (Circle, Circle) -> bool)
    requires ValidIndices(work, |cs|) && Distinct(work) && Independent(cs, work, overlaps)
    ensures Picks(cs, work, overlaps) == Reversed(work)
    decreases |work|
  {
    if work != [] {
      var last := |work| - 1;
      var i := work[last];
      var rest := work[..last];
      DropLastIndependent(cs, work, overlaps);
      NextWorklistKeepsAll(cs, i, rest, overlaps);
      PicksKeepAll(cs, rest, overlaps);
      PicksStep(cs, work, overlaps);
    }
  }

  /** The deletion test of the filter at threshold t, as a relation. */
  function OverlapTest(t: real): (Circle, Circle) -> bool
  {
    (a: Circle, b: Circle) => Suppresses(a, b, t)
  }

  /** Inserting n in front of the first entry with a smaller radius keeps
      a largest-first order. */
  lemma InsertDescending(cs: seq<Circle>, s: seq<int>, p: int, n: int)
    requires ValidIndices(s, |cs|) && Descending(cs, s) && 0 <= n < |cs| && 0 <= p <= |s|
    requires forall k :: 0 <= k < p ==> cs[s[k]].r >= cs[n].r
    requires p < |s| ==> cs[s[p]].r < cs[n].r
    ensures ValidIndices(s[..p] + [n] + s[p..], |cs|)
    ensures Descending(cs, s[..p] + [n] + s[p..])
  {
    var u := s[..p] + [n] + s[p..];
    assert forall k :: 0 <= k < p ==> u[k] == s[k];
    assert forall k :: p < k < |u| ==> u[k] == s[k - 1];
    forall a, b | 0 <= a < b < |u|
      ensures cs[u[a]].r >= cs[u[b]].r
    {
      if b == p {
        assert u[a] == s[a];
      } else if a == p {
        assert cs[s[p]].r >= cs[s[b - 1]].r;
      } else if a < p < b {
        assert cs[s[a]].r >= cs[s[b - 1]].r;
      }
    }
  }

  /** Inserting a new index anywhere keeps the entries distinct and adds
      exactly that index. */
  lemma InsertDistinct(s: seq<int>, p: int, n: int)
    requires Distinct(s) && n !in s && 0 <= p <= |s|
    ensures Distinct(s[..p] + [n] + s[p..])
    ensures forall x :: x in s[..p] + [n] + s[p..] <==> x in s || x == n
  {
    var u := s[..p] + [n] + s[p..];
    assert |u| == |s| + 1;
    assert forall k :: 0 <= k < p ==> u[k] == s[k];
    assert u[p] == n;
    assert forall k :: p < k < |u| ==> u[k] == s[k - 1];
    forall a, b | 0 <= a < b < |u|
      ensures u[a] != u[b]
    {
      if a == p {
        assert u[b] == s[b - 1];
      } else if b == p {
        assert u[a] == s[a];
      } else {
        var a', b' := if a < p then a else a - 1, if b < p then b else b - 1;
        assert u[a] == s[a'] && u[b] == s[b'] && a' < b';
      }
    }
    forall x | x in s
      ensures x in u
    {
      var k :| 0 <= k < |s| && s[k] == x;
      if k < p {
        assert u[k] == x;
      } else {
        assert u[k + 1] == x;
      }
    }
    forall x | x in u
      ensures x in s || x == n
    {
      var k :| 0 <= k < |u| && u[k] == x;
      if k < p {
        assert s[k] == x;
      } else if k > p {
        assert s[k - 1] == x;
      }
    }
  }

  /** Where index n goes in the largest-first list s: after every entry
      whose radius is at least cs[n].r, before the first smaller one. */
  function InsertPos(cs: seq<Circle>, s: seq<int>, n: int): (p: int)
    requires ValidIndices(s, |cs|) && 0 <= n < |cs|
    ensures 0 <= p <= |s|
    ensures forall k :: 0 <= k < p ==> cs[s[k]].r >= cs[n].r
    ensures p < |s| ==> cs[s[p]].r < cs[n].r
    decreases |s|
  {
    if s == [] || cs[s[0]].r < cs[n].r then 0
    else
      var p := InsertPos(cs, s[1..], n);
      assert forall k :: 0 < k <= p ==> s[k] == s[1..][k - 1];
      1 + p
  }

  /** np.argsort(r)[::-1] restricted to the first n circles: their indices,
      largest radius first. The order among equal radii is one of those
      the sort may produce; the filter's contract holds for every one. */
  function RadiusOrder(cs: seq<Circle>, n: int): (order: seq<int>)
    requires 0 <= n <= |cs|
    ensures |order| == n && ValidIndices(order, n) && ValidIndices(order, |cs|)
    ensures forall x :: 0 <= x < n ==> x in order
    ensures Distinct(order) && Descending(cs, order)
  {
    if n == 0 then []
    else
      var s := RadiusOrder(cs, n - 1);
      var p := InsertPos(cs, s, n - 1);
      assert n - 1 !in s;
      InsertDescending(cs, s, p, n - 1);
      InsertDistinct(s, p, n - 1);
      var order := s[..p] + [n - 1] + s[p..];
      assert forall k :: 0 <= k < |order| ==> order[k] in s || order[k] == n - 1;
      order
  }

  /** The worklist loop: while indices remain, pick the last one and
      delete it and every index it suppresses (overlaps is the deletion
      test; the filter passes OverlapTest(t)). */
  method PickLoop(circles: seq<Circle>, order: seq<int>, overlaps: (Circle, Circle) -> bool)
      returns (picked: seq<int>)
    requires ValidIndices(order, |circles|)
    ensures picked == Picks(circles, order, overlaps)
  {
    var idxs := order;
    picked := [];
    while |idxs| > 0
      invariant ValidIndices(idxs, |circles|)
      invariant Picks(circles, order, overlaps) == picked + Picks(circles, idxs, overlaps)
      decreases |idxs|
    {
      var last := |idxs| - 1;
      var i := idxs[last];
      InitValid(idxs, |circles|);
      var next := NextWorklist(circles, i, idxs[..last], overlaps);
      PicksStep(circles, idxs, overlaps);
      ConcatAssoc(picked, [i], Picks(circles, next, overlaps));
      picked := picked + [i];
      idxs := next;
    }
  }

  /** Concatenation regroups freely. */
  lemma ConcatAssoc(a: seq<int>, b: seq<int>, c: seq<int>)
    ensures a + (b + c) == (a + b) + c
  {
  }

  /** A worklist without its last entry still indexes cs. */
  lemma InitValid(s: seq<int>, n: int)
    requires ValidIndices(s, n) && s != []
    ensures ValidIndices(s[..|s| - 1], n)
  {
  }

  /** What non_max_suppression returns for a given radius order: the picked
      circles, unchanged, in pick order. */
  function Survivors(cs: seq<Circle>, order: seq<int>, t: real): (kept: seq<Circle>)
    requires ValidIndices(order, |cs|)
    ensures |kept| <= |order|
    ensures forall c :: c in kept ==> c in cs
  {
    var pick := Picks(cs, order, OverlapTest(t));
    var kept := Gather(cs, pick);
    assert forall c :: c in kept ==> exists k :: 0 <= k < |pick| && c == cs[pick[k]];
    kept
  }

  /** The survivors come out smallest radius first. */
  lemma SurvivorsAscending(cs: seq<Circle>, order: seq<int>, t: real)
    requires IsRadiusOrder(cs, order)
    ensures var kept := Survivors(cs, order, t);
            forall a, b :: 0 <= a < b < |kept| ==> kept[a].r <= kept[b].r
  {
    var pick := Picks(cs, order, OverlapTest(t));
    PicksAscending(cs, order, OverlapTest(t));
    assert forall a, b :: 0 <= a < b < |pick| ==> cs[pick[a]].r <= cs[pick[b]].r;
  }

  /** No two survivors suppress each other: their overlap ratio is at most
      the threshold (or undefined, for two zero radii), from either side. */
  lemma SurvivorsSeparated(cs: seq<Circle>, order: seq<int>, t: real)
    requires IsRadiusOrder(cs, order)
    ensures var kept := Survivors(cs, order, t);
            forall a, b :: 0 <= a < |kept| && 0 <= b < |kept| && a != b ==> !Suppresses(kept[a], kept[b], t)
  {
    var pick := Picks(cs, order, OverlapTest(t));
    var kept := Survivors(cs, order, t);
    PicksSeparated(cs, order, OverlapTest(t));
    forall a, b | 0 <= a < |kept| && 0 <= b < |kept| && a != b
      ensures !Suppresses(kept[a], kept[b], t)
    {
      if a < b {
        assert !OverlapTest(t)(cs[pick[a]], cs[pick[b]]);
      } else {
        assert !OverlapTest(t)(cs[pick[b]], cs[pick[a]]);
        SuppressesSymmetric(kept[a], kept[b], t);
      }
    }
  }

  /** Every candidate that does not survive was deleted because a picked
      circle's overlap ratio with it exceeded the threshold. */
  lemma SurvivorsCover(cs: seq<Circle>, order: seq<int>, t: real, j: int)
    requires IsRadiusOrder(cs, order) && 0 <= j < |cs|
    ensures var pick := Picks(cs, order, OverlapTest(t));
            j in pick || exists p :: p in pick && Suppresses(cs[p], cs[j], t)
  {
    PicksCover(cs, order, OverlapTest(t), j);
  }

  /** non_max_suppression(circles, overlapThresh). The ghost results expose
      the radius order the sort produced and the picked indices. */
  method NonMaxSuppression(circles: seq<Circle>, t: real)
      returns (kept: seq<Circle>, ghost order: seq<int>, ghost pick: seq<int>)
    ensures IsRadiusOrder(circles, order)
    ensures pick == Picks(circles, order, OverlapTest(t)) && Distinct(pick)
    ensures kept == Survivors(circles, order, t)
    ensures circles == [] ==> kept == []
    ensures |kept| <= |circles|
    ensures forall c :: c in kept ==> c in circles
    ensures forall a, b :: 0 <= a < b < |kept| ==> kept[a].r <= kept[b].r
    ensures forall a, b :: 0 <= a < |kept| && 0 <= b < |kept| && a != b ==>
              !Suppresses(kept[a], kept[b], t)
    ensures forall j :: 0 <= j < |circles| ==>
              j in pick || exists p :: p in pick && Suppresses(circles[p], circles[j], t)
  {
    if |circles| == 0 {
      order, pick := [], [];
      return [], order, pick;
    }
    var idxs := RadiusOrder(circles, |circles|);
    order := idxs;
    var picked := PickLoop(circles, idxs, OverlapTest(t));
    pick := picked;
    kept := Gather(circles, picked);
    PicksDistinct(circles, order, OverlapTest(t));
    SurvivorsAscending(circles, order, t);
    SurvivorsSeparated(circles, order, t);
    forall j | 0 <= j < |circles|
      ensures j in pick || exists p :: p in pick && Suppresses(circles[p], circles[j], t)
    {
      SurvivorsCover(circles, order, t, j);
    }
  }

  /** The deletion test is symmetric, whatever the threshold. */
  lemma OverlapTestSymmetric(t: real)
    ensures Symmetric(OverlapTest(t))
  {
    forall a, b | OverlapTest(t)(a, b)
      ensures OverlapTest(t)(b, a)
    {
      SuppressesSymmetric(a, b, t);
    }
  }

  ghost predicate Symmetric(overlaps: (Circle, Circle) -> bool)
  {
    forall a, b :: overlaps(a, b) ==> overlaps(b, a)
  }

  /** Picked circles are pairwise apart under a symmetric test, so as a
      candidate list of their own no two of them overlap. */
  lemma {:induction false} GatherIndependent(cs: seq<Circle>, pick: seq<int>, overlaps: (Circle, Circle) -> bool)
    requires ValidIndices(pick, |cs|) && Separated(cs, pick, overlaps) && Symmetric(overlaps)
    ensures forall a, b :: 0 <= a < |pick| && 0 <= b < |pick| && a != b ==>
              !overlaps(Gather(cs, pick)[a], Gather(cs, pick)[b])
  {
    var kept := Gather(cs, pick);
    forall a, b | 0 <= a < |pick| && 0 <= b < |pick| && a != b
      ensures !overlaps(kept[a], kept[b])
    {
      if a < b {
        assert !overlaps(cs[pick[a]], cs[pick[b]]);
      } else {
        assert !overlaps(cs[pick[b]], cs[pick[a]]);
      }
    }
  }

  /** The kept circles, listed by a radius order of their own, are
      pairwise apart. */
  lemma KeptIndependent(cs: seq<Circle>, order: seq<int>, overlaps: (Circle, Circle) -> bool, order2: seq<int>)
    requires IsRadiusOrder(cs, order) && Symmetric(overlaps)
    requires IsRadiusOrder(Gather(cs, Picks(cs, order, overlaps)), order2)
    ensures Independent(Gather(cs, Picks(cs, order, overlaps)), order2, overlaps)
  {
    var pick := Picks(cs, order, overlaps);
    PicksSeparated(cs, order, overlaps);
    GatherIndependent(cs, pick, overlaps);
  }

  /** The indices 0 .. n - 1, in increasing order. */
  function Range(n: nat): (r: seq<int>)
    ensures |r| == n && forall k :: 0 <= k < n ==> r[k] == k
  {
    seq(n, k => k)
  }

  /** Reversing a list does not change how often each entry occurs. */
  lemma {:induction false} ReversedMultiset(s: seq<int>)
    ensures multiset(Reversed(s)) == multiset(s)
    decreases |s|
  {
    if s != [] {
      var init := s[..|s| - 1];
      ReversedMultiset(init);
      assert s == init + [s[|s| - 1]];
    }
  }

  /** An entry of a list without repetitions occurs in it at most once. */
  lemma {:induction false} DistinctCount(s: seq<int>, x: int)
    requires Distinct(s)
    ensures multiset(s)[x] <= 1
    decreases |s|
  {
    if s != [] {
      var tail := s[1..];
      assert forall k :: 0 <= k < |tail| ==> tail[k] == s[k + 1];
      assert Distinct(tail);
      DistinctCount(tail, x);
      assert s == [s[0]] + tail;
      if x == s[0] {
        assert x !in tail;
      }
    }
  }

  /** A list of distinct indices below n that names each of them holds each
      exactly once, as 0 .. n - 1 does. */
  lemma PermutationOfRange(p: seq<int>, n: nat)
    requires ValidIndices(p, n) && Distinct(p) && forall x :: 0 <= x < n ==> x in p
    ensures multiset(p) == multiset(Range(n))
  {
    var r := Range(n);
    forall x
      ensures multiset(p)[x] == multiset(r)[x]
    {
      DistinctCount(p, x);
      DistinctCount(r, x);
      if 0 <= x < n {
        assert x in p && r[x] == x;
      } else {
        assert x !in p;
        assert x !in r;
      }
    }
  }

  /** Taking one entry out of a list takes one occurrence out of its
      multiset. */
  lemma RemoveOne<T>(s: seq<T>, k: int)
    requires 0 <= k < |s|
    ensures multiset(s) == multiset(s[..k] + s[k + 1..]) + multiset{s[k]}
  {
    assert s == s[..k] + [s[k]] + s[k + 1..];
  }

  /** Two multisets that agree once the same element is added to each
      agreed before. */
  lemma MultisetCancel<T>(a: multiset<T>, b: multiset<T>, x: T)
    requires a + multiset{x} == b + multiset{x}
    ensures a == b
  {
    forall y
      ensures a[y] == b[y]
    {
      assert (a + multiset{x})[y] == (b + multiset{x})[y];
    }
  }

  /** Taking one index out of a pick list takes its circle out of what is
      gathered. */
  lemma GatherRemoveOne(cs: seq<Circle>, q: seq<int>, k: int)
    requires ValidIndices(q, |cs|) && 0 <= k < |q|
    ensures ValidIndices(q[..k] + q[k + 1..], |cs|)
    ensures multiset(Gather(cs, q)) == multiset(Gather(cs, q[..k] + q[k + 1..])) + multiset{cs[q[k]]}
  {
    var g := Gather(cs, q);
    assert Gather(cs, q[..k] + q[k + 1..]) == g[..k] + g[k + 1..];
    RemoveOne(g, k);
  }

  /** Index lists holding the same entries, counted, gather the same
      circles, counted. */
  lemma {:induction false} GatherMultiset(cs: seq<Circle>, p: seq<int>, q: seq<int>)
    requires ValidIndices(p, |cs|) && ValidIndices(q, |cs|) && multiset(p) == multiset(q)
    ensures multiset(Gather(cs, p)) == multiset(Gather(cs, q))
    decreases |p|
  {
    if p == [] {
      assert |q| == |multiset(q)| == 0;
    } else {
      var x := p[0];
      assert x in multiset(q);
      var k :| 0 <= k < |q| && q[k] == x;
      var rest := q[..k] + q[k + 1..];
      assert p == [x] + p[1..];
      RemoveOne(q, k);
      assert multiset(p[1..]) + multiset{x} == multiset(rest) + multiset{x};
      MultisetCancel(multiset(p[1..]), multiset(rest), x);
      assert p[..0] + p[1..] == p[1..];
      GatherRemoveOne(cs, p, 0);
      GatherRemoveOne(cs, q, k);
      GatherMultiset(cs, p[1..], rest);
    }
  }

  /** Gathering 0 .. |cs| - 1 gives cs back. */
  lemma GatherRange(cs: seq<Circle>)
    ensures Gather(cs, Range(|cs|)) == cs
  {
  }

  /** A radius order of cs gathers every circle of cs, each as often as it
      occurs in cs. */
  lemma GatherRadiusOrder(cs: seq<Circle>, order: seq<int>)
    requires IsRadiusOrder(cs, order)
    ensures multiset(Gather(cs, order)) == multiset(cs)
  {
    PermutationOfRange(order, |cs|);
    GatherMultiset(cs, order, Range(|cs|));
    GatherRange(cs);
  }

  /** Running the filter again on what it kept keeps everything, in any
      largest-first order of the kept circles: the second result is a
      permutation of the first. */
  lemma {:induction false} RerunKeepsAll(cs: seq<Circle>, order: seq<int>, overlaps: (Circle, Circle) -> bool, order2: seq<int>)
    requires IsRadiusOrder(cs, order) && Symmetric(overlaps)
    requires IsRadiusOrder(Gather(cs, Picks(cs, order, overlaps)), order2)
    ensures var kept := Gather(cs, Picks(cs, order, overlaps));
            multiset(Gather(kept, Picks(kept, order2, overlaps))) == multiset(kept)
  {
    var kept := Gather(cs, Picks(cs, order, overlaps));
    KeptIndependent(cs, order, overlaps, order2);
    PicksKeepAll(kept, order2, overlaps);
    var pick2 := Picks(kept, order2, overlaps);
    ReversedMultiset(order2);
    GatherMultiset(kept, pick2, order2);
    GatherRadiusOrder(kept, order2);
  }

  /** The filter is idempotent up to the order among equal radii: re-running
      it on its result returns the same circles, each as often as before. */
  lemma Idempotent(cs: seq<Circle>, order: seq<int>, t: real, order2: seq<int>)
    requires IsRadiusOrder(cs, order)
    requires IsRadiusOrder(Survivors(cs, order, t), order2)
    ensures var kept := Survivors(cs, order, t);
            multiset(Survivors(kept, order2, t)) == multiset(kept)
  {
    OverlapTestSymmetric(t);
    RerunKeepsAll(cs, order, OverlapTest(t), order2);
  }
}
