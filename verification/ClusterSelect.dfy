// Choosing the clusters to probe: a fixed-size min-heap kept in two parallel arrays, with the
// hole moved instead of swapping entries.
module ClusterSelect {
  import opened Arith
  import opened Sorting

  datatype Entry = Entry(score: real, id: nat)

  // The first n entries of the two arrays.
  function View(scores: seq<real>, ids: seq<nat>, n: nat): (h: seq<Entry>)
    requires n <= |scores| && n <= |ids|
    ensures |h| == n && forall k | 0 <= k < n :: h[k] == Entry(scores[k], ids[k])
  {
    seq(n, k requires 0 <= k < n => Entry(scores[k], ids[k]))
  }

  ghost predicate IsMinHeap(h: seq<Entry>) {
    forall i | 0 < i < |h| :: h[Parent(i)].score <= h[i].score
  }

  // ---- Sifting, on values: x is placed by moving the hole i ----

  function SiftUp(h: seq<Entry>, i: nat, x: Entry): (r: seq<Entry>)
    requires i < |h|
    ensures |r| == |h|
    decreases i
  {
    if i == 0 || h[Parent(i)].score <= x.score then h[i := x]
    else SiftUp(h[i := h[Parent(i)]], Parent(i), x)
  }

  // The smaller child; the left one on a tie.
  function Child(h: seq<Entry>, i: nat): (c: nat)
    requires 2 * i + 1 < |h|
    ensures i < c < |h| && Parent(c) == i
  {
    if 2 * i + 2 < |h| && h[2 * i + 2].score < h[2 * i + 1].score then 2 * i + 2 else 2 * i + 1
  }

  function SiftDown(h: seq<Entry>, i: nat, x: Entry): (r: seq<Entry>)
    requires i < |h|
    ensures |r| == |h|
    decreases |h| - i
  {
    if 2 * i + 1 >= |h| || x.score <= h[Child(h, i)].score then h[i := x]
    else SiftDown(h[i := h[Child(h, i)]], Child(h, i), x)
  }

  lemma {:induction false} SiftUpPermutes(h: seq<Entry>, i: nat, x: Entry)
    requires i < |h|
    ensures multiset(SiftUp(h, i, x)) == multiset(h) - multiset{h[i]} + multiset{x}
    decreases i
  {
    if !(i == 0 || h[Parent(i)].score <= x.score) {
      SiftUpPermutes(h[i := h[Parent(i)]], Parent(i), x);
    }
  }

  lemma {:induction false} SiftDownPermutes(h: seq<Entry>, i: nat, x: Entry)
    requires i < |h|
    ensures multiset(SiftDown(h, i, x)) == multiset(h) - multiset{h[i]} + multiset{x}
    decreases |h| - i
  {
    if !(2 * i + 1 >= |h| || x.score <= h[Child(h, i)].score) {
      SiftDownPermutes(h[i := h[Child(h, i)]], Child(h, i), x);
    }
  }

  // Ordered apart from the hole.
  ghost predicate Around(h: seq<Entry>, i: nat) {
    forall k | 0 < k < |h| && k != i && Parent(k) != i :: h[Parent(k)].score <= h[k].score
  }

  // The hole's children are not below bound.
  ghost predicate ChildrenAbove(h: seq<Entry>, i: nat, bound: real) {
    forall k | 0 < k < |h| && Parent(k) == i :: bound <= h[k].score
  }

  lemma {:induction false} SiftUpHeap(h: seq<Entry>, i: nat, x: Entry)
    requires i < |h| && Around(h, i) && ChildrenAbove(h, i, x.score) && ChildrenAbove(h, i, h[Parent(i)].score)
    ensures IsMinHeap(SiftUp(h, i, x))
    decreases i
  {
    if i == 0 || h[Parent(i)].score <= x.score {
      Placed(h, i, x);
    } else {
      HoleUp(h, i, x);
      SiftUpHeap(h[i := h[Parent(i)]], Parent(i), x);
    }
  }

  lemma Placed(h: seq<Entry>, i: nat, x: Entry)
    requires i < |h| && Around(h, i) && ChildrenAbove(h, i, x.score)
    requires i == 0 || h[Parent(i)].score <= x.score
    ensures IsMinHeap(h[i := x])
  {
    var r := h[i := x];
    forall k | 0 < k < |r|
      ensures r[Parent(k)].score <= r[k].score
    {
      assert k != i && Parent(k) != i ==> h[Parent(k)].score <= h[k].score;
    }
  }

  lemma HoleUp(h: seq<Entry>, i: nat, x: Entry)
    requires 0 < i < |h| && Around(h, i) && ChildrenAbove(h, i, h[Parent(i)].score) && x.score < h[Parent(i)].score
    ensures var j, r := Parent(i), h[i := h[Parent(i)]];
      && j < i && Around(r, j) && ChildrenAbove(r, j, x.score) && ChildrenAbove(r, j, r[Parent(j)].score)
  {
    var j := Parent(i);
    assert j == 0 || h[Parent(j)].score <= h[j].score;
    forall k | 0 < k < |h| && Parent(k) == j && k != i
      ensures h[j].score <= h[k].score
    {
      assert Parent(k) != i;
    }
  }

  lemma {:induction false} SiftDownHeap(h: seq<Entry>, i: nat, x: Entry)
    requires i < |h| && Around(h, i)
    requires i > 0 ==> h[Parent(i)].score <= x.score && ChildrenAbove(h, i, h[Parent(i)].score)
    ensures IsMinHeap(SiftDown(h, i, x))
    decreases |h| - i
  {
    if 2 * i + 1 >= |h| || x.score <= h[Child(h, i)].score {
      LeastChild(h, i);
      Placed(h, i, x);
    } else {
      LeastChild(h, i);
      HoleDown(h, i, Child(h, i));
      SiftDownHeap(h[i := h[Child(h, i)]], Child(h, i), x);
    }
  }

  lemma LeastChild(h: seq<Entry>, i: nat)
    requires i < |h|
    ensures 2 * i + 1 < |h| ==> ChildrenAbove(h, i, h[Child(h, i)].score)
    ensures 2 * i + 1 >= |h| ==> forall bound :: ChildrenAbove(h, i, bound)
  {
    assert forall k: nat | k > 0 && Parent(k) == i :: k == 2 * i + 1 || k == 2 * i + 2;
  }

  lemma HoleDown(h: seq<Entry>, i: nat, c: nat)
    requires i < c < |h| && Parent(c) == i && Around(h, i) && ChildrenAbove(h, i, h[c].score)
    requires i > 0 ==> ChildrenAbove(h, i, h[Parent(i)].score)
    ensures var r := h[i := h[c]]; Around(r, c) && ChildrenAbove(r, c, r[i].score)
  {
    var r := h[i := h[c]];
    forall k | 0 < k < |h| && k != c && Parent(k) != c
      ensures r[Parent(k)].score <= r[k].score
    {
      assert Parent(k) < k;
      assert k != i && Parent(k) != i ==> h[Parent(k)].score <= h[k].score;
    }
  }

  lemma {:induction false} FrontIsLeast(h: seq<Entry>, k: nat)
    requires IsMinHeap(h) && k < |h|
    ensures h[0].score <= h[k].score
    decreases k
  {
    if k > 0 {
      FrontIsLeast(h, Parent(k));
    }
  }

  // ---- Sifting in the arrays ----

  method SiftUpMinHeap(heapScores: array<real>, heapIds: array<nat>, idx: nat)
    requires idx < heapScores.Length && idx < heapIds.Length
    modifies heapScores, heapIds
    ensures View(heapScores[..], heapIds[..], idx + 1) ==
      old(SiftUp(View(heapScores[..], heapIds[..], idx + 1), idx, Entry(heapScores[idx], heapIds[idx])))
    ensures heapScores[idx + 1..] == old(heapScores[idx + 1..]) && heapIds[idx + 1..] == old(heapIds[idx + 1..])
  {
    var s, id := heapScores[idx], heapIds[idx];
    var i := idx;
    ghost var x, n := Entry(s, id), idx + 1;
    ghost var goal := SiftUp(View(heapScores[..], heapIds[..], n), idx, x);
    while i > 0
      invariant i <= idx && SiftUp(View(heapScores[..], heapIds[..], n), i, x) == goal
      invariant heapScores[n..] == old(heapScores[n..]) && heapIds[n..] == old(heapIds[n..])
    {
      var parent := (i - 1) / 2;
      var ps := heapScores[parent];
      if ps <= s {
        break;
      }
      ghost var h := View(heapScores[..], heapIds[..], n);
      heapScores[i] := ps;
      heapIds[i] := heapIds[parent];
      assert View(heapScores[..], heapIds[..], n) == h[i := h[parent]];
      i := parent;
    }
    ghost var h := View(heapScores[..], heapIds[..], n);
    heapScores[i] := s;
    heapIds[i] := id;
    assert View(heapScores[..], heapIds[..], n) == h[i := x];
  }

  lemma DownStep(h: seq<Entry>, i: nat, x: Entry)
    requires i < |h|
    ensures 2 * i + 1 >= |h| ==> SiftDown(h, i, x) == h[i := x]
    ensures 2 * i + 1 < |h| && x.score <= h[Child(h, i)].score ==> SiftDown(h, i, x) == h[i := x]
    ensures 2 * i + 1 < |h| && x.score > h[Child(h, i)].score ==>
      SiftDown(h, i, x) == SiftDown(h[i := h[Child(h, i)]], Child(h, i), x)
  {
  }

  method SiftDownMinHeap(heapScores: array<real>, heapIds: array<nat>, size: nat, idx: nat)
    requires idx < size <= heapScores.Length && size <= heapIds.Length
    modifies heapScores, heapIds
    ensures View(heapScores[..], heapIds[..], size) ==
      old(SiftDown(View(heapScores[..], heapIds[..], size), idx, Entry(heapScores[idx], heapIds[idx])))
    ensures heapScores[size..] == old(heapScores[size..]) && heapIds[size..] == old(heapIds[size..])
  {
    hide SiftDown;
    var s, id := heapScores[idx], heapIds[idx];
    var i := idx;
    ghost var x := Entry(s, id);
    ghost var goal := SiftDown(View(heapScores[..], heapIds[..], size), idx, x);
    while true
      invariant i < size && SiftDown(View(heapScores[..], heapIds[..], size), i, x) == goal
      invariant heapScores[size..] == old(heapScores[size..]) && heapIds[size..] == old(heapIds[size..])
      decreases size - i
    {
      ghost var h := View(heapScores[..], heapIds[..], size);
      DownStep(h, i, x);
      var left := 2 * i + 1;
      if left >= size {
        break;
      }
      var right := left + 1;
      var child, cs := left, heapScores[left];
      if right < size {
        var rs := heapScores[right];
        if rs < cs {
          child, cs := right, rs;
        }
      }
      if s <= cs {
        break;
      }
      assert child == Child(h, i);
      heapScores[i] := cs;
      heapIds[i] := heapIds[child];
      assert View(heapScores[..], heapIds[..], size) == h[i := h[child]];
      i := child;
    }
    ghost var h := View(heapScores[..], heapIds[..], size);
    heapScores[i] := s;
    heapIds[i] := id;
    assert View(heapScores[..], heapIds[..], size) == h[i := x];
  }

  // ---- The selection ----

  function Scored(scores: seq<real>, u: nat): Entry
    requires u < |scores|
  {
    Entry(scores[u], u)
  }

  // A choice among the first c clusters: distinct, and none passed over beats a chosen one.
  ghost predicate Choice(m: multiset<Entry>, scores: seq<real>, c: nat) {
    && c <= |scores|
    && (forall e | e in m :: m[e] == 1 && e.id < c && e == Scored(scores, e.id))
    && (forall u, e | 0 <= u < c && Scored(scores, u) !in m && e in m :: scores[u] <= e.score)
  }

  lemma ChoiceGrows(m: multiset<Entry>, scores: seq<real>, c: nat)
    requires Choice(m, scores, c) && c < |scores| && forall u | 0 <= u < c :: Scored(scores, u) in m
    ensures Choice(m + multiset{Scored(scores, c)}, scores, c + 1)
    ensures forall u | 0 <= u < c + 1 :: Scored(scores, u) in m + multiset{Scored(scores, c)}
  {
  }

  lemma ChoiceSkips(m: multiset<Entry>, scores: seq<real>, c: nat, least: Entry)
    requires Choice(m, scores, c) && c < |scores| && least in m && forall e | e in m :: least.score <= e.score
    requires scores[c] <= least.score
    ensures Choice(m, scores, c + 1)
  {
  }

  lemma ChoiceReplaces(m: multiset<Entry>, scores: seq<real>, c: nat, least: Entry)
    requires Choice(m, scores, c) && c < |scores| && least in m && forall e | e in m :: least.score <= e.score
    requires scores[c] > least.score
    ensures Choice(m - multiset{least} + multiset{Scored(scores, c)}, scores, c + 1)
  {
    var m' := m - multiset{least} + multiset{Scored(scores, c)};
    assert Scored(scores, c) !in m;
    forall u, e | 0 <= u < c + 1 && Scored(scores, u) !in m' && e in m'
      ensures scores[u] <= e.score
    {
      assert e in m || e == Scored(scores, c);
      assert Scored(scores, u) in m ==> Scored(scores, u) == least;
    }
  }

  // The heap's state once c clusters have been seen.
  ghost predicate HeapOf(h: seq<Entry>, scores: seq<real>, c: nat, nprobe: nat) {
    && IsMinHeap(h) && |h| == Min(c, nprobe) && Choice(multiset(h), scores, c)
    && (c <= nprobe ==> forall u | 0 <= u < c :: Scored(scores, u) in multiset(h))
  }

  lemma HeapGrows(h: seq<Entry>, scores: seq<real>, c: nat, nprobe: nat, pushed: seq<Entry>)
    requires HeapOf(h, scores, c, nprobe) && c < |scores| && |h| < nprobe
    requires |pushed| == |h| + 1 && pushed[..|h|] == h && pushed[|h|] == Scored(scores, c)
    ensures HeapOf(SiftUp(pushed, |h|, Scored(scores, c)), scores, c + 1, nprobe)
  {
    hide Choice, SiftUp, IsMinHeap;
    var x := Scored(scores, c);
    SiftUpPermutes(pushed, |h|, x);
    PushedMembers(h, pushed, x);
    ChoiceGrows(multiset(h), scores, c);
    PushedAround(h, pushed, x);
    SiftUpHeap(pushed, |h|, x);
  }

  lemma PushedMembers(h: seq<Entry>, pushed: seq<Entry>, x: Entry)
    requires |pushed| == |h| + 1 && pushed[..|h|] == h && pushed[|h|] == x
    ensures multiset(pushed) - multiset{pushed[|h|]} + multiset{x} == multiset(h) + multiset{x}
  {
    assert pushed == h + [x];
  }

  lemma PushedAround(h: seq<Entry>, pushed: seq<Entry>, x: Entry)
    requires |pushed| == |h| + 1 && pushed[..|h|] == h && pushed[|h|] == x && IsMinHeap(h)
    ensures Around(pushed, |h|) && ChildrenAbove(pushed, |h|, x.score)
    ensures |h| > 0 ==> ChildrenAbove(pushed, |h|, pushed[Parent(|h|)].score)
  {
    forall k | 0 < k < |pushed| && k != |h| && Parent(k) != |h|
      ensures pushed[Parent(k)].score <= pushed[k].score
    {
      assert pushed[k] == h[k] && pushed[Parent(k)] == h[Parent(k)];
    }
  }

  lemma HeapSkips(h: seq<Entry>, scores: seq<real>, c: nat, nprobe: nat)
    requires HeapOf(h, scores, c, nprobe) && c < |scores| && |h| == nprobe > 0 && scores[c] <= h[0].score
    ensures HeapOf(h, scores, c + 1, nprobe)
  {
    hide Choice;
    LeastOf(h);
    ChoiceSkips(multiset(h), scores, c, h[0]);
  }

  lemma HeapReplaces(h: seq<Entry>, scores: seq<real>, c: nat, nprobe: nat)
    requires HeapOf(h, scores, c, nprobe) && c < |scores| && |h| == nprobe > 0 && scores[c] > h[0].score
    ensures HeapOf(SiftDown(h[0 := Scored(scores, c)], 0, Scored(scores, c)), scores, c + 1, nprobe)
  {
    hide Choice, SiftDown, Around, IsMinHeap;
    var x, r := Scored(scores, c), h[0 := Scored(scores, c)];
    LeastOf(h);
    SiftDownPermutes(r, 0, x);
    assert multiset(r) == multiset(h) - multiset{h[0]} + multiset{x};
    assert multiset(SiftDown(r, 0, x)) == multiset(h) - multiset{h[0]} + multiset{x};
    ChoiceReplaces(multiset(h), scores, c, h[0]);
    AroundRoot(h, x);
    SiftDownHeap(r, 0, x);
  }

  lemma AroundRoot(h: seq<Entry>, x: Entry)
    requires IsMinHeap(h) && |h| > 0
    ensures Around(h[0 := x], 0)
  {
    forall k | 0 < k < |h| && Parent(k) != 0
      ensures h[0 := x][Parent(k)].score <= h[0 := x][k].score
    {
      assert h[Parent(k)].score <= h[k].score;
    }
  }

  lemma LeastOf(h: seq<Entry>)
    requires IsMinHeap(h) && |h| > 0
    ensures h[0] in multiset(h) && forall e | e in multiset(h) :: h[0].score <= e.score
  {
    forall e | e in multiset(h)
      ensures h[0].score <= e.score
    {
      var k :| 0 <= k < |h| && h[k] == e;
      FrontIsLeast(h, k);
    }
  }

  // The chosen ids: distinct and in range, and no cluster left out scores above one chosen.
  ghost predicate TopChoice(ids: seq<nat>, scores: seq<real>) {
    && (forall k | 0 <= k < |ids| :: ids[k] < |scores|)
    && (forall j, k | 0 <= j < k < |ids| :: ids[j] != ids[k])
    && (forall u, k | 0 <= u < |scores| && u !in ids && 0 <= k < |ids| :: scores[u] <= scores[ids[k]])
  }

  lemma {:induction false} Twice(h: seq<Entry>, j: nat, k: nat)
    requires j < k < |h| && h[j] == h[k]
    ensures multiset(h)[h[j]] >= 2
  {
    assert h == h[..k] + h[k..] && h[..k][j] in h[..k] && h[k..][0] in h[k..];
    assert multiset(h) == multiset(h[..k]) + multiset(h[k..]);
  }

  lemma HeapIsChoice(h: seq<Entry>, scores: seq<real>, nprobe: nat, ids: seq<nat>)
    requires HeapOf(h, scores, |scores|, nprobe)
    requires |ids| == |h| && forall k | 0 <= k < |h| :: h[k].id == ids[k]
    ensures TopChoice(ids, scores)
    ensures nprobe >= |scores| ==> forall u | 0 <= u < |scores| :: u in ids
  {
    forall k | 0 <= k < |h|
      ensures h[k] in multiset(h) && h[k] == Entry(scores[ids[k]], ids[k])
    {
      assert h[k] in multiset(h);
    }
    forall j, k | 0 <= j < k < |ids|
      ensures ids[j] != ids[k]
    {
      if ids[j] == ids[k] {
        Twice(h, j, k);
      }
    }
    forall u | 0 <= u < |scores| && Scored(scores, u) in multiset(h)
      ensures u in ids
    {
      var k :| 0 <= k < |h| && h[k] == Scored(scores, u);
    }
  }

  // The number of clusters selected, and their ids in the first places of outIds.
  method SelectTopClustersByScore(scores: seq<real>, probes: int, outIds: array<nat>, heapScores: array<real>)
    returns (n: nat)
    requires probes <= outIds.Length && probes <= heapScores.Length
    modifies outIds, heapScores
    ensures n == if probes <= 0 then 0 else Min(probes, |scores|)
    ensures n <= outIds.Length && (n > 0 ==> TopChoice(outIds[..n], scores))
    ensures probes >= |scores| ==> forall u | 0 <= u < |scores| :: u in outIds[..n]
  {
    hide HeapOf, Choice;
    if |scores| <= 0 || probes <= 0 {
      return 0;
    }
    var nprobe := Min(probes, |scores|);
    n := 0;
    EmptyHeap(scores, nprobe);
    for cid := 0 to |scores|
      invariant n == Min(cid, nprobe) && HeapOf(View(heapScores[..], outIds[..], n), scores, cid, nprobe)
    {
      n := SelectStep(scores, nprobe, n, cid, outIds, heapScores);
    }
    ghost var h := View(heapScores[..], outIds[..], n);
    HeapIsChoice(h, scores, nprobe, outIds[..n]);
  }

  lemma EmptyHeap(scores: seq<real>, nprobe: nat)
    ensures HeapOf([], scores, 0, nprobe)
  {
  }

  // One cluster. When the heap is full, a cluster that does not score above the least kept one leaves it
  // as it is, also when it ties.
  method SelectStep(scores: seq<real>, nprobe: nat, size: nat, cid: nat, outIds: array<nat>, heapScores: array<real>)
    returns (n: nat)
    requires 0 < nprobe <= outIds.Length && nprobe <= heapScores.Length && cid < |scores|
    requires size == Min(cid, nprobe) && HeapOf(View(heapScores[..], outIds[..], size), scores, cid, nprobe)
    modifies outIds, heapScores
    ensures n == Min(cid + 1, nprobe) && HeapOf(View(heapScores[..], outIds[..], n), scores, cid + 1, nprobe)
    ensures size == nprobe && (forall k | 0 <= k < size :: scores[cid] <= old(heapScores[k])) ==>
      outIds[..] == old(outIds[..]) && heapScores[..] == old(heapScores[..])
  {
    hide HeapOf, Choice, SiftUp, SiftDown;
    var s := scores[cid];
    ghost var h := View(heapScores[..], outIds[..], size);
    if size < nprobe {
      heapScores[size] := s;
      outIds[size] := cid;
      ghost var pushed := View(heapScores[..], outIds[..], size + 1);
      assert pushed[..size] == h;
      HeapGrows(h, scores, cid, nprobe, pushed);
      SiftUpMinHeap(heapScores, outIds, size);
      return size + 1;
    }
    if s <= heapScores[0] {
      HeapSkips(h, scores, cid, nprobe);
      return size;
    }
    heapScores[0] := s;
    outIds[0] := cid;
    assert View(heapScores[..], outIds[..], size) == h[0 := Scored(scores, cid)];
    HeapReplaces(h, scores, cid, nprobe);
    SiftDownMinHeap(heapScores, outIds, size, 0);
    n := size;
  }
}
