// The top-1 recall curve, computed from sorted ranks in one tool and by suffix increments in
// another: the same non-decreasing curve.
module RecallCurve {
  import opened Sorting

  predicate SeenBy(row: seq<int>, g: int, k: nat)
    requires k <= |row|
  {
    g in row[..k]
  }

  // Queries among the first n whose true neighbour is among the first k results.
  function HitsAt(gt: seq<int>, rows: seq<seq<int>>, k: nat, n: nat): (h: nat)
    requires n <= |gt| && n <= |rows| && forall q | 0 <= q < n :: k <= |rows[q]|
    ensures h <= n
  {
    if n == 0 then 0 else HitsAt(gt, rows, k, n - 1) + (if SeenBy(rows[n - 1], gt[n - 1], k) then 1 else 0)
  }

  function Share(h: nat, n: nat): real
    requires n > 0
  {
    (h as real) / (n as real)
  }

  // Both curves' k-th entry (from 0).
  ghost predicate IsCurve(curve: seq<real>, gt: seq<int>, rows: seq<seq<int>>, k: nat) {
    && 0 < |rows| <= |gt| && (forall q | 0 <= q < |rows| :: |rows[q]| == k)
    && |curve| == k && forall i | 0 <= i < k :: curve[i] == Share(HitsAt(gt, rows, i + 1, |rows|), |rows|)
  }

  lemma {:induction false} HitsGrow(gt: seq<int>, rows: seq<seq<int>>, k: nat, k': nat, n: nat)
    requires n <= |gt| && n <= |rows| && k <= k' && forall q | 0 <= q < n :: k' <= |rows[q]|
    ensures HitsAt(gt, rows, k, n) <= HitsAt(gt, rows, k', n)
  {
    if n > 0 {
      HitsGrow(gt, rows, k, k', n - 1);
      var row := rows[n - 1];
      assert forall i | 0 <= i < k :: row[..k][i] == row[..k'][i];
    }
  }

  // The curve lies between 0 and 1 and never falls.
  lemma CurveShape(curve: seq<real>, gt: seq<int>, rows: seq<seq<int>>, k: nat, i: nat, j: nat)
    requires IsCurve(curve, gt, rows, k) && i <= j < k
    ensures 0.0 <= curve[i] <= curve[j] <= 1.0
  {
    HitsGrow(gt, rows, i + 1, j + 1, |rows|);
    ShareOrder(0, HitsAt(gt, rows, i + 1, |rows|), |rows|);
    ShareOrder(HitsAt(gt, rows, i + 1, |rows|), HitsAt(gt, rows, j + 1, |rows|), |rows|);
    ShareOrder(HitsAt(gt, rows, j + 1, |rows|), |rows|, |rows|);
  }

  lemma ShareOrder(a: nat, b: nat, n: nat)
    requires a <= b <= n && n > 0
    ensures 0.0 <= Share(a, n) <= Share(b, n) <= 1.0
  {
    var x := n as real;
    var d, e := Share(b, n) - Share(a, n), 1.0 - Share(b, n);
    assert Share(a, n) * x == a as real && Share(b, n) * x == b as real;
    assert d * x >= 0.0 && e * x >= 0.0;
    assert d < 0.0 ==> d * x < 0.0;
    assert e < 0.0 ==> e * x < 0.0;
  }

  // Entry i is the share of the queries whose true neighbour is among their first i + 1 results.
  lemma CurveMeans(curve: seq<real>, gt: seq<int>, rows: seq<seq<int>>, k: nat, i: nat)
    requires IsCurve(curve, gt, rows, k) && i < k
    ensures curve[i] * (|rows| as real) == |set q | 0 <= q < |rows| && gt[q] in rows[q][..i + 1]| as real
  {
    SeenQueries(gt, rows, i + 1);
    ShareTimes(HitsAt(gt, rows, i + 1, |rows|), |rows|);
  }

  lemma ShareTimes(h: nat, n: nat)
    requires n > 0
    ensures Share(h, n) * (n as real) == h as real
  {
  }

  lemma SeenQueries(gt: seq<int>, rows: seq<seq<int>>, k: nat)
    requires |rows| <= |gt| && forall q | 0 <= q < |rows| :: k <= |rows[q]|
    ensures HitsAt(gt, rows, k, |rows|) == |set q | 0 <= q < |rows| && gt[q] in rows[q][..k]|
  {
    HitsTally(gt, rows, k, |rows|);
    TallyIsSize(IsSeen(gt, rows, k), |rows|);
    assert (set q | 0 <= q < |rows| && IsSeen(gt, rows, k)(q)) == set q | 0 <= q < |rows| && gt[q] in rows[q][..k];
  }

  function IsSeen(gt: seq<int>, rows: seq<seq<int>>, k: nat): int -> bool {
    (q: int) => 0 <= q < |gt| && q < |rows| && k <= |rows[q]| && gt[q] in rows[q][..k]
  }

  lemma {:induction false} HitsTally(gt: seq<int>, rows: seq<seq<int>>, k: nat, n: nat)
    requires n <= |gt| && n <= |rows| && forall q | 0 <= q < |rows| :: k <= |rows[q]|
    ensures HitsAt(gt, rows, k, n) == Tally(IsSeen(gt, rows, k), n)
  {
    if n > 0 {
      HitsTally(gt, rows, k, n - 1);
    }
  }

  // The two tools agree wherever both give a curve.
  lemma CurvesAgree(a: seq<real>, b: seq<real>, gt: seq<int>, rows: seq<seq<int>>, k: nat)
    requires IsCurve(a, gt, rows, k) && IsCurve(b, gt, rows, k)
    ensures a == b
  {
  }

  // ---- From sorted ranks ----

  function IntLess(): (int, int) -> bool {
    (a: int, b: int) => a < b
  }

  function CountLe(s: seq<int>, x: int): (c: nat)
    ensures c <= |s|
  {
    if s == [] then 0 else (if s[0] <= x then 1 else 0) + CountLe(s[1..], x)
  }

  lemma {:induction false} CountInsert(x: int, s: seq<int>, b: int)
    ensures CountLe(InsertSorted(IntLess(), x, s), b) == (if x <= b then 1 else 0) + CountLe(s, b)
  {
    if s == [] || !IntLess()(s[0], x) {
      assert ([x] + s)[1..] == s;
    } else {
      CountInsert(x, s[1..], b);
      assert ([s[0]] + InsertSorted(IntLess(), x, s[1..]))[1..] == InsertSorted(IntLess(), x, s[1..]);
    }
  }

  lemma {:induction false} CountSorted(s: seq<int>, b: int)
    ensures CountLe(Sort(IntLess(), s), b) == CountLe(s, b)
  {
    if s != [] {
      CountSorted(s[1..], b);
      CountInsert(s[0], Sort(IntLess(), s[1..]), b);
    }
  }

  lemma {:induction false} CountAppend(s: seq<int>, x: int, b: int)
    ensures CountLe(s + [x], b) == CountLe(s, b) + (if x <= b then 1 else 0)
  {
    if s == [] {
      assert s + [x] == [x];
    } else {
      CountAppend(s[1..], x, b);
      assert (s + [x])[1..] == s[1..] + [x];
    }
  }

  // All entries before the cut are at most b, all from it on above b.
  lemma {:induction false} CountCut(s: seq<int>, idx: nat, b: int)
    requires idx <= |s| && (forall j | 0 <= j < idx :: s[j] <= b) && forall j | idx <= j < |s| :: s[j] > b
    ensures CountLe(s, b) == idx
    decreases s
  {
    if s != [] {
      CountCut(s[1..], if idx > 0 then idx - 1 else 0, b);
    }
  }

  // 1-based position of the first g, or one past the row.
  ghost predicate IsRank(row: seq<int>, g: int, r: nat) {
    (r == |row| + 1 && g !in row) || (1 <= r <= |row| && row[r - 1] == g && g !in row[..r - 1])
  }

  lemma RankTest(row: seq<int>, g: int, k: nat, r: nat)
    requires k <= |row| && IsRank(row, g, r)
    ensures r <= k <==> SeenBy(row, g, k)
  {
    assert r <= k ==> row[..k][r - 1] == g;
    assert forall i | 0 <= i < k :: row[..k][i] == row[i] && (i < r - 1 <= |row| ==> row[..r - 1][i] == row[i]);
  }

  method FindRank(row: seq<int>, g: int) returns (r: nat)
    ensures IsRank(row, g, r)
  {
    r := |row| + 1;
    for i := 0 to |row|
      invariant r == |row| + 1 && g !in row[..i]
    {
      if row[i] == g {
        r := i + 1;
        break;
      }
    }
    assert row[..|row|] == row;
  }

  lemma {:induction false} RanksCount(gt: seq<int>, rows: seq<seq<int>>, ranks: seq<int>, k: nat, i: nat, n: nat)
    requires n <= |gt| && n <= |rows| && n <= |ranks| && i <= k
    requires forall q | 0 <= q < n :: |rows[q]| == k && ranks[q] >= 0 && IsRank(rows[q], gt[q], ranks[q])
    ensures CountLe(ranks[..n], i) == HitsAt(gt, rows, i, n)
  {
    if n > 0 {
      RanksCount(gt, rows, ranks, k, i, n - 1);
      RankTest(rows[n - 1], gt[n - 1], i, ranks[n - 1]);
      CountAppend(ranks[..n - 1], ranks[n - 1], i);
      assert ranks[..n] == ranks[..n - 1] + [ranks[n - 1]];
    }
  }

  // ComputeRecallCurveTop1: sorts the ranks and sweeps once. No curve on an empty or mismatched input.
  method ComputeRecallCurveTop1(gt: seq<int>, rows: seq<seq<int>>, k: nat) returns (recall: seq<real>)
    requires forall q | 0 <= q < |rows| :: |rows[q]| == k
    ensures k == 0 || rows == [] || |gt| != |rows| ==> recall == []
    ensures k > 0 && rows != [] && |gt| == |rows| ==> IsCurve(recall, gt, rows, k)
  {
    if k <= 0 || |rows| <= 0 || |gt| != |rows| {
      return [];
    }
    var ranks: seq<int> := [];
    for q := 0 to |rows|
      invariant |ranks| == q && forall j | 0 <= j < q :: ranks[j] >= 0 && IsRank(rows[j], gt[j], ranks[j])
    {
      var r := FindRank(rows[q], gt[q]);
      ranks := ranks + [r];
    }
    recall := SweepRanks(gt, rows, k, ranks);
  }

  lemma IntTotal()
    ensures StrictTotal(IntLess())
  {
  }

  // Moves past the ranks of at most i.
  method PassRanks(sorted: seq<int>, i: int, count0: nat, idx0: nat) returns (count: nat, idx: nat)
    requires Sorted(IntLess(), sorted) && count0 == idx0 <= |sorted| && forall j | 0 <= j < idx0 :: sorted[j] <= i
    ensures count == idx == CountLe(sorted, i) && forall j | 0 <= j < idx :: sorted[j] <= i
  {
    count, idx := count0, idx0;
    while idx < |sorted| && sorted[idx] <= i
      invariant count == idx <= |sorted| && forall j | 0 <= j < idx :: sorted[j] <= i
    {
      count, idx := count + 1, idx + 1;
    }
    assert forall j | idx < j < |sorted| :: !IntLess()(sorted[j], sorted[idx]);
    CountCut(sorted, idx, i);
  }

  method SweepRanks(gt: seq<int>, rows: seq<seq<int>>, k: nat, ranks: seq<int>) returns (recall: seq<real>)
    requires k > 0 && rows != [] && |gt| == |rows| == |ranks| && forall q | 0 <= q < |rows| :: |rows[q]| == k
    requires forall q | 0 <= q < |rows| :: ranks[q] >= 0 && IsRank(rows[q], gt[q], ranks[q])
    ensures IsCurve(recall, gt, rows, k)
  {
    hide IsRank, Sort, CountLe, HitsAt, Share;
    ghost var n := |rows|;
    IntTotal();
    SortSorts(IntLess(), ranks);
    SortPermutes(IntLess(), ranks);
    var sorted := Sort(IntLess(), ranks);
    recall := seq(k, _ => 0.0);
    var count, idx := 0, 0;
    for i := 1 to k + 1
      invariant |recall| == k && count == idx <= |sorted| && forall j | 0 <= j < idx :: sorted[j] <= i - 1
      invariant forall j | 0 <= j < i - 1 :: recall[j] == Share(HitsAt(gt, rows, j + 1, n), n)
    {
      count, idx := PassRanks(sorted, i, count, idx);
      CountSorted(ranks, i);
      assert ranks[..n] == ranks;
      RanksCount(gt, rows, ranks, k, i, n);
      recall := recall[i - 1 := Share(count, |rows|)];
    }
  }

  // ---- By suffix increments ----

  predicate SeenThrough(row: seq<int>, g: int, j: nat)
    requires j < |row|
  {
    SeenBy(row, g, j + 1)
  }

  // One query's hit counts at every cut-off from its first hit on.
  method CountQuery(hits: array<nat>, row: seq<int>, g: int)
    requires hits.Length == |row|
    modifies hits
    ensures forall j | 0 <= j < hits.Length :: hits[j] == old(hits[j]) + (if SeenThrough(row, g, j) then 1 else 0)
  {
    hide SeenThrough;
    for i := 0 to |row|
      invariant forall p | 0 <= p < i :: row[p] != g
      invariant forall j | 0 <= j < hits.Length :: hits[j] == old(hits[j])
    {
      if row[i] == g {
        for j := i to |row|
          invariant forall p | 0 <= p < hits.Length :: hits[p] == old(hits[p]) + (if i <= p < j then 1 else 0)
        {
          hits[j] := hits[j] + 1;
        }
        FirstAt(row, g, i);
        return;
      }
    }
    FirstAt(row, g, |row|);
  }

  lemma FirstAt(row: seq<int>, g: int, i: nat)
    requires i <= |row| && (i < |row| ==> row[i] == g) && forall p | 0 <= p < i :: row[p] != g
    ensures forall j | 0 <= j < |row| :: SeenThrough(row, g, j) <==> j >= i
  {
    forall j | 0 <= j < |row|
      ensures SeenThrough(row, g, j) <==> j >= i
    {
      assert j >= i ==> row[..j + 1][i] == g;
    }
  }

  // RecallCurveTop1: zeros on an empty or too short input.
  method RecallCurveTop1(gt: seq<int>, rows: seq<seq<int>>, k: nat) returns (out: seq<real>)
    requires forall q | 0 <= q < |rows| :: |rows[q]| == k
    ensures k == 0 || rows == [] || |gt| < |rows| ==> out == seq(k, _ => 0.0)
    ensures k > 0 && rows != [] && |gt| >= |rows| ==> IsCurve(out, gt, rows, k)
  {
    out := seq(k, _ => 0.0);
    if k <= 0 || |rows| <= 0 || |gt| < |rows| {
      return;
    }
    var hits := new nat[k](_ => 0);
    for q := 0 to |rows|
      invariant forall j | 0 <= j < k :: hits[j] == HitsAt(gt, rows, j + 1, q)
    {
      CountQuery(hits, rows[q], gt[q]);
    }
    out := seq(k, i requires 0 <= i < k reads hits => Share(hits[i], |rows|));
  }
}
