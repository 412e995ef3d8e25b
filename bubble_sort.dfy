/** The bubble-sort trace generator: bubble sort on a private copy of the
    input, recording every comparison, every exchange and every position that
    becomes final. */
module BubbleSort {
  import opened Steps
  import opened Reconstruction
  import opened Sorting

  function CompareAt(j: nat): Step {
    Plain(Compare, [j, j + 1], 2)
  }

  function SortedAt(k: int, line: nat): Step {
    Plain(Sorted, [k], line)
  }

  /** The comparisons of one pass that stops before position m: [0,1], ..., [m-1,m]. */
  function PassCompares(m: nat): seq<Step>
  {
    if m == 0 then [] else PassCompares(m - 1) + [CompareAt(m - 1)]
  }

  /** The steps other than swaps of the first i outer passes on an array of
      length n: pass q compares the pairs below n-q-1 and then marks n-q-1. */
  function Passes(n: nat, i: nat): seq<Step>
    requires i <= n
  {
    if i == 0 then [] else Passes(n, i - 1) + PassCompares(n - i) + [SortedAt(n - i, 1)]
  }

  /** Every step but the swaps, for an array of length n: all passes, then the
      closing mark of index 0. */
  function BubblePlan(n: nat): seq<Step> {
    Passes(n, n) + [SortedAt(0, 5)]
  }

  /** A trace with its swap steps taken out. */
  function NonSwaps(t: seq<Step>): (r: seq<Step>)
    ensures forall p :: 0 <= p < |r| ==> r[p].kind != Swap
    decreases |t|
  {
    if t == [] then []
    else NonSwaps(t[..|t| - 1]) + (if Last(t).kind == Swap then [] else [Last(t)])
  }

  /** How a step `x` may follow the step `prev` when the displayed array is
      `a`: a swap only directly after the comparison of the same pair, shown
      at line 3 with no auxiliary data, and after a comparison of [i, j] a
      swap exactly when a[i] > a[j]. */
  predicate LinkOk(prev: Step, a: seq<int>, x: Step) {
    && (x.kind == Swap ==>
          prev.kind == Compare && x.indices == prev.indices
          && x.lineNo == Some(3) && x.auxiliary == None)
    && (prev.kind == Compare && |prev.indices| == 2
        && 0 <= prev.indices[0] < |a| && 0 <= prev.indices[1] < |a|
        ==> (x.kind == Swap <==> a[prev.indices[0]] > a[prev.indices[1]]))
  }

  /** Swaps appear exactly after the comparisons whose pair is out of order
      in the array shown at that point. */
  ghost predicate Linked(original: seq<int>, steps: seq<Step>) {
    && (steps != [] ==> steps[0].kind != Swap)
    && forall p :: 0 < p < |steps| ==> LinkOk(steps[p - 1], StateAt(original, steps, p - 1).arr, steps[p])
  }

  lemma NonSwapsSnoc(t: seq<Step>, x: Step)
    ensures NonSwaps(t + [x]) == NonSwaps(t) + (if x.kind == Swap then [] else [x])
  {
    assert (t + [x])[..|t|] == t;
  }

  /** What the generator guarantees of step p of its trace, read along the
      history `h` (entry p is the state the step is applied to): it is a
      comparison, swap or sorted mark; applying it gives entry p+1; a swap
      exchanges, touches no sorted index, and follows the out-of-order
      comparison of its pair. */
  ghost predicate StepOk(steps: seq<Step>, h: seq<State>, p: int) {
    && 0 <= p < |steps| && |h| == |steps| + 1
    && h[p + 1] == Apply(h[p], steps[p])
    && steps[p].kind in {Compare, Swap, Sorted}
    && (steps[p].kind == Swap ==> IsExchange(h[p].arr, steps[p]))
    && (Moves(steps[p]) ==> Elems(steps[p].indices) !! h[p].sorted)
    && (if p == 0 then steps[p].kind != Swap else LinkOk(steps[p - 1], h[p].arr, steps[p]))
  }

  /** The generator's record so far: `h` is the history of the trace, whose
      last state shows `a`, and every step is as `StepOk` says. */
  ghost predicate Recorded(original: seq<int>, steps: seq<Step>, h: seq<State>, a: seq<int>) {
    && |h| == |steps| + 1
    && h[0] == Initial(original)
    && h[|steps|].arr == a
    && forall p :: 0 <= p < |steps| ==> StepOk(steps, h, p)
  }

  /** Appending a step that fits keeps the record. */
  lemma Record(original: seq<int>, steps: seq<Step>, h: seq<State>, a: seq<int>, x: Step)
    requires Recorded(original, steps, h, a)
    requires x.kind in {Compare, Swap, Sorted}
    requires x.kind == Swap ==> IsExchange(a, x)
    requires Moves(x) ==> Elems(x.indices) !! h[|steps|].sorted
    requires steps == [] ==> x.kind != Swap
    requires steps != [] ==> LinkOk(Last(steps), a, x)
    ensures var h' := h + [Apply(h[|steps|], x)];
      Recorded(original, steps + [x], h', h'[|steps| + 1].arr)
  {
    var steps', h' := steps + [x], h + [Apply(h[|steps|], x)];
    forall p | 0 <= p < |steps'| ensures StepOk(steps', h', p) {
      assert h'[p] == h[p];
      if p < |steps| {
        assert StepOk(steps, h, p);
        assert steps'[p] == steps[p] && h'[p + 1] == h[p + 1];
        if p > 0 { assert steps'[p - 1] == steps[p - 1]; }
      } else if p > 0 {
        assert steps'[p - 1] == Last(steps);
      }
    }
  }

  /** The record, read through the reconstruction. */
  lemma RecordedMeans(original: seq<int>, steps: seq<Step>, h: seq<State>, a: seq<int>)
    requires Recorded(original, steps, h, a)
    ensures Exchanges(original, steps) && MarksKept(original, steps) && Linked(original, steps)
    ensures forall p :: 0 <= p < |steps| ==> steps[p].kind in {Compare, Swap, Sorted}
    ensures StateAt(original, steps, |steps| - 1) == h[|steps|]
  {
    assert History(original, steps, h) by {
      forall p | 0 <= p < |steps| ensures h[p + 1] == Apply(h[p], steps[p]) {
        assert StepOk(steps, h, p);
      }
    }
    HistoryIsStateAt(original, steps, h);
    forall p | 0 <= p < |steps|
      ensures steps[p].kind in {Compare, Swap, Sorted}
      ensures steps[p].kind == Swap ==> IsExchange(StateAt(original, steps, p - 1).arr, steps[p])
      ensures Moves(steps[p]) ==> Elems(steps[p].indices) !! StateAt(original, steps, p - 1).sorted
      ensures p > 0 ==> LinkOk(steps[p - 1], StateAt(original, steps, p - 1).arr, steps[p])
      ensures p == 0 ==> steps[p].kind != Swap
    {
      assert StepOk(steps, h, p);
    }
  }

  /** Removing the swaps keeps every other kind's count. */
  lemma {:induction false} NonSwapsCount(t: seq<Step>, k: StepKind)
    requires k != Swap
    ensures CountKind(NonSwaps(t), k) == CountKind(t, k)
    decreases |t|
  {
    if t != [] {
      var t' := t[..|t| - 1];
      NonSwapsCount(t', k);
      CountKindAppend(NonSwaps(t'), if Last(t).kind == Swap then [] else [Last(t)], k);
      CountKindSingle(Last(t), k);
    }
  }

  lemma {:induction false} PassComparesCount(m: nat)
    ensures CountKind(PassCompares(m), Compare) == m
    ensures CountKind(PassCompares(m), Sorted) == 0
  {
    if m > 0 {
      PassComparesCount(m - 1);
      CountKindAppend(PassCompares(m - 1), [CompareAt(m - 1)], Compare);
      CountKindAppend(PassCompares(m - 1), [CompareAt(m - 1)], Sorted);
      CountKindSingle(CompareAt(m - 1), Compare);
      CountKindSingle(CompareAt(m - 1), Sorted);
    }
  }

  /** The comparisons of the first i passes on n elements: n-1, n-2, ... */
  function ComparesBefore(n: nat, i: nat): int
    requires i <= n
  {
    if i == 0 then 0 else ComparesBefore(n, i - 1) + (n - i)
  }

  /** Pass q (numbered from 1) compares n-q pairs, so i passes compare
      i*(2n-i-1)/2 pairs. */
  lemma {:induction false} ComparesBeforeClosed(n: nat, i: nat)
    requires i <= n
    ensures 2 * ComparesBefore(n, i) == i * (2 * n - i - 1)
  {
    if i > 0 {
      ComparesBeforeClosed(n, i - 1);
      PassSumStep(n, i);
    }
  }

  lemma PassSumStep(n: int, i: int)
    ensures (i - 1) * (2 * n - (i - 1) - 1) + 2 * (n - i) == i * (2 * n - i - 1)
  {
  }

  lemma {:induction false} PassesCount(n: nat, i: nat)
    requires i <= n
    ensures CountKind(Passes(n, i), Compare) == ComparesBefore(n, i)
  {
    if i > 0 {
      PassesCount(n, i - 1);
      PassComparesCount(n - i);
      CountKindParts(Passes(n, i), Passes(n, i - 1), PassCompares(n - i), SortedAt(n - i, 1), Compare,
                     ComparesBefore(n, i - 1), n - i);
    }
  }

  lemma {:induction false} PassesMarks(n: nat, i: nat)
    requires i <= n
    ensures CountKind(Passes(n, i), Sorted) == i
  {
    if i > 0 {
      PassesMarks(n, i - 1);
      PassComparesCount(n - i);
      CountKindParts(Passes(n, i), Passes(n, i - 1), PassCompares(n - i), SortedAt(n - i, 1), Sorted, i - 1, 0);
    }
  }

  lemma PlanCounts(n: nat)
    ensures CountKind(BubblePlan(n), Compare) == n * (n - 1) / 2
    ensures CountKind(BubblePlan(n), Sorted) == n + 1
  {
    PassesCount(n, n);
    PassesMarks(n, n);
    ComparesBeforeClosed(n, n);
    CountKindSingle(SortedAt(0, 5), Compare);
    CountKindSingle(SortedAt(0, 5), Sorted);
    CountKindAppend(Passes(n, n), [SortedAt(0, 5)], Compare);
    CountKindAppend(Passes(n, n), [SortedAt(0, 5)], Sorted);
  }

  /** What holds of the working copy `a` and the trace before outer pass i:
      the trace so far is the plan of i passes with swaps placed as the
      comparisons demand, and the last i positions are final and marked. */
  ghost predicate BeforePass(original: seq<int>, a: seq<int>, steps: seq<Step>, h: seq<State>, i: nat) {
    && i <= |a| == |original|
    && Recorded(original, steps, h, a)
    && (steps != [] ==> Last(steps).kind == Sorted)
    && IsRange(h[|steps|].sorted, |a| - i, |a|)
    && multiset(a) == multiset(original)
    && AscendingBetween(a, |a| - i, |a|) && Split(a, |a| - i)
  }

  /** What holds inside outer pass i before comparing the pair [j, j+1]: the
      first j comparisons of the pass are done, the last step is not an
      out-of-order comparison, and a[j] is the largest of a[0..j]. */
  ghost predicate InPass(original: seq<int>, a: seq<int>, steps: seq<Step>, h: seq<State>, i: nat, j: nat) {
    && i < |a| == |original| && j <= |a| - i - 1
    && Recorded(original, steps, h, a)
    && (steps != [] ==>
        || Last(steps).kind in {Swap, Sorted}
        || (Last(steps).kind == Compare && Last(steps).indices == [j - 1, j] && 0 < j && a[j - 1] <= a[j]))
    && IsRange(h[|steps|].sorted, |a| - i, |a|)
    && multiset(a) == multiset(original)
    && (forall k :: 0 <= k < j ==> a[k] <= a[j])
    && AscendingBetween(a, |a| - i, |a|) && Split(a, |a| - i)
  }

  /** The pair [j, j+1] of `a` exchanged. */
  function SwapPair(a: seq<int>, j: nat): (r: seq<int>)
    requires j + 1 < |a|
    ensures |r| == |a| && r[j] == a[j + 1] && r[j + 1] == a[j]
    ensures forall k :: 0 <= k < |a| && k != j && k != j + 1 ==> r[k] == a[k]
  {
    a[j := a[j + 1]][j + 1 := a[j]]
  }

  /** Inside outer pass i, just after recording the comparison of [j, j+1]. */
  ghost predicate Compared(original: seq<int>, a: seq<int>, steps: seq<Step>, h: seq<State>, i: nat, j: nat) {
    && i < |a| == |original| && j < |a| - i - 1
    && Recorded(original, steps, h, a)
    && steps != [] && Last(steps) == CompareAt(j)
    && IsRange(h[|steps|].sorted, |a| - i, |a|)
    && multiset(a) == multiset(original)
    && (forall k :: 0 <= k < j ==> a[k] <= a[j])
    && AscendingBetween(a, |a| - i, |a|) && Split(a, |a| - i)
  }

  /** Recording the comparison (lines 12-17). */
  lemma CompareStep(original: seq<int>, a: seq<int>, steps: seq<Step>, h: seq<State>, i: nat, j: nat)
    requires j < |a| - i - 1
    requires InPass(original, a, steps, h, i, j)
    ensures Compared(original, a, steps + [CompareAt(j)], h + [Apply(h[|steps|], CompareAt(j))], i, j)
  {
    Record(original, steps, h, a, CompareAt(j));
  }

  lemma PlanSnoc(steps: seq<Step>, n: nat, i: nat, j: nat)
    requires i <= n && NonSwaps(steps) == Passes(n, i) + PassCompares(j)
    ensures NonSwaps(steps + [CompareAt(j)]) == Passes(n, i) + PassCompares(j + 1)
  {
    NonSwapsSnoc(steps, CompareAt(j));
    var P, C := Passes(n, i), PassCompares(j);
    assert P + C + [CompareAt(j)] == P + (C + [CompareAt(j)]);
  }

  /** The swap step of lines 20-30, carrying the values after the exchange. */
  function SwapAt(a: seq<int>, j: nat): Step
    requires j + 1 < |a|
  {
    Step(Swap, [j, j + 1], Some([a[j + 1], a[j]]), Some(3), None)
  }

  /** An out-of-order pair is exchanged and the swap recorded. */
  lemma SwapStep(original: seq<int>, a: seq<int>, steps: seq<Step>, h: seq<State>, i: nat, j: nat)
    requires Compared(original, a, steps, h, i, j) && a[j] > a[j + 1]
    ensures InPass(original, SwapPair(a, j), steps + [SwapAt(a, j)], h + [Apply(h[|steps|], SwapAt(a, j))], i, j + 1)
  {
    assert {j, j + 1} !! h[|steps|].sorted;
    SwapRecorded(original, a, steps, h, j);
    CompareAdjacentOrder(a, SwapPair(a, j), i, j);
  }

  lemma SwapRecorded(original: seq<int>, a: seq<int>, steps: seq<Step>, h: seq<State>, j: nat)
    requires Recorded(original, steps, h, a) && j + 1 < |a| && a[j] > a[j + 1]
    requires steps != [] && Last(steps) == CompareAt(j)
    requires {j, j + 1} !! h[|steps|].sorted
    ensures var s := Apply(h[|steps|], SwapAt(a, j));
      && Recorded(original, steps + [SwapAt(a, j)], h + [s], SwapPair(a, j))
      && s.sorted == h[|steps|].sorted
  {
    var swap := SwapAt(a, j);
    assert Elems(swap.indices) == {j, j + 1};
    ExchangeApply(h[|steps|], swap);
    assert Apply(h[|steps|], swap).arr == SwapPair(a, j);
    Record(original, steps, h, a, swap);
  }

  /** A pair in order is left alone. */
  lemma KeepStep(original: seq<int>, a: seq<int>, steps: seq<Step>, h: seq<State>, i: nat, j: nat)
    requires Compared(original, a, steps, h, i, j) && a[j] <= a[j + 1]
    ensures InPass(original, a, steps, h, i, j + 1)
  {
    CompareAdjacentOrder(a, a, i, j);
  }

  /** One inner iteration (lines 10-32): record the comparison of [j, j+1],
      and when a[j] > a[j+1] exchange the pair and record the swap with the
      new values. */
  method CompareAdjacent(ghost original: seq<int>, arr: array<int>, i: nat, j: nat,
                         steps: seq<Step>, ghost h: seq<State>)
    returns (steps': seq<Step>, ghost h': seq<State>)
    requires j < arr.Length - i - 1
    requires InPass(original, arr[..], steps, h, i, j)
    requires NonSwaps(steps) == Passes(arr.Length, i) + PassCompares(j)
    modifies arr
    ensures InPass(original, arr[..], steps', h', i, j + 1)
    ensures NonSwaps(steps') == Passes(arr.Length, i) + PassCompares(j + 1)
  {
    CompareStep(original, arr[..], steps, h, i, j);
    PlanSnoc(steps, arr.Length, i, j);
    steps', h' := steps + [CompareAt(j)], h + [Apply(h[|steps|], CompareAt(j))];
    if arr[j] > arr[j + 1] {
      ghost var a := arr[..];
      SwapStep(original, a, steps', h', i, j);
      arr[j], arr[j + 1] := arr[j + 1], arr[j];
      assert arr[..] == SwapPair(a, j);
      var swap := Step(Swap, [j, j + 1], Some([arr[j], arr[j + 1]]), Some(3), None);
      assert swap == SwapAt(a, j);
      NonSwapsSnoc(steps', swap);
      steps', h' := steps' + [swap], h' + [Apply(h'[|steps'|], swap)];
    } else {
      KeepStep(original, arr[..], steps', h', i, j);
    }
  }

  /** The array facts of one inner iteration: after putting the larger of
      a[j], a[j+1] at j+1, a[j+1] is the largest of a[0..j+1], and the final
      suffix is untouched. */
  lemma CompareAdjacentOrder(a: seq<int>, b: seq<int>, i: nat, j: nat)
    requires j + 1 < |a| - i
    requires b == if a[j] > a[j + 1] then a[j := a[j + 1]][j + 1 := a[j]] else a
    requires forall k :: 0 <= k < j ==> a[k] <= a[j]
    requires AscendingBetween(a, |a| - i, |a|) && Split(a, |a| - i)
    ensures forall k :: 0 <= k < j + 1 ==> b[k] <= b[j + 1]
    ensures AscendingBetween(b, |b| - i, |b|) && Split(b, |b| - i)
    ensures multiset(b) == multiset(a)
  {
  }

  /** Outer pass i starts with no comparison of the pass done. */
  lemma StartPass(original: seq<int>, a: seq<int>, steps: seq<Step>, h: seq<State>, i: nat)
    requires i < |a| && BeforePass(original, a, steps, h, i)
    ensures InPass(original, a, steps, h, i, 0)
  {
  }

  lemma PlanStart(n: nat, i: nat)
    requires i <= n
    ensures Passes(n, i) + PassCompares(0) == Passes(n, i)
  {
  }

  /** Marking n-i-1 sorted (lines 34-40) closes pass i. */
  lemma EndPass(original: seq<int>, a: seq<int>, steps: seq<Step>, h: seq<State>, i: nat)
    requires i < |a| && InPass(original, a, steps, h, i, |a| - i - 1)
    ensures var mark := SortedAt(|a| - i - 1, 1);
      BeforePass(original, a, steps + [mark], h + [Apply(h[|steps|], mark)], i + 1)
  {
    var mark := SortedAt(|a| - i - 1, 1);
    assert Elems(mark.indices) == {|a| - i - 1};
    Record(original, steps, h, a, mark);
    PassDone(a, i);
  }

  lemma PlanMark(steps: seq<Step>, n: nat, i: nat)
    requires i < n && NonSwaps(steps) == Passes(n, i) + PassCompares(n - i - 1)
    ensures NonSwaps(steps + [SortedAt(n - i - 1, 1)]) == Passes(n, i + 1)
  {
    NonSwapsSnoc(steps, SortedAt(n - i - 1, 1));
  }

  /** With the largest of a[0..n-i-1] at n-i-1, the final suffix grows by one. */
  lemma PassDone(a: seq<int>, i: nat)
    requires i < |a|
    requires forall k :: 0 <= k < |a| - i - 1 ==> a[k] <= a[|a| - i - 1]
    requires AscendingBetween(a, |a| - i, |a|) && Split(a, |a| - i)
    ensures AscendingBetween(a, |a| - i - 1, |a|) && Split(a, |a| - i - 1)
  {
  }

  /** Outer pass i (lines 8-41): compare each adjacent pair below n-i-1,
      exchanging it when out of order, then mark n-i-1 sorted. */
  method BubblePass(ghost original: seq<int>, arr: array<int>, i: nat, steps: seq<Step>, ghost h: seq<State>)
    returns (steps': seq<Step>, ghost h': seq<State>)
    requires i < arr.Length
    requires BeforePass(original, arr[..], steps, h, i)
    requires NonSwaps(steps) == Passes(arr.Length, i)
    modifies arr
    ensures BeforePass(original, arr[..], steps', h', i + 1)
    ensures NonSwaps(steps') == Passes(arr.Length, i + 1)
  {
    var n := arr.Length;
    StartPass(original, arr[..], steps, h, i);
    PlanStart(n, i);
    steps', h' := steps, h;
    var j := 0;
    while j < n - i - 1
      invariant 0 <= j <= n - i - 1
      invariant InPass(original, arr[..], steps', h', i, j)
      invariant NonSwaps(steps') == Passes(n, i) + PassCompares(j)
    {
      steps', h' := CompareAdjacent(original, arr, i, j, steps', h');
      j := j + 1;
    }
    EndPass(original, arr[..], steps', h', i);
    PlanMark(steps', n, i);
    var mark := SortedAt(n - i - 1, 1);
    steps', h' := steps' + [mark], h' + [Apply(h'[|steps'|], mark)];
  }

  /** What the finished trace satisfies (the generator's contract). */
  ghost predicate BubbleTrace(original: seq<int>, steps: seq<Step>) {
    && NonSwaps(steps) == BubblePlan(|original|)
    && Linked(original, steps)
    && Exchanges(original, steps)
    && MarksKept(original, steps)
    && (forall p :: 0 <= p < |steps| ==> steps[p].kind in {Compare, Swap, Sorted})
    && CountKind(steps, Compare) == |original| * (|original| - 1) / 2
    && CountKind(steps, Sorted) == |original| + 1
    && steps != [] && Last(steps) == SortedAt(0, 5)
    && var final := StateAt(original, steps, |steps| - 1);
      && Ascending(final.arr)
      && multiset(final.arr) == multiset(original)
      && AllMarked(final.sorted, |original|)
  }

  /** The generator (lines 3-52).  The caller's array is only read.  The
      trace, with its swaps taken out, is the fixed plan for the input's
      length; a swap comes right after a comparison exactly when that pair is
      out of order in the array shown, and it exchanges the pair; no swap
      touches an index already marked sorted; and replaying the whole trace
      shows the input sorted with every index marked, index 0 twice. */
  method GenerateBubbleSortSteps(input: array<int>) returns (steps: seq<Step>)
    ensures BubbleTrace(input[..], steps)
  {
    var n := input.Length;
    var arr := Copy(input);
    ghost var original := input[..];
    ghost var h := [Initial(original)];
    steps := [];
    var i := 0;
    while i < n
      invariant 0 <= i <= n == arr.Length
      invariant BeforePass(original, arr[..], steps, h, i)
      invariant NonSwaps(steps) == Passes(n, i)
    {
      steps, h := BubblePass(original, arr, i, steps, h);
      i := i + 1;
    }
    FinalMark(original, arr[..], steps, h);
    steps := steps + [SortedAt(0, 5)];
  }

  /** The closing mark of index 0 (lines 43-49), after the n passes, makes
      the trace complete. */
  lemma FinalMark(original: seq<int>, a: seq<int>, steps: seq<Step>, h: seq<State>)
    requires BeforePass(original, a, steps, h, |a|) && NonSwaps(steps) == Passes(|a|, |a|)
    ensures BubbleTrace(original, steps + [SortedAt(0, 5)])
  {
    var mark := SortedAt(0, 5);
    var steps', h' := steps + [mark], h + [Apply(h[|steps|], mark)];
    FinalState(original, a, steps, h);
    RecordedMeans(original, steps', h', a);
    FinalCounts(steps, |a|);
  }

  lemma FinalState(original: seq<int>, a: seq<int>, steps: seq<Step>, h: seq<State>)
    requires BeforePass(original, a, steps, h, |a|)
    ensures var h' := h + [Apply(h[|steps|], SortedAt(0, 5))];
      && Recorded(original, steps + [SortedAt(0, 5)], h', a)
      && AllMarked(h'[|steps| + 1].sorted, |a|)
      && Ascending(a) && multiset(a) == multiset(original)
  {
    var mark := SortedAt(0, 5);
    assert Elems(mark.indices) == {0};
    Record(original, steps, h, a, mark);
  }

  lemma FinalCounts(steps: seq<Step>, n: nat)
    requires NonSwaps(steps) == Passes(n, n)
    ensures NonSwaps(steps + [SortedAt(0, 5)]) == BubblePlan(n)
    ensures CountKind(steps + [SortedAt(0, 5)], Compare) == n * (n - 1) / 2
    ensures CountKind(steps + [SortedAt(0, 5)], Sorted) == n + 1
  {
    var steps' := steps + [SortedAt(0, 5)];
    NonSwapsSnoc(steps, SortedAt(0, 5));
    PlanCounts(n);
    NonSwapsCount(steps', Compare);
    NonSwapsCount(steps', Sorted);
  }

  /** Every swap of a bubble trace is the whole record of lines 25-31: it
      follows the comparison of its pair, carries the pair's exchanged values
      from the array shown before it, and is shown at line 3 with no
      auxiliary data. */
  lemma SwapExact(original: seq<int>, steps: seq<Step>, p: int)
    requires BubbleTrace(original, steps)
    requires 0 <= p < |steps| && steps[p].kind == Swap
    ensures p > 0 && steps[p - 1].kind == Compare && |steps[p - 1].indices| == 2
    ensures var a, ix := StateAt(original, steps, p - 1).arr, steps[p - 1].indices;
      0 <= ix[0] < |a| && 0 <= ix[1] < |a| && a[ix[0]] > a[ix[1]]
      && steps[p] == Step(Swap, ix, Some([a[ix[1]], a[ix[0]]]), Some(3), None)
  {
    assert p > 0 by {
      if p == 0 { assert steps[0].kind != Swap; }
    }
    var a := StateAt(original, steps, p - 1).arr;
    assert LinkOk(steps[p - 1], a, steps[p]);
    assert IsExchange(a, steps[p]);
  }

  /** The worked example: on [5, 3, 8, 1] the trace opens with the comparison
      of [0, 1] and the exchange of that pair, stating [3, 5], and replays to
      [1, 3, 5, 8]. */
  lemma Example(t: seq<Step>)
    requires BubbleTrace([5, 3, 8, 1], t)
    ensures |t| >= 2 && t[0] == CompareAt(0)
    ensures t[1] == Step(Swap, [0, 1], Some([3, 5]), Some(3), None)
    ensures StateAt([5, 3, 8, 1], t, |t| - 1).arr == [1, 3, 5, 8]
  {
    var a := [5, 3, 8, 1];
    ExampleOpening(a, t);
    var final := StateAt(a, t, |t| - 1).arr;
    assert Ascending(final) && multiset(final) == multiset(a);
    ExampleSorted(final);
  }

  /** The first two steps of a trace of [5, 3, 8, 1]. */
  lemma ExampleOpening(a: seq<int>, t: seq<Step>)
    requires a == [5, 3, 8, 1]
    requires NonSwaps(t) == BubblePlan(|a|) && Linked(a, t) && Exchanges(a, t) && CountKind(t, Compare) == 6
    ensures |t| >= 2 && t[0] == CompareAt(0)
    ensures t[1] == Step(Swap, [0, 1], Some([3, 5]), Some(3), None)
  {
    Opening(a, t);
    assert LinkOk(t[0], StateAt(a, t, 0).arr, t[1]);
    assert IsExchange(StateAt(a, t, 0).arr, t[1]);
  }

  /** Every trace of two or more elements opens with the comparison of
      [0, 1], followed by their exchange exactly when a[0] > a[1]. */
  lemma Opening(a: seq<int>, t: seq<Step>)
    requires |a| >= 2 && |t| >= 2
    requires NonSwaps(t) == BubblePlan(|a|) && Linked(a, t)
    ensures t[0] == CompareAt(0) && StateAt(a, t, 0).arr == a
    ensures t[1].kind == Swap <==> a[0] > a[1]
    ensures t[1].kind == Swap ==> t[1].indices == [0, 1]
  {
    PlanFirst(|a|);
    NonSwapsFirst(t);
    StateAtStep(a, t, 0);
    assert LinkOk(t[0], StateAt(a, t, 0).arr, t[1]);
  }

  /** The one ascending arrangement of 5, 3, 8 and 1. */
  lemma ExampleSorted(b: seq<int>)
    requires Ascending(b) && multiset(b) == multiset([5, 3, 8, 1])
    ensures b == [1, 3, 5, 8]
  {
    assert Ascending([1, 3, 5, 8]) && multiset([1, 3, 5, 8]) == multiset([5, 3, 8, 1]);
    AscendingUnique(b, [1, 3, 5, 8]);
  }

  /** A trace that opens with a step other than a swap opens its non-swap
      skeleton with it. */
  lemma {:induction false} NonSwapsFirst(t: seq<Step>)
    requires t != [] && t[0].kind != Swap
    ensures NonSwaps(t) != [] && NonSwaps(t)[0] == t[0]
    decreases |t|
  {
    if |t| > 1 {
      NonSwapsFirst(t[..|t| - 1]);
    } else {
      assert t[..0] == [];
    }
  }

  /** Every plan for two or more elements opens with the comparison of [0, 1]. */
  lemma PlanFirst(n: nat)
    requires n >= 2
    ensures BubblePlan(n) != [] && BubblePlan(n)[0] == CompareAt(0)
  {
    PassesFirst(n, n);
  }

  lemma {:induction false} PassesFirst(n: nat, i: nat)
    requires 1 <= i <= n && n >= 2
    ensures Passes(n, i) != [] && Passes(n, i)[0] == CompareAt(0)
    decreases i
  {
    if i == 1 {
      PassComparesFirst(n - 1);
    } else {
      PassesFirst(n, i - 1);
    }
  }

  lemma {:induction false} PassComparesFirst(m: nat)
    requires m >= 1
    ensures PassCompares(m) != [] && PassCompares(m)[0] == CompareAt(0)
    decreases m
  {
    if m > 1 {
      PassComparesFirst(m - 1);
    }
  }
}
