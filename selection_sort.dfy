/** The selection-sort trace generator: for each position i, scan the rest of
    a private copy for the first index of its minimum, exchange it into
    position i when it is elsewhere, and mark i sorted.  The swap steps carry
    no values, so replaying the trace never reorders the displayed array. */
module SelectionSort {
  import opened Steps
  import opened Reconstruction
  import opened Sorting

  /** The steps of one pass of the generator. */
  function StartMin(i: int): Step { Plain(Highlight, [i], 2) }
  function CompareMin(m: int, j: int): Step { Plain(Compare, [m, j], 3) }
  function NewMin(j: int): Step { Plain(Highlight, [j], 4) }
  function SwapMin(i: int, m: int): Step { Step(Swap, [i, m], None, Some(6), None) }
  function SortedAt(i: int): Step { Plain(Sorted, [i], 1) }

  /** The index the inner loop (lines 19-36) leaves in minIdx when it starts
      at j with the minimum so far at m. */
  function ScanMin(a: seq<int>, m: int, j: int): (r: int)
    requires 0 <= m < j <= |a|
    ensures m <= r < |a|
    decreases |a| - j
  {
    if j == |a| then m
    else if a[j] < a[m] then ScanMin(a, j, j + 1)
    else ScanMin(a, m, j + 1)
  }

  /** Every element from j on is at least the one the scan settles on, which
      is no larger than a[m]; when the scan moved off m, it settled on the
      first index from j on that holds that value, strictly below a[m]. */
  lemma {:induction false} ScanMinIsMin(a: seq<int>, m: int, j: int)
    requires 0 <= m < j <= |a|
    ensures var r := ScanMin(a, m, j);
      && a[r] <= a[m]
      && (forall k :: j <= k < |a| ==> a[r] <= a[k])
      && (r != m ==> j <= r && a[r] < a[m] && forall k :: j <= k < r ==> a[k] > a[r])
    decreases |a| - j
  {
    if j < |a| {
      if a[j] < a[m] {
        ScanMinIsMin(a, j, j + 1);
      } else {
        ScanMinIsMin(a, m, j + 1);
      }
    }
  }

  /** The steps the inner loop records from j on with the minimum so far at m:
      a comparison of [m, j] for every j, each followed by a highlight of j
      when a[j] is strictly below a[m]. */
  function ScanSteps(a: seq<int>, m: int, j: int): seq<Step>
    requires 0 <= m < j <= |a|
    decreases |a| - j
  {
    if j == |a| then []
    else if a[j] < a[m] then [CompareMin(m, j), NewMin(j)] + ScanSteps(a, j, j + 1)
    else [CompareMin(m, j)] + ScanSteps(a, m, j + 1)
  }

  /** m is the first index of the minimum of a[lo..). */
  predicate IsFirstMin(a: seq<int>, lo: int, m: int) {
    && 0 <= lo <= m < |a|
    && (forall k :: lo <= k < |a| ==> a[m] <= a[k])
    && (forall k :: lo <= k < m ==> a[k] > a[m])
  }

  /** The scan of pass i ends at the first index of the minimum of a[i..). */
  lemma ScanFindsFirstMin(a: seq<int>, i: int)
    requires 0 <= i < |a|
    ensures IsFirstMin(a, i, ScanMin(a, i, i + 1))
  {
    ScanMinIsMin(a, i, i + 1);
  }

  /** The minimum so far after examining j. */
  function NextMin(a: seq<int>, m: int, j: int): int
    requires 0 <= m < |a| && 0 <= j < |a|
  {
    if a[j] < a[m] then j else m
  }

  /** What examining j records: the comparison, then a highlight when a[j]
      is the new minimum. */
  function ScanHead(a: seq<int>, m: int, j: int): seq<Step>
    requires 0 <= m < |a| && 0 <= j < |a|
  {
    if a[j] < a[m] then [CompareMin(m, j), NewMin(j)] else [CompareMin(m, j)]
  }

  lemma ScanUnfold(a: seq<int>, m: int, j: int)
    requires 0 <= m < j < |a|
    ensures ScanSteps(a, m, j) == ScanHead(a, m, j) + ScanSteps(a, NextMin(a, m, j), j + 1)
    ensures ScanMin(a, m, j) == ScanMin(a, NextMin(a, m, j), j + 1)
  {
  }

  /** There are |a| - j comparisons in the scan from j, and no sorted mark. */
  ghost predicate ScanCounted(a: seq<int>, m: int, j: int)
    requires 0 <= m < j <= |a|
  {
    && CountKind(ScanSteps(a, m, j), Compare) == |a| - j
    && Marks(ScanSteps(a, m, j), Sorted) == []
  }

  lemma {:induction false} ScanCompares(a: seq<int>, m: int, j: int)
    requires 0 <= m < j <= |a|
    ensures ScanCounted(a, m, j)
    decreases |a| - j
  {
    if j < |a| {
      ScanCompares(a, NextMin(a, m, j), j + 1);
      ScanCountStep(a, m, j);
    }
  }

  lemma ScanCountStep(a: seq<int>, m: int, j: int)
    requires 0 <= m < j < |a|
    requires ScanCounted(a, NextMin(a, m, j), j + 1)
    ensures ScanCounted(a, m, j)
  {
    var head, rest := ScanHead(a, m, j), ScanSteps(a, NextMin(a, m, j), j + 1);
    ScanUnfold(a, m, j);
    CountKindAppend(head, rest, Compare);
    MarksAppend(head, rest, Sorted);
    assert [CompareMin(m, j)][..0] == [];
    assert [CompareMin(m, j), NewMin(j)][..1] == [CompareMin(m, j)];
  }

  /** The scan records only comparisons and highlights, and each comparison
      is of [m, j] with m < j inside the array. */
  ghost predicate ScanKinds(a: seq<int>, t: seq<Step>) {
    forall p :: 0 <= p < |t| ==>
      && t[p].kind in {Compare, Highlight}
      && (t[p].kind == Compare ==> |t[p].indices| == 2 && 0 <= t[p].indices[0] < t[p].indices[1] < |a|)
  }

  /** A comparison of [m, j] is followed by a highlight of j exactly when
      a[j] is strictly below a[m]. */
  ghost predicate NewMinIffLess(a: seq<int>, t: seq<Step>) {
    forall p {:trigger t[p]} :: 0 <= p < |t| && t[p].kind == Compare ==>
      && |t[p].indices| == 2 && 0 <= t[p].indices[0] < |a| && 0 <= t[p].indices[1] < |a|
      && ((p + 1 < |t| && t[p + 1] == NewMin(t[p].indices[1])) <==> a[t[p].indices[1]] < a[t[p].indices[0]])
  }

  /** Every highlight follows the comparison that found it. */
  ghost predicate NewMinAfterCompare(t: seq<Step>) {
    forall p :: 0 <= p < |t| && t[p].kind == Highlight ==>
      p > 0 && t[p - 1].kind == Compare && |t[p - 1].indices| == 2 && t[p].indices == [t[p - 1].indices[1]]
  }

  ghost predicate ScanLinked(a: seq<int>, t: seq<Step>) {
    && ScanKinds(a, t) && NewMinIffLess(a, t) && NewMinAfterCompare(t)
    && (t != [] ==> t[0].kind == Compare)
  }

  /** The scan from j is linked: comparisons of [m, j] each followed by the
      highlight of j exactly when a[j] < a[m], and nothing else. */
  lemma {:induction false} ScanIsLinked(a: seq<int>, m: int, j: int)
    requires 0 <= m < j <= |a|
    ensures ScanLinked(a, ScanSteps(a, m, j))
    decreases |a| - j
  {
    if j < |a| {
      var head, rest := ScanHead(a, m, j), ScanSteps(a, NextMin(a, m, j), j + 1);
      ScanUnfold(a, m, j);
      ScanIsLinked(a, NextMin(a, m, j), j + 1);
      KindsCons(a, head, rest, m, j);
      IffCons(a, head, rest, m, j);
      AfterCons(a, head, rest, m, j);
    }
  }

  lemma KindsCons(a: seq<int>, head: seq<Step>, rest: seq<Step>, m: int, j: int)
    requires 0 <= m < j < |a| && head == ScanHead(a, m, j) && ScanKinds(a, rest)
    ensures ScanKinds(a, head + rest)
  {
    var t := head + rest;
    forall p | 0 <= p < |t| && p >= |head|
      ensures t[p].kind in {Compare, Highlight}
      ensures t[p].kind == Compare ==> |t[p].indices| == 2 && 0 <= t[p].indices[0] < t[p].indices[1] < |a|
    {
      assert t[p] == rest[p - |head|];
    }
  }

  lemma IffCons(a: seq<int>, head: seq<Step>, rest: seq<Step>, m: int, j: int)
    requires 0 <= m < j < |a| && head == ScanHead(a, m, j)
    requires NewMinIffLess(a, rest) && (rest != [] ==> rest[0].kind == Compare)
    ensures NewMinIffLess(a, head + rest)
  {
    var t := head + rest;
    forall p | 0 <= p < |t| && t[p].kind == Compare
      ensures |t[p].indices| == 2 && 0 <= t[p].indices[0] < |a| && 0 <= t[p].indices[1] < |a|
      ensures (p + 1 < |t| && t[p + 1] == NewMin(t[p].indices[1])) <==> a[t[p].indices[1]] < a[t[p].indices[0]]
    {
      if p >= |head| {
        var q := p - |head|;
        assert t[p] == rest[q];
        if p + 1 < |t| { assert t[p + 1] == rest[q + 1]; }
      } else if a[j] < a[m] {
        assert p == 0 && t[0] == CompareMin(m, j) && t[1] == NewMin(j);
      } else {
        assert p == 0 && t[0] == CompareMin(m, j);
        if 1 < |t| { assert t[1] == rest[0]; }
      }
    }
  }

  lemma AfterCons(a: seq<int>, head: seq<Step>, rest: seq<Step>, m: int, j: int)
    requires 0 <= m < j < |a| && head == ScanHead(a, m, j)
    requires NewMinAfterCompare(rest) && (rest != [] ==> rest[0].kind == Compare)
    ensures NewMinAfterCompare(head + rest) && (head + rest)[0].kind == Compare
  {
    var t := head + rest;
    forall p | 0 <= p < |t| && t[p].kind == Highlight
      ensures p > 0 && t[p - 1].kind == Compare && |t[p - 1].indices| == 2 && t[p].indices == [t[p - 1].indices[1]]
    {
      if p > |head| {
        assert t[p] == rest[p - |head|] && t[p - 1] == rest[p - 1 - |head|];
      }
    }
  }

  /** The swap of lines 38-49, present exactly when the minimum is elsewhere. */
  function SwapIf(i: int, m: int): seq<Step> {
    if m != i then [SwapMin(i, m)] else []
  }

  /** The steps of pass i on the working copy a (lines 9-56). */
  function PassSteps(a: seq<int>, i: int): seq<Step>
    requires 0 <= i < |a|
  {
    [StartMin(i)] + ScanSteps(a, i, i + 1) + SwapIf(i, ScanMin(a, i, i + 1)) + [SortedAt(i)]
  }

  /** The working copy after pass i. */
  function AfterPass(a: seq<int>, i: int): (r: seq<int>)
    requires 0 <= i < |a|
    ensures |r| == |a|
  {
    var m := ScanMin(a, i, i + 1);
    a[i := a[m]][m := a[i]]
  }

  /** The steps of passes i, i+1, ... on the working copy a. */
  function Passes(a: seq<int>, i: nat): seq<Step>
    decreases |a| - i
  {
    if i >= |a| then [] else PassSteps(a, i) + Passes(AfterPass(a, i), i + 1)
  }

  /** The working copy once every pass from i on has run. */
  function Work(a: seq<int>, i: nat): (r: seq<int>)
    ensures |r| == |a|
    decreases |a| - i
  {
    if i >= |a| then a else Work(AfterPass(a, i), i + 1)
  }

  /** A pass leaves the prefix sorted one position further: when a[..i) is
      ascending and below the rest, so is a[..i] after the exchange. */
  lemma PassExtendsPrefix(a: seq<int>, i: int)
    requires 0 <= i < |a| && AscendingBetween(a, 0, i) && Split(a, i)
    ensures var b := AfterPass(a, i);
      && AscendingBetween(b, 0, i + 1) && Split(b, i + 1)
      && multiset(b) == multiset(a)
  {
    var m := ScanMin(a, i, i + 1);
    var b := Swapped(a, i, m);
    assert b == AfterPass(a, i);
    ScanFindsFirstMin(a, i);
    SwappedPrefix(a, i, m, |a|);
    assert a[..|a|] == a && b[..|b|] == b;
  }

  /** The working copy ends ascending and a permutation of where it started. */
  lemma {:induction false} WorkSorted(a: seq<int>, i: nat)
    requires i <= |a| && AscendingBetween(a, 0, i) && Split(a, i)
    ensures Ascending(Work(a, i)) && multiset(Work(a, i)) == multiset(a)
    decreases |a| - i
  {
    if i < |a| {
      PassExtendsPrefix(a, i);
      WorkSorted(AfterPass(a, i), i + 1);
    }
  }

  /** The single-index marks [lo], [lo+1], ..., [hi-1]. */
  function Up(lo: int, hi: int): seq<seq<int>>
    decreases hi - lo
  {
    if lo >= hi then [] else [[lo]] + Up(lo + 1, hi)
  }

  /** A step that changes nothing on replay: one of the four kinds selection
      sort records, and a swap over [i, m] with i < m without values. */
  predicate Still(st: Step) {
    && st.kind in {Compare, Highlight, Swap, Sorted}
    && !Moves(st)
    && (st.kind == Swap ==> st.values == None && |st.indices| == 2 && st.indices[0] < st.indices[1])
  }

  ghost predicate AllStill(t: seq<Step>) {
    forall p :: 0 <= p < |t| ==> Still(t[p])
  }

  lemma AllStillAppend(s: seq<Step>, t: seq<Step>)
    requires AllStill(s) && AllStill(t)
    ensures AllStill(s + t)
  {
    forall p | 0 <= p < |s + t| ensures Still((s + t)[p]) {
      if p >= |s| { assert (s + t)[p] == t[p - |s|]; }
    }
  }

  lemma PassIsStill(a: seq<int>, i: int)
    requires 0 <= i < |a|
    ensures AllStill(PassSteps(a, i))
  {
    var s := ScanSteps(a, i, i + 1);
    ScanIsLinked(a, i, i + 1);
    assert AllStill(s);
    AllStillAppend([StartMin(i)], s);
    AllStillAppend([StartMin(i)] + s, SwapIf(i, ScanMin(a, i, i + 1)));
    AllStillAppend([StartMin(i)] + s + SwapIf(i, ScanMin(a, i, i + 1)), [SortedAt(i)]);
  }

  /** One pass records |a| - 1 - i comparisons. */
  lemma PassCompares(a: seq<int>, i: int)
    requires 0 <= i < |a|
    ensures CountKind(PassSteps(a, i), Compare) == |a| - 1 - i
  {
    var m := ScanMin(a, i, i + 1);
    var s := ScanSteps(a, i, i + 1);
    var w := SwapIf(i, m);
    ScanCompares(a, i, i + 1);
    CountKindSingle(StartMin(i), Compare);
    CountKindSingle(SortedAt(i), Compare);
    CountKindThree([StartMin(i)], s, w, Compare);
    CountKindAppend([StartMin(i)] + s + w, [SortedAt(i)], Compare);
    if m != i { CountKindSingle(SwapMin(i, m), Compare); }
  }

  /** One pass records the single sorted mark [i]. */
  lemma PassMarks(a: seq<int>, i: int)
    requires 0 <= i < |a|
    ensures Marks(PassSteps(a, i), Sorted) == [[i]]
  {
    var m := ScanMin(a, i, i + 1);
    var s := ScanSteps(a, i, i + 1);
    var w := SwapIf(i, m);
    ScanCompares(a, i, i + 1);
    assert [StartMin(i)][..0] == [] && [SortedAt(i)][..0] == [];
    if m != i { assert w[..0] == []; }
    MarksAppend([StartMin(i)], s, Sorted);
    MarksAppend([StartMin(i)] + s, w, Sorted);
    MarksAppend([StartMin(i)] + s + w, [SortedAt(i)], Sorted);
  }

  /** 0 + 1 + ... + (k-1). */
  function Tri(k: nat): nat {
    if k == 0 then 0 else Tri(k - 1) + (k - 1)
  }

  lemma {:induction false} TriClosed(k: nat)
    ensures Tri(k) == k * (k - 1) / 2
  {
    if k > 0 {
      TriClosed(k - 1);
      assert (k - 1) * (k - 2) + 2 * (k - 1) == k * (k - 1);
    }
  }

  /** The passes from i on record 0 + 1 + ... + (|a|-i-1) comparisons. */
  ghost predicate ComparesFrom(a: seq<int>, i: nat)
    requires i <= |a|
  {
    CountKind(Passes(a, i), Compare) == Tri(|a| - i)
  }

  lemma {:induction false} PassesCompares(a: seq<int>, i: nat)
    requires i <= |a|
    ensures ComparesFrom(a, i)
    decreases |a| - i
  {
    if i < |a| {
      var b := AfterPass(a, i);
      PassesCompares(b, i + 1);
      ComparesStep(a, i, b);
    }
  }

  /** The count for passes i, i+1, ... from the count for passes i+1, ... */
  lemma ComparesStep(a: seq<int>, i: nat, b: seq<int>)
    requires i < |a| && b == AfterPass(a, i)
    requires ComparesFrom(b, i + 1)
    ensures ComparesFrom(a, i)
  {
    var k := |a| - i;
    PassCompares(a, i);
    CountKindSum(Passes(a, i), PassSteps(a, i), Passes(b, i + 1), Compare, k - 1, Tri(k - 1));
  }

  /** The passes from i on mark [i], ..., [|a|-1] sorted, in order. */
  lemma {:induction false} PassesMarks(a: seq<int>, i: nat)
    requires i <= |a|
    ensures Marks(Passes(a, i), Sorted) == Up(i, |a|)
    decreases |a| - i
  {
    if i < |a| {
      var b := AfterPass(a, i);
      PassMarks(a, i);
      PassesMarks(b, i + 1);
      MarksAppend(PassSteps(a, i), Passes(b, i + 1), Sorted);
    }
  }

  lemma {:induction false} PassesAreStill(a: seq<int>, i: nat)
    requires i <= |a|
    ensures AllStill(Passes(a, i))
    decreases |a| - i
  {
    if i < |a| {
      PassIsStill(a, i);
      PassesAreStill(AfterPass(a, i), i + 1);
      AllStillAppend(PassSteps(a, i), Passes(AfterPass(a, i), i + 1));
    }
  }

  /** The whole trace for input a. */
  function SelectionTrace(a: seq<int>): seq<Step> {
    Passes(a, 0)
  }

  /** The properties the generator's trace has, read through the replay:
      n(n-1)/2 comparisons, the sorted marks [0], [1], ..., [n-1] in order,
      swaps over [i, m] with i < m carrying no values, and so no step that
      moves anything: the displayed array stays the input at every position. */
  lemma SelectionTraceShape(a: seq<int>)
    ensures var t := SelectionTrace(a); var n := |a|;
      && CountKind(t, Compare) == n * (n - 1) / 2
      && Marks(t, Sorted) == Up(0, n)
      && (forall p :: 0 <= p < |t| ==> t[p].kind in {Compare, Highlight, Swap, Sorted})
      && (forall p :: 0 <= p < |t| && t[p].kind == Swap ==>
            t[p].values == None && |t[p].indices| == 2 && t[p].indices[0] < t[p].indices[1])
      && (forall k :: -1 <= k < |t| ==> StateAt(a, t, k).arr == a)
  {
    var t := SelectionTrace(a);
    PassesCompares(a, 0);
    TriClosed(|a|);
    PassesMarks(a, 0);
    PassesAreStill(a, 0);
    forall k | -1 <= k < |t| ensures StateAt(a, t, k).arr == a {
      StillTrace(Initial(a), t[..k + 1]);
    }
  }

  /** The working copy the generator sorts ends ascending and a permutation
      of the input. */
  lemma SelectionWorkSorted(a: seq<int>)
    ensures Ascending(Work(a, 0)) && multiset(Work(a, 0)) == multiset(a)
  {
    WorkSorted(a, 0);
  }

  /** For [2, 1] the trace has one swap, over [0, 1], and replaying it to the
      end still shows [2, 1]. */
  lemma TwoOne()
    ensures SelectionTrace([2, 1]) ==
      [StartMin(0), CompareMin(0, 1), NewMin(1), SwapMin(0, 1), SortedAt(0), StartMin(1), SortedAt(1)]
    ensures StateAt([2, 1], SelectionTrace([2, 1]), 6).arr == [2, 1]
  {
    assert ScanMin([2, 1], 0, 1) == 1;
    assert ScanSteps([2, 1], 0, 1) == [CompareMin(0, 1), NewMin(1)];
    assert AfterPass([2, 1], 0) == [1, 2];
    assert ScanSteps([1, 2], 1, 2) == [];
    assert Passes([1, 2], 1) == [StartMin(1), SortedAt(1)];
    SelectionTraceShape([2, 1]);
  }

  lemma Assoc(x: seq<Step>, y: seq<Step>, z: seq<Step>)
    ensures x + y + z == x + (y + z)
  {
  }

  /** The steps one round of the outer loop appends are the pass. */
  lemma PassAppended(before: seq<Step>, a: seq<int>, i: int)
    requires 0 <= i < |a|
    ensures var m := ScanMin(a, i, i + 1);
      before + [StartMin(i)] + ScanSteps(a, i, i + 1) + SwapIf(i, m) + [SortedAt(i)]
        == before + PassSteps(a, i)
  {
  }

  /** The generator (lines 3-60).  The caller's array is only read; the trace
      is the one the passes define on the working copy, and work is that copy
      at the end: the input sorted. */
  method GenerateSelectionSortSteps(input: array<int>) returns (steps: seq<Step>, ghost work: seq<int>)
    ensures steps == SelectionTrace(input[..])
    ensures work == Work(input[..], 0)
    ensures Ascending(work) && multiset(work) == multiset(input[..])
  {
    var arr := Copy(input);
    var n := arr.Length;
    ghost var original := arr[..];
    steps := [];
    var i := 0;
    while i < n
      invariant 0 <= i <= n == arr.Length
      invariant steps + Passes(arr[..], i) == Passes(original, 0)
      invariant Work(arr[..], i) == Work(original, 0)
    {
      ghost var a, before := arr[..], steps;
      steps := SelectPass(arr, i, steps);
      Assoc(before, PassSteps(a, i), Passes(arr[..], i + 1));
      i := i + 1;
    }
    work := arr[..];
    SelectionWorkSorted(original);
  }

  /** One round of the outer loop (lines 9-56): highlight i, scan for the
      minimum, exchange it into place when it is elsewhere, mark i sorted. */
  method SelectPass(arr: array<int>, i: int, steps0: seq<Step>) returns (steps: seq<Step>)
    requires 0 <= i < arr.Length
    modifies arr
    ensures arr[..] == AfterPass(old(arr[..]), i)
    ensures steps == steps0 + PassSteps(old(arr[..]), i)
  {
    ghost var a := arr[..];
    var minIdx;
    steps, minIdx := ScanForMin(arr, i, steps0 + [StartMin(i)]);
    if minIdx != i {
      var temp := arr[i];
      arr[i] := arr[minIdx];
      arr[minIdx] := temp;
      steps := steps + [SwapMin(i, minIdx)];
    } else {
      assert a[i := a[i]] == a;
    }
    steps := steps + [SortedAt(i)];
    PassAppended(steps0, a, i);
  }

  /** The inner loop of pass i (lines 19-36): compare each later element with
      the minimum so far, moving to it when it is strictly smaller. */
  method ScanForMin(arr: array<int>, i: int, steps0: seq<Step>) returns (steps: seq<Step>, minIdx: int)
    requires 0 <= i < arr.Length
    ensures steps == steps0 + ScanSteps(arr[..], i, i + 1)
    ensures minIdx == ScanMin(arr[..], i, i + 1)
  {
    ghost var a := arr[..];
    var n := arr.Length;
    steps := steps0;
    minIdx := i;
    var j := i + 1;
    while j < n
      invariant i <= minIdx < j <= n
      invariant ScanMin(a, minIdx, j) == ScanMin(a, i, i + 1)
      invariant steps + ScanSteps(a, minIdx, j) == steps0 + ScanSteps(a, i, i + 1)
    {
      ghost var s, m := steps, minIdx;
      ScanUnfold(a, minIdx, j);
      steps := steps + [CompareMin(minIdx, j)];
      if arr[j] < arr[minIdx] {
        minIdx := j;
        steps := steps + [NewMin(minIdx)];
      }
      assert steps == s + ScanHead(a, m, j) && minIdx == NextMin(a, m, j);
      Assoc(s, ScanHead(a, m, j), ScanSteps(a, minIdx, j + 1));
      j := j + 1;
    }
    assert steps + [] == steps;
  }
}
