/** The heap-sort trace generator: build a max-heap on a private copy of the
    input by sifting down from the last inner node, then repeatedly exchange
    the root with the last heap position, mark that position sorted and sift
    the new root down. */
module HeapSort {
  import opened Steps
  import opened Reconstruction
  import opened Sorting

  function Left(k: int): int { 2 * k + 1 }
  function Right(k: int): int { 2 * k + 2 }

  /** Node k is at least each of its children that lie inside the heap. */
  ghost predicate HeapAt(a: seq<int>, size: int, k: int) {
    && (0 <= k && Left(k) < size <= |a| ==> a[k] >= a[Left(k)])
    && (0 <= k && Right(k) < size <= |a| ==> a[k] >= a[Right(k)])
  }

  /** Every node from lo on satisfies the max-heap order within `size`. */
  ghost predicate HeapFrom(a: seq<int>, size: int, lo: int) {
    forall k :: lo <= k < size ==> HeapAt(a, size, k)
  }

  /** The state heapify expects at node r during a sift that started at lo:
      every node from lo on other than r is in heap order (not only those of
      r's subtree), and the parent of r, when r > lo, is at least r's
      children. */
  ghost predicate HeapExcept(a: seq<int>, size: int, lo: int, r: int) {
    && 0 <= lo <= r < size <= |a|
    && (forall k :: lo <= k < size && k != r ==> HeapAt(a, size, k))
    && (r > lo ==>
        && (Left(r) < size ==> a[(r - 1) / 2] >= a[Left(r)])
        && (Right(r) < size ==> a[(r - 1) / 2] >= a[Right(r)]))
  }

  /** The index heapify picks at root r (lines 14-23): the root, or the
      larger child inside the heap that strictly exceeds it, the left child
      winning a tie. */
  function Largest(a: seq<int>, size: int, r: int): (m: int)
    requires 0 <= r < size <= |a|
    ensures m == r || (m == Left(r) && m < size) || (m == Right(r) && m < size)
    ensures m != r ==> a[m] > a[r]
    ensures Left(r) < size ==> a[m] >= a[Left(r)]
    ensures Right(r) < size ==> a[m] >= a[Right(r)]
  {
    var l := if Left(r) < size && a[Left(r)] > a[r] then Left(r) else r;
    if Right(r) < size && a[Right(r)] > a[l] then Right(r) else l
  }

  /** What every step of the trace satisfies, read along the history `h`:
      applying it gives the next entry; it is a comparison, swap, highlight or
      sorted mark; a swap exchanges, touches no sorted index and directly
      follows the comparison of the same pair, and every comparison is
      directly followed by a swap. */
  ghost predicate StepOk(steps: seq<Step>, h: seq<State>, p: int) {
    && 0 <= p < |steps| && |h| == |steps| + 1
    && h[p + 1] == Apply(h[p], steps[p])
    && steps[p].kind in {Compare, Swap, Highlight, Sorted}
    && (steps[p].kind == Swap ==>
        && IsExchange(h[p].arr, steps[p])
        && p > 0 && steps[p - 1].kind == Compare && steps[p - 1].indices == steps[p].indices)
    && (p > 0 && steps[p - 1].kind == Compare ==> steps[p].kind == Swap)
    && (Moves(steps[p]) ==> Elems(steps[p].indices) !! h[p].sorted)
  }

  ghost predicate Recorded(original: seq<int>, steps: seq<Step>, h: seq<State>, a: seq<int>) {
    && |h| == |steps| + 1
    && h[0] == Initial(original)
    && h[|steps|].arr == a
    && (forall p :: 0 <= p < |steps| ==> StepOk(steps, h, p))
    && (steps != [] ==> Last(steps).kind != Compare)
  }

  /** Appending a highlight or a sorted mark keeps the record; the array
      stays as it is. */
  lemma Record(original: seq<int>, steps: seq<Step>, h: seq<State>, a: seq<int>, x: Step)
    returns (h': seq<State>)
    requires Recorded(original, steps, h, a)
    requires x.kind in {Highlight, Sorted}
    ensures Recorded(original, steps + [x], h', a)
    ensures h'[|steps| + 1].sorted == Apply(h[|steps|], x).sorted
  {
    var steps' := steps + [x];
    h' := h + [Apply(h[|steps|], x)];
    forall p | 0 <= p < |steps'| ensures StepOk(steps', h', p) {
      assert h'[p] == h[p];
      if p < |steps| {
        assert StepOk(steps, h, p);
        assert steps'[p] == steps[p] && h'[p + 1] == h[p + 1];
        if p > 0 { assert steps'[p - 1] == steps[p - 1]; }
      } else if p > 0 {
        assert steps'[p - 1] == Last(steps);
      }
    }
  }

  /** Appending a comparison of [i, j] and the swap exchanging that pair keeps
      the record; the array has the pair exchanged. */
  lemma RecordPair(original: seq<int>, steps: seq<Step>, h: seq<State>, a: seq<int>, cmp: Step, swap: Step)
    returns (h2: seq<State>)
    requires Recorded(original, steps, h, a)
    requires cmp.kind == Compare && swap.kind == Swap && cmp.indices == swap.indices
    requires IsExchange(a, swap) && Elems(swap.indices) !! h[|steps|].sorted
    ensures Recorded(original, steps + [cmp] + [swap], h2, Swapped(a, swap.indices[0], swap.indices[1]))
    ensures h2[|steps| + 2].sorted == h[|steps|].sorted
  {
    var s1 := Apply(h[|steps|], cmp);
    var steps1, h1 := steps + [cmp], h + [s1];
    var s2 := Apply(s1, swap);
    ExchangeApply(s1, swap);
    var steps2 := steps1 + [swap];
    h2 := h1 + [s2];
    forall p | 0 <= p < |steps2| ensures StepOk(steps2, h2, p) {
      if p < |steps| {
        assert StepOk(steps, h, p);
        assert steps2[p] == steps[p] && h2[p] == h[p] && h2[p + 1] == h[p + 1];
        if p > 0 { assert steps2[p - 1] == steps[p - 1]; }
      } else if p == |steps| {
        assert steps2[p] == cmp && h2[p] == h[p] && h2[p + 1] == s1;
        if p > 0 { assert steps2[p - 1] == Last(steps); }
      } else {
        assert steps2[p] == swap && steps2[p - 1] == cmp && h2[p] == s1 && h2[p + 1] == s2;
      }
    }
  }

  lemma MarksSnoc(steps: seq<Step>, x: Step, k: StepKind)
    ensures Marks(steps + [x], k) == Marks(steps, k) + if x.kind == k then [x.indices] else []
  {
    assert (steps + [x])[..|steps|] == steps;
  }

  /** A comparison and a swap leave the highlight and sorted marks as they were. */
  lemma MarksPair(steps: seq<Step>, cmp: Step, swap: Step)
    requires cmp.kind == Compare && swap.kind == Swap
    ensures Marks(steps + [cmp] + [swap], Highlight) == Marks(steps, Highlight)
    ensures Marks(steps + [cmp] + [swap], Sorted) == Marks(steps, Sorted)
  {
    MarksSnoc(steps, cmp, Highlight);
    MarksSnoc(steps, cmp, Sorted);
    MarksSnoc(steps + [cmp], swap, Highlight);
    MarksSnoc(steps + [cmp], swap, Sorted);
  }

  /** The local swap helper (lines 9-11). */
  method Exchange(arr: array<int>, i: int, j: int)
    requires 0 <= i < arr.Length && 0 <= j < arr.Length
    modifies arr
    ensures arr[..] == Swapped(old(arr[..]), i, j)
  {
    arr[i], arr[j] := arr[j], arr[i];
  }

  /** What heapify needs before sifting at r (line 13). */
  ghost predicate Sifting(original: seq<int>, a: seq<int>, size: int, lo: int, r: int,
                          steps: seq<Step>, h: seq<State>) {
    && |a| == |original|
    && HeapExcept(a, size, lo, r)
    && Recorded(original, steps, h, a)
    && (forall k :: k in h[|steps|].sorted ==> size <= k)
  }

  /** `b` is `a` with the prefix below `size` rearranged into heap order from lo. */
  ghost predicate SiftedFrom(a: seq<int>, b: seq<int>, size: int, lo: int) {
    && 0 <= size <= |a| == |b|
    && HeapFrom(b, size, lo)
    && multiset(b[..size]) == multiset(a[..size])
    && b[size..] == a[size..]
  }

  /** When the root is not smaller than its children, the subtree is a heap. */
  lemma SiftDone(a: seq<int>, size: int, lo: int, r: int)
    requires HeapExcept(a, size, lo, r) && Largest(a, size, r) == r
    ensures HeapFrom(a, size, lo)
  {
    assert HeapAt(a, size, r);
  }

  /** Exchanging the root with its larger child moves the fault one level down. */
  lemma SiftSwap(a: seq<int>, size: int, lo: int, r: int)
    requires HeapExcept(a, size, lo, r)
    requires Largest(a, size, r) != r
    ensures var m := Largest(a, size, r);
      HeapExcept(Swapped(a, r, m), size, lo, m)
  {
    var m := Largest(a, size, r);
    var b := Swapped(a, r, m);
    assert HeapAt(a, size, m);
    assert (m - 1) / 2 == r;
    if Left(m) < size { assert b[Left(m)] == a[Left(m)]; }
    if Right(m) < size { assert b[Right(m)] == a[Right(m)]; }
    forall k | lo <= k < size && k != m ensures HeapAt(b, size, k) {
      if k == r {
        if Left(r) < size && Left(r) != m { assert b[Left(r)] == a[Left(r)]; }
        if Right(r) < size && Right(r) != m { assert b[Right(r)] == a[Right(r)]; }
      } else if Left(k) == r || Right(k) == r {
        assert (r - 1) / 2 == k && b[k] == a[k] && a[k] >= a[m];
        assert HeapAt(a, size, k);
        if Left(k) != r && Left(k) < size { assert b[Left(k)] == a[Left(k)]; }
        if Right(k) != r && Right(k) < size { assert b[Right(k)] == a[Right(k)]; }
      } else {
        assert HeapAt(a, size, k) && b[k] == a[k];
        if Left(k) < size { assert b[Left(k)] == a[Left(k)]; }
        if Right(k) < size { assert b[Right(k)] == a[Right(k)]; }
      }
    }
  }

  /** The comparison of line 26 at root r and largest child m. */
  function SiftCompare(r: int, m: int): Step {
    Plain(Compare, [r, m], 9)
  }

  /** The swap of line 34, carrying the values after the exchange. */
  function SiftExchange(b: seq<int>, r: int, m: int): Step
    requires 0 <= r < |b| && 0 <= m < |b|
  {
    Step(Swap, [r, m], Some([b[r], b[m]]), Some(13), None)
  }

  /** What a stretch of the generator does to its array: the array it leaves
      and the steps it records. */
  datatype Outcome = Outcome(arr: seq<int>, steps: seq<Step>)

  /** The sift-down of lines 13-44 at root r as a value: nothing when no child
      inside the heap beats the root, otherwise the comparison and the swap
      with the larger child, then the sift-down from that child. */
  function Sift(a: seq<int>, size: int, r: int): (o: Outcome)
    requires 0 <= r < size <= |a|
    ensures |o.arr| == |a|
    decreases size - r
  {
    var m := Largest(a, size, r);
    if m == r then Outcome(a, [])
    else
      var b := Swapped(a, r, m);
      var rest := Sift(b, size, m);
      Outcome(rest.arr, [SiftCompare(r, m), SiftExchange(b, r, m)] + rest.steps)
  }

  /** The sift-down records nothing exactly when the root is at least both of
      its children inside the heap; otherwise it opens with the comparison and
      the swap of the root and its larger child, the left one winning a tie. */
  lemma SiftOpening(a: seq<int>, size: int, r: int)
    requires 0 <= r < size <= |a|
    ensures var s := Sift(a, size, r).steps;
      && (s == [] <==> (Left(r) < size ==> a[Left(r)] <= a[r]) && (Right(r) < size ==> a[Right(r)] <= a[r]))
      && (s != [] ==>
            var m := if Right(r) < size && a[Right(r)] > a[r] && a[Right(r)] > a[Left(r)] then Right(r) else Left(r);
            |s| >= 2 && s[0] == SiftCompare(r, m) && s[1] == SiftExchange(Swapped(a, r, m), r, m))
  {
  }

  /** Node k lies in the subtree rooted at r: it is r, or its parent does. */
  ghost predicate InTree(r: int, k: int)
    decreases k
  {
    0 <= r <= k && (k == r || InTree(r, (k - 1) / 2))
  }

  /** Every node of the subtree rooted at r that lies inside the heap is in
      max-heap order (vacuous when r itself lies outside the heap). */
  ghost predicate TreeHeap(a: seq<int>, size: int, r: int) {
    forall k :: InTree(r, k) && k < size ==> HeapAt(a, size, k)
  }

  /** A subtree of a subtree is a subtree. */
  lemma {:induction false} TreeTrans(x: int, y: int, k: int)
    requires InTree(x, y) && InTree(y, k)
    ensures InTree(x, k)
    decreases k
  {
    if k != y {
      TreeTrans(x, y, (k - 1) / 2);
    }
  }

  /** Two subtrees that share a node are nested: the lower root lies in the
      subtree of the higher one. */
  lemma {:induction false} TreeNested(x: int, y: int, k: int)
    requires InTree(x, k) && InTree(y, k) && x <= y
    ensures InTree(x, y)
    decreases k
  {
    if k != y {
      TreeNested(x, y, (k - 1) / 2);
    }
  }

  /** The subtrees of the two children of r share no node, and every node
      of r's subtree other than r lies in one of them. */
  lemma {:induction false} TreeSplit(r: int, k: int)
    requires InTree(r, k) && k != r
    ensures InTree(Left(r), k) || InTree(Right(r), k)
    ensures !(InTree(Left(r), k) && InTree(Right(r), k))
    decreases k
  {
    var p := (k - 1) / 2;
    if p != r {
      TreeSplit(r, p);
    }
    if InTree(Left(r), k) && InTree(Right(r), k) {
      TreeNested(Left(r), Right(r), k);
    }
  }

  /** The root of a subtree in heap order is its largest element. */
  lemma {:induction false} TreeMax(a: seq<int>, size: int, r: int, k: int)
    requires size <= |a| && TreeHeap(a, size, r) && InTree(r, k) && k < size
    ensures a[k] <= a[r]
    decreases k
  {
    if k != r {
      var p := (k - 1) / 2;
      TreeMax(a, size, r, p);
      assert HeapAt(a, size, p);
      assert k == Left(p) || k == Right(p);
    }
  }

  /** The sift-down at r changes nothing outside r's subtree inside the heap. */
  lemma {:induction false} SiftFrame(a: seq<int>, size: int, r: int)
    requires 0 <= r < size <= |a|
    ensures forall k :: 0 <= k < |a| && (!InTree(r, k) || size <= k) ==> Sift(a, size, r).arr[k] == a[k]
    decreases size - r
  {
    var m := Largest(a, size, r);
    if m != r {
      var b := Swapped(a, r, m);
      SiftFrame(b, size, m);
      assert InTree(r, m);
      forall k | 0 <= k < |a| && (!InTree(r, k) || size <= k)
        ensures Sift(a, size, r).arr[k] == a[k]
      {
        if InTree(m, k) && k < size {
          TreeTrans(r, m, k);
        }
      }
    }
  }

  /** The sift-down at r keeps every value of r's subtree inside the heap
      below any bound those values had. */
  lemma {:induction false} SiftBound(a: seq<int>, size: int, r: int, bound: int)
    requires 0 <= r < size <= |a|
    requires forall k :: InTree(r, k) && k < size ==> a[k] <= bound
    ensures forall k :: InTree(r, k) && k < size ==> Sift(a, size, r).arr[k] <= bound
    decreases size - r
  {
    var m := Largest(a, size, r);
    if m != r {
      var b := Swapped(a, r, m);
      assert InTree(r, m);
      forall k | InTree(m, k) && k < size ensures b[k] <= bound {
        TreeTrans(r, m, k);
      }
      SiftBound(b, size, m, bound);
      SiftFrame(b, size, m);
    }
  }

  /** Exchanging r with its child m leaves the subtrees below m as they were. */
  lemma SwapKeepsBelow(a: seq<int>, size: int, r: int, m: int)
    requires 0 <= r < size <= |a| && (m == Left(r) || m == Right(r)) && m < size
    requires TreeHeap(a, size, m)
    ensures TreeHeap(Swapped(a, r, m), size, Left(m)) && TreeHeap(Swapped(a, r, m), size, Right(m))
  {
    var b := Swapped(a, r, m);
    assert InTree(m, m);
    assert InTree(m, Left(m)) && InTree(m, Right(m));
    forall c, k | c in {Left(m), Right(m)} && InTree(c, k) && k < size
      ensures HeapAt(b, size, k)
    {
      TreeTrans(m, c, k);
      assert HeapAt(a, size, k);
    }
  }

  /** After exchanging r with its larger child m, every value of m's subtree
      is at most the old a[m]. */
  lemma SwapBounded(a: seq<int>, size: int, r: int, m: int)
    requires 0 <= r < size <= |a| && (m == Left(r) || m == Right(r)) && m < size
    requires TreeHeap(a, size, m) && a[r] < a[m]
    ensures forall k :: InTree(m, k) && k < size ==> Swapped(a, r, m)[k] <= a[m]
  {
    forall k | InTree(m, k) && k < size ensures Swapped(a, r, m)[k] <= a[m] {
      if k != m {
        TreeMax(a, size, m, k);
      }
    }
  }

  /** What the sift-down at r leaves in c, once the subtree of the larger
      child m is a heap below a[m], a[m] sits at r and the rest of the array
      is untouched. */
  ghost predicate Joinable(a: seq<int>, c: seq<int>, size: int, r: int, m: int) {
    && 0 <= r < size <= |a| && |c| == |a|
    && m == Largest(a, size, r) && m != r
    && TreeHeap(a, size, Left(r)) && TreeHeap(a, size, Right(r))
    && TreeHeap(c, size, m) && c[r] == a[m]
    && (forall k :: InTree(m, k) && k < size ==> c[k] <= a[m])
    && (forall k :: 0 <= k < |a| && !InTree(m, k) && k != r ==> c[k] == a[k])
  }

  /** The root r is in heap order: its children hold at most a[m]. */
  lemma JoinRoot(a: seq<int>, c: seq<int>, size: int, r: int, m: int)
    requires Joinable(a, c, size, r, m)
    ensures HeapAt(c, size, r)
  {
    var o := if m == Left(r) then Right(r) else Left(r);
    assert InTree(m, m);
    if o < size {
      assert InTree(o, o) && InTree(r, r);
      TreeSplit(r, o);
      assert c[o] == a[o];
    }
  }

  /** A node of the other child's subtree keeps its order: neither it nor
      its children lie in m's subtree or at r. */
  lemma JoinOther(a: seq<int>, c: seq<int>, size: int, r: int, m: int, k: int)
    requires Joinable(a, c, size, r, m)
    requires InTree(r, k) && k < size && k != r && !InTree(m, k)
    ensures HeapAt(c, size, k)
  {
    TreeSplit(r, k);
    assert HeapAt(a, size, k) by {
      if InTree(Left(r), k) {
        assert TreeHeap(a, size, Left(r));
      } else {
        assert TreeHeap(a, size, Right(r));
      }
    }
    assert r < k && (k - 1) / 2 < k;
    assert (Left(k) - 1) / 2 == k && (Right(k) - 1) / 2 == k;
    assert !InTree(m, Left(k)) && !InTree(m, Right(k));
  }

  /** Together: the subtree of r is a heap. */
  lemma SiftJoin(a: seq<int>, c: seq<int>, size: int, r: int, m: int)
    requires Joinable(a, c, size, r, m)
    ensures TreeHeap(c, size, r)
  {
    forall k | InTree(r, k) && k < size ensures HeapAt(c, size, k) {
      if k == r {
        JoinRoot(a, c, size, r, m);
      } else if !InTree(m, k) {
        JoinOther(a, c, size, r, m, k);
      }
    }
  }

  /** The contract of heapify in its subtree form (lines 13-44): when the
      subtrees of both children of r are max-heaps inside the heap, the
      sift-down at r leaves the subtree of r a max-heap. */
  lemma {:induction false} SiftSubtree(a: seq<int>, size: int, r: int)
    requires 0 <= r < size <= |a|
    requires TreeHeap(a, size, Left(r)) && TreeHeap(a, size, Right(r))
    ensures TreeHeap(Sift(a, size, r).arr, size, r)
    decreases size - r
  {
    var m := Largest(a, size, r);
    if m == r {
      forall k | InTree(r, k) && k < size ensures HeapAt(a, size, k) {
        if k != r {
          TreeSplit(r, k);
        }
      }
    } else {
      var b := Swapped(a, r, m);
      assert TreeHeap(a, size, m);
      SwapKeepsBelow(a, size, r, m);
      SiftSubtree(b, size, m);
      SwapBounded(a, size, r, m);
      SiftBound(b, size, m, a[m]);
      SiftFrame(b, size, m);
      assert InTree(r, r) && InTree(m, m) && !InTree(m, r);
      SiftJoin(a, Sift(b, size, m).arr, size, r, m);
    }
  }

  /** Recording the comparison and swap of r and m inside the heap keeps the
      record and the marks, and nothing below `size` is sorted afterwards. */
  lemma SiftRecord(original: seq<int>, a: seq<int>, size: int, r: int, m: int,
                   steps: seq<Step>, h: seq<State>)
    returns (h2: seq<State>)
    requires Recorded(original, steps, h, a)
    requires 0 <= r < size && 0 <= m < size && size <= |a| && r != m
    requires forall k :: k in h[|steps|].sorted ==> size <= k
    ensures var b := Swapped(a, r, m);
      var steps2 := steps + [SiftCompare(r, m)] + [SiftExchange(b, r, m)];
      && Recorded(original, steps2, h2, b)
      && h2[|steps2|].sorted == h[|steps|].sorted
      && Marks(steps2, Highlight) == Marks(steps, Highlight)
      && Marks(steps2, Sorted) == Marks(steps, Sorted)
  {
    var b := Swapped(a, r, m);
    var swap := SiftExchange(b, r, m);
    assert Elems(swap.indices) == {r, m};
    assert swap.indices[0] == r && swap.indices[1] == m && swap.values.value == [a[m], a[r]];
    assert IsExchange(a, swap);
    h2 := RecordPair(original, steps, h, a, SiftCompare(r, m), swap);
    MarksPair(steps, SiftCompare(r, m), swap);
  }

  /** The comparison and swap of lines 25-40 at root r, and what they keep. */
  lemma SiftStep(original: seq<int>, a: seq<int>, size: int, lo: int, r: int,
                 steps: seq<Step>, h: seq<State>)
    returns (h2: seq<State>)
    requires Sifting(original, a, size, lo, r, steps, h)
    requires Largest(a, size, r) != r
    ensures var m := Largest(a, size, r);
      var b := Swapped(a, r, m);
      var steps2 := steps + [SiftCompare(r, m)] + [SiftExchange(b, r, m)];
      && Sifting(original, b, size, lo, m, steps2, h2)
      && h2[|steps2|].sorted == h[|steps|].sorted
      && Marks(steps2, Highlight) == Marks(steps, Highlight)
      && Marks(steps2, Sorted) == Marks(steps, Sorted)
      && multiset(b[..size]) == multiset(a[..size]) && b[size..] == a[size..]
  {
    var m := Largest(a, size, r);
    h2 := SiftRecord(original, a, size, r, m, steps, h);
    SiftSwap(a, size, lo, r);
    SwappedPrefix(a, r, m, size);
  }

  /** The recursive sift-down (lines 13-44).  The array it leaves and the
      steps it appends are those of `Sift`.  In the subtree form of its
      contract, when the subtrees of both children of `root` are max-heaps,
      the subtree of `root` is one afterwards.  Its precondition is the one
      both call sites give: every node from lo on other than `root` is in heap
      order, and then every node from lo on is afterwards.  The prefix below
      heapSize is only rearranged and the rest of the array is unchanged.
      The recursion descends to a child, so `heapSize - root` decreases. */
  method Heapify(ghost original: seq<int>, arr: array<int>, heapSize: int, root: int, ghost lo: int,
                 steps: seq<Step>, ghost h: seq<State>)
    returns (steps': seq<Step>, ghost h': seq<State>)
    requires Sifting(original, arr[..], heapSize, lo, root, steps, h)
    modifies arr
    ensures SiftedFrom(old(arr[..]), arr[..], heapSize, lo)
    ensures Recorded(original, steps', h', arr[..])
    ensures h'[|steps'|].sorted == h[|steps|].sorted
    ensures Marks(steps', Highlight) == Marks(steps, Highlight)
    ensures Marks(steps', Sorted) == Marks(steps, Sorted)
    ensures arr[..] == Sift(old(arr[..]), heapSize, root).arr
    ensures steps' == steps + Sift(old(arr[..]), heapSize, root).steps
    ensures TreeHeap(old(arr[..]), heapSize, Left(root)) && TreeHeap(old(arr[..]), heapSize, Right(root))
      ==> TreeHeap(arr[..], heapSize, root)
    decreases heapSize - root
  {
    ghost var a := arr[..];
    var largest := root;
    var left := 2 * root + 1;
    var right := 2 * root + 2;
    if left < heapSize && arr[left] > arr[largest] {
      largest := left;
    }
    if right < heapSize && arr[right] > arr[largest] {
      largest := right;
    }
    assert largest == Largest(a, heapSize, root);
    if largest != root {
      ghost var h2 := SiftStep(original, a, heapSize, lo, root, steps, h);
      var cmp := SiftCompare(root, largest);
      Exchange(arr, root, largest);
      var swap := Step(Swap, [root, largest], Some([arr[root], arr[largest]]), Some(13), None);
      ghost var b := arr[..];
      assert swap == SiftExchange(b, root, largest);
      steps', h' := Heapify(original, arr, heapSize, largest, lo, steps + [cmp] + [swap], h2);
      SiftedChain(a, b, arr[..], heapSize, lo);
      SiftUnfold(a, heapSize, root, steps);
    } else {
      SiftDone(a, heapSize, lo, root);
      steps', h' := steps, h;
    }
    if TreeHeap(a, heapSize, Left(root)) && TreeHeap(a, heapSize, Right(root)) {
      SiftSubtree(a, heapSize, root);
    }
  }

  /** One level of Sift, as the recursive call of line 42 sees it. */
  lemma SiftUnfold(a: seq<int>, size: int, r: int, steps: seq<Step>)
    requires 0 <= r < size <= |a| && Largest(a, size, r) != r
    ensures var m := Largest(a, size, r);
      var b := Swapped(a, r, m);
      && Sift(a, size, r).arr == Sift(b, size, m).arr
      && steps + [SiftCompare(r, m)] + [SiftExchange(b, r, m)] + Sift(b, size, m).steps
         == steps + Sift(a, size, r).steps
  {
    var m := Largest(a, size, r);
    var b := Swapped(a, r, m);
    assert Sift(a, size, r).steps == [SiftCompare(r, m), SiftExchange(b, r, m)] + Sift(b, size, m).steps;
  }

  lemma SiftedChain(a: seq<int>, b: seq<int>, c: seq<int>, size: int, lo: int)
    requires 0 <= size <= |a| == |b|
    requires multiset(b[..size]) == multiset(a[..size]) && b[size..] == a[size..]
    requires SiftedFrom(b, c, size, lo)
    ensures SiftedFrom(a, c, size, lo)
  {
  }

  /** [[hi-1], [hi-2], ..., [lo]]: single-index marks counting down. */
  function Down(hi: int, lo: int): seq<seq<int>>
    decreases hi - lo
  {
    if hi <= lo then [] else [[hi - 1]] + Down(hi - 1, lo)
  }

  lemma {:induction false} DownSnoc(hi: int, lo: int)
    requires lo < hi
    ensures Down(hi, lo) == Down(hi, lo + 1) + [[lo]]
    decreases hi - lo
  {
    if lo + 1 < hi {
      DownSnoc(hi - 1, lo);
    }
  }

  /** The build phase before heapifying at i (lines 47-55): the nodes after i
      are in heap order, only highlights [n/2-1] ... [i+1] are marked, and
      nothing is sorted. */
  ghost predicate Building(original: seq<int>, a: seq<int>, i: int, steps: seq<Step>, h: seq<State>) {
    && |a| == |original| && -1 <= i < |a|
    && HeapFrom(a, |a|, i + 1)
    && multiset(a) == multiset(original)
    && Recorded(original, steps, h, a)
    && h[|steps|].sorted == {}
    && Marks(steps, Highlight) == Down(|a| / 2, i + 1)
    && Marks(steps, Sorted) == []
    && (|a| <= 1 ==> steps == [])
  }

  lemma BuildStart(original: seq<int>)
    ensures Building(original, original, |original| / 2 - 1, [], [Initial(original)])
  {
  }

  /** The highlight of line 48. */
  function BuildMark(i: int): Step {
    Plain(Highlight, [i], 3)
  }

  /** The build loop of lines 47-55 from node i down to the root, as a value:
      for each node its highlight, then its sift-down over the whole array. */
  function Build(a: seq<int>, i: int): (o: Outcome)
    requires i < |a|
    ensures |o.arr| == |a|
    decreases i + 1
  {
    if i < 0 then Outcome(a, [])
    else
      var s := Sift(a, |a|, i);
      var rest := Build(s.arr, i - 1);
      Outcome(rest.arr, [BuildMark(i)] + s.steps + rest.steps)
  }

  /** Recording the highlight of line 48 sets heapify at i going. */
  lemma BuildStep(original: seq<int>, a: seq<int>, i: int, steps: seq<Step>, h: seq<State>)
    returns (h': seq<State>)
    requires 0 <= i && Building(original, a, i, steps, h) && i < |a| / 2
    ensures && Sifting(original, a, |a|, i, i, steps + [BuildMark(i)], h')
      && h'[|steps| + 1].sorted == {}
      && Marks(steps + [BuildMark(i)], Highlight) == Down(|a| / 2, i)
      && Marks(steps + [BuildMark(i)], Sorted) == []
  {
    var x := BuildMark(i);
    h' := Record(original, steps, h, a, x);
    MarksSnoc(steps, x, Highlight);
    MarksSnoc(steps, x, Sorted);
    DownSnoc(|a| / 2, i);
  }

  /** The build phase still to run from node i on array a, after `steps`,
      completes the whole build phase `all`. */
  ghost predicate BuildLeft(all: Outcome, a: seq<int>, i: int, steps: seq<Step>)
    requires i < |a|
  {
    var rest := Build(a, i);
    rest.arr == all.arr && steps + rest.steps == all.steps
  }

  /** Once past the root nothing is left to build. */
  lemma BuildEnd(all: Outcome, a: seq<int>, i: int, steps: seq<Step>)
    requires i < 0 && i < |a| && BuildLeft(all, a, i, steps)
    ensures Outcome(a, steps) == all
  {
    assert steps + [] == steps;
  }

  /** One round of the build loop of lines 47-55 keeps BuildLeft. */
  lemma BuildRound(all: Outcome, a: seq<int>, i: int, steps: seq<Step>)
    requires 0 <= i < |a| && BuildLeft(all, a, i, steps)
    ensures var s := Sift(a, |a|, i);
      BuildLeft(all, s.arr, i - 1, steps + [BuildMark(i)] + s.steps)
  {
    var s := Sift(a, |a|, i);
    assert steps + [BuildMark(i)] + s.steps + Build(s.arr, i - 1).steps == steps + Build(a, i).steps;
  }

  /** After heapify at i, the nodes from i on are in heap order. */
  lemma BuildNext(original: seq<int>, a: seq<int>, b: seq<int>, i: int, steps: seq<Step>, h: seq<State>)
    requires 0 <= i < |a| == |original| && multiset(a) == multiset(original)
    requires SiftedFrom(a, b, |a|, i) && Recorded(original, steps, h, b)
    requires h[|steps|].sorted == {}
    requires Marks(steps, Highlight) == Down(|a| / 2, i) && Marks(steps, Sorted) == []
    requires i < |a| / 2
    ensures Building(original, b, i - 1, steps, h)
  {
    assert a[..|a|] == a && b[..|b|] == b;
  }

  /** The extraction phase before position i (lines 58-83): a heap of size
      i+1, above it the largest elements in ascending order, all marked. */
  ghost predicate Extracting(original: seq<int>, a: seq<int>, i: int, steps: seq<Step>, h: seq<State>) {
    && |a| == |original| && -1 <= i < |a| && (|a| >= 1 ==> 0 <= i)
    && HeapFrom(a, i + 1, 0)
    && AscendingBetween(a, i + 1, |a|) && Split(a, i + 1)
    && multiset(a) == multiset(original)
    && Recorded(original, steps, h, a)
    && IsRange(h[|steps|].sorted, i + 1, |a|)
    && Marks(steps, Highlight) == Down(|a| / 2, 0)
    && Marks(steps, Sorted) == Down(|a|, i + 1)
    && (|a| <= 1 ==> steps == [])
  }

  lemma BuildDone(original: seq<int>, a: seq<int>, steps: seq<Step>, h: seq<State>)
    requires Building(original, a, -1, steps, h)
    ensures Extracting(original, a, |a| - 1, steps, h)
  {
  }

  /** In a heap, the root is the largest element. */
  lemma {:induction false} RootIsMax(a: seq<int>, size: int, k: int)
    requires HeapFrom(a, size, 0) && 0 <= k < size <= |a|
    ensures a[0] >= a[k]
  {
    if k > 0 {
      var parent := (k - 1) / 2;
      RootIsMax(a, size, parent);
      assert HeapAt(a, size, parent);
      assert Left(parent) == k || Right(parent) == k;
    }
  }

  /** Moving the root to position i (lines 59-80) extends the sorted suffix
      and leaves a heap of size i that is faulty only at the root. */
  lemma ExtractOrder(a: seq<int>, i: int)
    requires 0 < i < |a| && HeapFrom(a, i + 1, 0)
    requires AscendingBetween(a, i + 1, |a|) && Split(a, i + 1)
    ensures var b := Swapped(a, 0, i);
      && HeapExcept(b, i, 0, 0)
      && AscendingBetween(b, i, |b|) && Split(b, i)
  {
    var b := Swapped(a, 0, i);
    forall k | 0 <= k <= i ensures a[0] >= a[k] {
      RootIsMax(a, i + 1, k);
    }
    forall k | 0 <= k < i && k != 0 ensures HeapAt(b, i, k) {
      assert HeapAt(a, i + 1, k);
    }
  }

  /** The comparison of line 59, the swap of line 66 and the mark of line 74
      at position i. */
  function ExtractCompare(i: int): Step {
    Plain(Compare, [0, i], 7)
  }

  function ExtractExchange(b: seq<int>, i: int): Step
    requires 0 <= i < |b| && 0 < |b|
  {
    Step(Swap, [0, i], Some([b[0], b[i]]), Some(8), None)
  }

  function ExtractMark(i: int): Step {
    Plain(Sorted, [i], 8)
  }

  /** The extraction loop of lines 58-83 from position i down to 1, as a
      value: for each position the comparison with the root, the swap, the
      sorted mark, then the sift-down of the new root in the heap below i. */
  function Extract(a: seq<int>, i: int): (o: Outcome)
    requires i < |a|
    ensures |o.arr| == |a|
    decreases i
  {
    if i <= 0 then Outcome(a, [])
    else
      var b := Swapped(a, 0, i);
      var s := Sift(b, i, 0);
      var rest := Extract(s.arr, i - 1);
      Outcome(rest.arr, [ExtractCompare(i), ExtractExchange(b, i), ExtractMark(i)] + s.steps + rest.steps)
  }

  /** Recording the three steps of one extraction keeps the record, exchanges
      the root with position i and extends the sorted range down to i. */
  lemma ExtractRecord(original: seq<int>, a: seq<int>, i: int, steps: seq<Step>, h: seq<State>)
    returns (h3: seq<State>)
    requires Recorded(original, steps, h, a) && 0 < i < |a|
    requires IsRange(h[|steps|].sorted, i + 1, |a|)
    ensures var b := Swapped(a, 0, i);
      var steps3 := steps + [ExtractCompare(i)] + [ExtractExchange(b, i)] + [ExtractMark(i)];
      && Recorded(original, steps3, h3, b)
      && IsRange(h3[|steps3|].sorted, i, |a|)
      && (forall k :: k in h3[|steps3|].sorted ==> i <= k)
      && Marks(steps3, Highlight) == Marks(steps, Highlight)
      && Marks(steps3, Sorted) == Marks(steps, Sorted) + [[i]]
  {
    var b := Swapped(a, 0, i);
    var cmp, swap, mark := ExtractCompare(i), ExtractExchange(b, i), ExtractMark(i);
    assert Elems(swap.indices) == {0, i};
    var h2 := RecordPair(original, steps, h, a, cmp, swap);
    h3 := Record(original, steps + [cmp] + [swap], h2, b, mark);
    assert Elems(mark.indices) == {i};
    MarksPair(steps, cmp, swap);
    MarksSnoc(steps + [cmp] + [swap], mark, Highlight);
    MarksSnoc(steps + [cmp] + [swap], mark, Sorted);
  }

  /** The comparison, swap and mark of lines 59-80 at position i. */
  lemma ExtractStep(original: seq<int>, a: seq<int>, i: int, steps: seq<Step>, h: seq<State>)
    returns (h3: seq<State>)
    requires 0 < i && Extracting(original, a, i, steps, h)
    ensures var b := Swapped(a, 0, i);
      var steps3 := steps + [ExtractCompare(i)] + [ExtractExchange(b, i)] + [ExtractMark(i)];
      && Sifting(original, b, i, 0, 0, steps3, h3)
      && IsRange(h3[|steps3|].sorted, i, |a|)
      && AscendingBetween(b, i, |b|) && Split(b, i)
      && multiset(b) == multiset(original)
      && Marks(steps3, Highlight) == Down(|a| / 2, 0)
      && Marks(steps3, Sorted) == Down(|a|, i)
  {
    h3 := ExtractRecord(original, a, i, steps, h);
    ExtractOrder(a, i);
    SwappedPrefix(a, 0, i, |a|);
    DownSnoc(|a|, i);
    var b := Swapped(a, 0, i);
    assert a[..|a|] == a && b[..|b|] == b;
  }

  /** The extraction phase still to run from position i on array a, after
      `steps`, completes the array and the trace `all`. */
  ghost predicate ExtractLeft(all: Outcome, a: seq<int>, i: int, steps: seq<Step>)
    requires i < |a|
  {
    var rest := Extract(a, i);
    rest.arr == all.arr && steps + rest.steps == all.steps
  }

  /** Once position 0 is reached nothing is left to extract. */
  lemma ExtractEnd(all: Outcome, a: seq<int>, i: int, steps: seq<Step>)
    requires i <= 0 && i < |a| && ExtractLeft(all, a, i, steps)
    ensures Outcome(a, steps) == all
  {
    assert steps + [] == steps;
  }

  /** One round of the extraction loop of lines 58-83 keeps ExtractLeft. */
  lemma ExtractRound(all: Outcome, a: seq<int>, i: int, steps: seq<Step>)
    requires 0 < i < |a| && ExtractLeft(all, a, i, steps)
    ensures var b := Swapped(a, 0, i);
      var s := Sift(b, i, 0);
      ExtractLeft(all, s.arr, i - 1, steps + [ExtractCompare(i), ExtractExchange(b, i), ExtractMark(i)] + s.steps)
  {
    var b := Swapped(a, 0, i);
    var s := Sift(b, i, 0);
    assert steps + [ExtractCompare(i), ExtractExchange(b, i), ExtractMark(i)] + s.steps + Extract(s.arr, i - 1).steps
        == steps + Extract(a, i).steps;
  }

  /** Rearranging the prefix below i keeps it below the suffix. */
  lemma SplitKept(b: seq<int>, c: seq<int>, i: int)
    requires 0 <= i <= |b| == |c| && Split(b, i)
    requires multiset(c[..i]) == multiset(b[..i]) && c[i..] == b[i..]
    ensures Split(c, i)
  {
    forall x, y | 0 <= x < i <= y < |c| ensures c[x] <= c[y] {
      assert c[x] in multiset(b[..i]);
      var x' :| 0 <= x' < i && b[x'] == c[x];
      assert c[y] == c[i..][y - i] == b[y];
    }
  }

  /** After heapify at the root, the invariant holds one position lower. */
  lemma ExtractNext(original: seq<int>, b: seq<int>, c: seq<int>, i: int, steps: seq<Step>, h: seq<State>)
    requires 0 < i < |b| == |original|
    requires AscendingBetween(b, i, |b|) && Split(b, i) && multiset(b) == multiset(original)
    requires SiftedFrom(b, c, i, 0) && Recorded(original, steps, h, c)
    requires IsRange(h[|steps|].sorted, i, |b|)
    requires Marks(steps, Highlight) == Down(|b| / 2, 0) && Marks(steps, Sorted) == Down(|b|, i)
    ensures Extracting(original, c, i - 1, steps, h)
  {
    assert b == b[..i] + b[i..] && c == c[..i] + c[i..];
    SplitKept(b, c, i);
    forall x, y | i <= x < y < |c| ensures c[x] <= c[y] {
      assert c[x] == c[i..][x - i] == b[x] && c[y] == c[i..][y - i] == b[y];
    }
  }

  /** What the finished trace satisfies (the generator's contract). */
  ghost predicate HeapTrace(original: seq<int>, steps: seq<Step>) {
    && Exchanges(original, steps)
    && MarksKept(original, steps)
    && (forall p :: 0 <= p < |steps| ==> steps[p].kind in {Compare, Swap, Highlight, Sorted})
    && (forall p :: 0 <= p < |steps| && steps[p].kind == Compare ==>
          p + 1 < |steps| && steps[p + 1].kind == Swap && steps[p + 1].indices == steps[p].indices)
    && (forall p :: 0 <= p < |steps| && steps[p].kind == Swap ==>
          p > 0 && steps[p - 1].kind == Compare)
    && Marks(steps, Highlight) == Down(|original| / 2, 0)
    && Marks(steps, Sorted) == Down(|original|, 1) + [[0]]
    && steps != [] && Last(steps) == FinalSorted()
    && (|original| <= 1 ==> steps == [FinalSorted()])
    && var final := StateAt(original, steps, |steps| - 1);
      && Ascending(final.arr)
      && multiset(final.arr) == multiset(original)
      && AllMarked(final.sorted, |original|)
  }

  /** The closing mark of line 86. */
  function FinalSorted(): Step {
    Plain(Sorted, [0], 10)
  }

  /** The whole trace of lines 3-93 as a value: the build phase, the
      extraction phase on the heap it leaves, and the closing mark. */
  function HeapSteps(a: seq<int>): (s: seq<Step>)
    ensures |s| >= 1 && Last(s) == FinalSorted()
  {
    var built := Build(a, |a| / 2 - 1);
    built.steps + Extract(built.arr, |a| - 1).steps + [FinalSorted()]
  }

  /** The trace is the build phase's, then the extraction phase's from the
      array the build leaves, then the closing mark. */
  lemma HeapStepsSplit(a: seq<int>, built: Outcome, steps: seq<Step>)
    requires built == Build(a, |a| / 2 - 1)
    requires steps == built.steps + Extract(built.arr, |built.arr| - 1).steps
    ensures steps + [FinalSorted()] == HeapSteps(a)
  {
  }

  /** On [1, 2] the generator records seven steps: the highlight of the only
      inner node, the comparison and swap that sift 2 up, then the comparison
      and swap that move it behind the heap, its sorted mark, and the closing
      mark. */
  lemma OneTwo()
    ensures HeapSteps([1, 2]) == [
      Plain(Highlight, [0], 3),
      Plain(Compare, [0, 1], 9), Step(Swap, [0, 1], Some([2, 1]), Some(13), None),
      Plain(Compare, [0, 1], 7), Step(Swap, [0, 1], Some([1, 2]), Some(8), None), Plain(Sorted, [1], 8),
      Plain(Sorted, [0], 10)]
  {
    assert Largest([1, 2], 2, 0) == 1;
    assert Swapped([1, 2], 0, 1) == [2, 1];
    assert Sift([2, 1], 2, 1) == Outcome([2, 1], []);
    assert Sift([1, 2], 2, 0) == Outcome([2, 1], [Plain(Compare, [0, 1], 9), Step(Swap, [0, 1], Some([2, 1]), Some(13), None)]);
    assert Swapped([2, 1], 0, 1) == [1, 2];
    assert Sift([1, 2], 1, 0) == Outcome([1, 2], []);
  }

  lemma FinalMark(original: seq<int>, a: seq<int>, i: int, steps: seq<Step>, h: seq<State>)
    requires Extracting(original, a, i, steps, h) && i <= 0
    ensures HeapTrace(original, steps + [FinalSorted()])
  {
    var mark := FinalSorted();
    var h' := FinalState(original, a, i, steps, h);
    MarksSnoc(steps, mark, Highlight);
    MarksSnoc(steps, mark, Sorted);
    RecordedReplay(original, steps + [mark], h', a);
    RecordedShape(original, steps + [mark], h', a);
  }

  lemma FinalState(original: seq<int>, a: seq<int>, i: int, steps: seq<Step>, h: seq<State>)
    returns (h': seq<State>)
    requires Extracting(original, a, i, steps, h) && i <= 0
    ensures && Recorded(original, steps + [FinalSorted()], h', a)
      && AllMarked(h'[|steps| + 1].sorted, |a|)
      && Ascending(a)
      && Down(|a|, i + 1) == Down(|a|, 1)
  {
    var mark := FinalSorted();
    assert Elems(mark.indices) == {0};
    h' := Record(original, steps, h, a, mark);
  }

  /** The record, read through the reconstruction. */
  lemma RecordedReplay(original: seq<int>, steps: seq<Step>, h: seq<State>, a: seq<int>)
    requires Recorded(original, steps, h, a)
    ensures Exchanges(original, steps) && MarksKept(original, steps)
    ensures StateAt(original, steps, |steps| - 1) == h[|steps|]
  {
    assert History(original, steps, h) by {
      forall p | 0 <= p < |steps| ensures h[p + 1] == Apply(h[p], steps[p]) {
        assert StepOk(steps, h, p);
      }
    }
    HistoryIsStateAt(original, steps, h);
    forall p | 0 <= p < |steps|
      ensures steps[p].kind == Swap ==> IsExchange(StateAt(original, steps, p - 1).arr, steps[p])
      ensures Moves(steps[p]) ==> Elems(steps[p].indices) !! StateAt(original, steps, p - 1).sorted
    {
      assert StepOk(steps, h, p);
    }
  }

  /** The kinds of the record and how comparisons and swaps pair up. */
  lemma RecordedShape(original: seq<int>, steps: seq<Step>, h: seq<State>, a: seq<int>)
    requires Recorded(original, steps, h, a)
    ensures forall p :: 0 <= p < |steps| ==> steps[p].kind in {Compare, Swap, Highlight, Sorted}
    ensures forall p :: 0 <= p < |steps| && steps[p].kind == Compare ==>
      p + 1 < |steps| && steps[p + 1].kind == Swap && steps[p + 1].indices == steps[p].indices
    ensures forall p :: 0 <= p < |steps| && steps[p].kind == Swap ==> p > 0 && steps[p - 1].kind == Compare
  {
    forall p | 0 <= p < |steps|
      ensures steps[p].kind in {Compare, Swap, Highlight, Sorted}
      ensures steps[p].kind == Compare ==>
        p + 1 < |steps| && steps[p + 1].kind == Swap && steps[p + 1].indices == steps[p].indices
    {
      assert StepOk(steps, h, p);
      if steps[p].kind == Compare && p + 1 < |steps| {
        assert StepOk(steps, h, p + 1);
      }
    }
    forall p | 0 <= p < |steps| && steps[p].kind == Swap ensures p > 0 && steps[p - 1].kind == Compare {
      assert StepOk(steps, h, p);
    }
  }

  /** The generator (lines 3-93).  The caller's array is only read.  Every
      comparison is directly followed by the swap of the same pair, and every
      swap is a true exchange touching no sorted index; the highlights count
      down the inner nodes and the sorted marks count down the positions, the
      last being [0]; replaying the whole trace shows the input sorted with
      every index marked. */
  method GenerateHeapSortSteps(input: array<int>) returns (steps: seq<Step>)
    ensures steps == HeapSteps(input[..])
    ensures HeapTrace(input[..], steps)
  {
    var arr := Copy(input);
    steps := SortCopy(input[..], arr);
  }

  /** Lines 5-92 on the working copy arr of original. */
  method SortCopy(ghost original: seq<int>, arr: array<int>) returns (steps: seq<Step>)
    requires arr[..] == original
    modifies arr
    ensures steps == HeapSteps(original) && HeapTrace(original, steps)
  {
    ghost var h, stop;
    steps, h := BuildHeap(original, arr);
    ghost var built := Outcome(arr[..], steps);
    steps, h, stop := ExtractAll(original, arr, steps, h);
    Finish(original, built, arr[..], stop, steps, h);
    steps := steps + [FinalSorted()];
  }

  /** The closing mark ends the trace the two phases define. */
  lemma Finish(original: seq<int>, built: Outcome, a: seq<int>, i: int, steps: seq<Step>, h: seq<State>)
    requires Extracting(original, a, i, steps, h) && i <= 0
    requires built == Build(original, |original| / 2 - 1)
    requires steps == built.steps + Extract(built.arr, |built.arr| - 1).steps
    ensures steps + [FinalSorted()] == HeapSteps(original) && HeapTrace(original, steps + [FinalSorted()])
  {
    FinalMark(original, a, i, steps, h);
    HeapStepsSplit(original, built, steps);
  }

  /** The build phase (lines 47-55): a highlight and a heapify for every inner
      node, from the last one down to the root. */
  method BuildHeap(ghost original: seq<int>, arr: array<int>) returns (steps: seq<Step>, ghost h: seq<State>)
    requires arr[..] == original
    modifies arr
    ensures Extracting(original, arr[..], arr.Length - 1, steps, h)
    ensures Outcome(arr[..], steps) == Build(original, arr.Length / 2 - 1)
  {
    var n := arr.Length;
    h := [Initial(original)];
    steps := [];
    BuildStart(original);
    var i := n / 2 - 1;
    ghost var all := Build(original, i);
    assert BuildLeft(all, arr[..], i, steps) by { assert [] + all.steps == all.steps; }
    while i >= 0
      invariant i <= n / 2 - 1
      invariant Building(original, arr[..], i, steps, h)
      invariant BuildLeft(all, arr[..], i, steps)
    {
      ghost var a, before := arr[..], steps;
      steps, h := BuildOne(original, arr, i, steps, h);
      BuildRound(all, a, i, before);
      i := i - 1;
    }
    ghost var a := arr[..];
    BuildDone(original, a, steps, h);
    BuildEnd(all, a, i, steps);
    assert arr.Length == |a|;
  }

  /** One round of the build loop at node i (lines 48-54): its highlight,
      then heapify at i over the whole array. */
  method BuildOne(ghost original: seq<int>, arr: array<int>, i: int, steps: seq<Step>, ghost h: seq<State>)
    returns (steps': seq<Step>, ghost h': seq<State>)
    requires 0 <= i < arr.Length / 2 && Building(original, arr[..], i, steps, h)
    modifies arr
    ensures Building(original, arr[..], i - 1, steps', h')
    ensures arr[..] == Sift(old(arr[..]), arr.Length, i).arr
    ensures steps' == steps + [BuildMark(i)] + Sift(old(arr[..]), arr.Length, i).steps
  {
    h' := BuildStep(original, arr[..], i, steps, h);
    ghost var a := arr[..];
    steps', h' := Heapify(original, arr, arr.Length, i, i, steps + [Plain(Highlight, [i], 3)], h');
    BuildNext(original, a, arr[..], i, steps', h');
  }

  /** The extraction phase (lines 58-83): move the root behind the heap, mark
      it sorted and sift the new root down, until one element is left. */
  method ExtractAll(ghost original: seq<int>, arr: array<int>, steps0: seq<Step>, ghost h0: seq<State>)
    returns (steps: seq<Step>, ghost h: seq<State>, ghost stop: int)
    requires Extracting(original, arr[..], arr.Length - 1, steps0, h0)
    modifies arr
    ensures stop <= 0 && Extracting(original, arr[..], stop, steps, h)
    ensures arr[..] == Extract(old(arr[..]), arr.Length - 1).arr
    ensures steps == steps0 + Extract(old(arr[..]), arr.Length - 1).steps
  {
    steps, h := steps0, h0;
    var i := arr.Length - 1;
    ghost var whole := Extract(arr[..], i);
    ghost var all := Outcome(whole.arr, steps0 + whole.steps);
    while i > 0
      invariant Extracting(original, arr[..], i, steps, h)
      invariant ExtractLeft(all, arr[..], i, steps)
    {
      ghost var a, before := arr[..], steps;
      steps, h := ExtractOne(original, arr, i, steps, h);
      ExtractRound(all, a, i, before);
      i := i - 1;
    }
    ExtractEnd(all, arr[..], i, steps);
    stop := i;
  }

  /** One round of the extraction loop at position i (lines 59-82). */
  method ExtractOne(ghost original: seq<int>, arr: array<int>, i: int, steps: seq<Step>, ghost h: seq<State>)
    returns (steps': seq<Step>, ghost h': seq<State>)
    requires 0 < i && Extracting(original, arr[..], i, steps, h)
    modifies arr
    ensures Extracting(original, arr[..], i - 1, steps', h')
    ensures var b := Swapped(old(arr[..]), 0, i);
      && arr[..] == Sift(b, i, 0).arr
      && steps' == steps + [ExtractCompare(i), ExtractExchange(b, i), ExtractMark(i)] + Sift(b, i, 0).steps
  {
    ghost var h3 := ExtractStep(original, arr[..], i, steps, h);
    var cmp := Plain(Compare, [0, i], 7);
    Exchange(arr, 0, i);
    var swap := Step(Swap, [0, i], Some([arr[0], arr[i]]), Some(8), None);
    var mark := Plain(Sorted, [i], 8);
    ghost var b := arr[..];
    assert swap == ExtractExchange(b, i);
    assert steps + [cmp] + [swap] + [mark] == steps + [cmp, swap, mark];
    steps', h' := Heapify(original, arr, i, 0, 0, steps + [cmp, swap, mark], h3);
    ExtractNext(original, b, arr[..], i, steps', h');
  }
}
