/** Reconstruction of the displayed state at a position of a trace: the array
    after the value-carrying swaps so far, and the set of indices marked sorted.
    The state is recomputed from the original array on every call, never kept. */
module Reconstruction {
  import opened Steps

  /** What the visualizer shows: the array and the indices marked sorted. */
  datatype State = State(arr: seq<int>, sorted: set<int>)

  function Initial(a: seq<int>): State {
    State(a, {})
  }

  function Elems(s: seq<int>): set<int> {
    set x | x in s
  }

  /** `S` is exactly the integers in [lo, hi). */
  ghost predicate IsRange(S: set<int>, lo: int, hi: int) {
    forall k :: k in S <==> lo <= k < hi
  }

  /** Every index below n is marked, and index 0 even when n is 0: the
      sorted set a finished sorting trace ends with. */
  ghost predicate AllMarked(S: set<int>, n: int) {
    forall k :: k in S <==> k == 0 || 0 <= k < n
  }

  /** A step changes the array only when it is a swap over exactly two
      indices that carries values. */
  predicate Moves(st: Step) {
    st.kind == Swap && |st.indices| == 2 && st.values.Some?
  }

  /** Assignment to one element; an index outside the array writes nothing. */
  function Write(a: seq<int>, i: int, v: int): (r: seq<int>)
    ensures |r| == |a|
    ensures forall k :: 0 <= k < |a| ==> r[k] == if k == i then v else a[k]
  {
    if 0 <= i < |a| then a[i := v] else a
  }

  /** A moving swap writes its first value to its first index, then its second
      value to its second index; a value the step does not carry writes nothing. */
  function WriteSwap(a: seq<int>, st: Step): (r: seq<int>)
    requires Moves(st)
    ensures |r| == |a|
    ensures forall k :: 0 <= k < |a| && k !in st.indices ==> r[k] == a[k]
    ensures var i, v := st.indices, st.values.value;
      |v| == 2 && 0 <= i[0] < |a| && 0 <= i[1] < |a| ==>
        r[i[1]] == v[1] && (i[0] != i[1] ==> r[i[0]] == v[0])
  {
    var v := st.values.value;
    var a1 := if |v| > 0 then Write(a, st.indices[0], v[0]) else a;
    if |v| > 1 then Write(a1, st.indices[1], v[1]) else a1
  }

  /** The effect of one step on the displayed state. */
  function Apply(s: State, st: Step): (r: State)
    ensures |r.arr| == |s.arr|
    ensures !Moves(st) ==> r.arr == s.arr
    ensures st.kind != Sorted ==> r.sorted == s.sorted
    ensures st.kind == Sorted ==> r.sorted == s.sorted + Elems(st.indices)
  {
    State(if Moves(st) then WriteSwap(s.arr, st) else s.arr,
          if st.kind == Sorted then s.sorted + Elems(st.indices) else s.sorted)
  }

  /** The state after applying a whole trace, in order, to `s`. */
  function Replay(s: State, steps: seq<Step>): (r: State)
    ensures |r.arr| == |s.arr|
    ensures s.sorted <= r.sorted
    decreases |steps|
  {
    if steps == [] then s
    else Apply(Replay(s, steps[..|steps| - 1]), steps[|steps| - 1])
  }

  /** The reconstructed state at trace position `k`: -1 (or any position before
      the start) is the untouched original with nothing sorted; position k has
      steps 0..k applied.  A position past the last step is not allowed: the
      source would read an undefined step there. */
  function StateAt(original: seq<int>, steps: seq<Step>, k: int): (r: State)
    requires k < |steps|
    ensures |r.arr| == |original|
  {
    if k < 0 then Initial(original) else Replay(Initial(original), steps[..k + 1])
  }

  lemma ReplaySnoc(s: State, t: seq<Step>, x: Step)
    ensures Replay(s, t + [x]) == Apply(Replay(s, t), x)
  {
    assert (t + [x])[..|t|] == t;
  }

  /** Replaying a concatenation is replaying its parts one after the other. */
  lemma {:induction false} ReplayAppend(s: State, t: seq<Step>, u: seq<Step>)
    ensures Replay(s, t + u) == Replay(Replay(s, t), u)
    decreases |u|
  {
    if u == [] {
      assert t + u == t;
    } else {
      var u' := u[..|u| - 1];
      assert (t + u)[..|t + u| - 1] == t + u';
      ReplayAppend(s, t, u');
    }
  }

  /** Position -1 shows the original array and no sorted index. */
  lemma BeforeStart(original: seq<int>, steps: seq<Step>)
    ensures StateAt(original, steps, -1) == State(original, {})
  {
  }

  /** The state at position k is the state at k-1 with step k applied. */
  lemma StateAtStep(original: seq<int>, steps: seq<Step>, k: int)
    requires 0 <= k < |steps|
    ensures StateAt(original, steps, k) == Apply(StateAt(original, steps, k - 1), steps[k])
  {
    assert steps[..k + 1] == steps[..k] + [steps[k]];
    ReplaySnoc(Initial(original), steps[..k], steps[k]);
    if k == 0 {
      assert steps[..k] == [];
    }
  }

  /** The sorted set only grows as the position advances. */
  lemma SortedMonotone(original: seq<int>, steps: seq<Step>, k1: int, k2: int)
    requires k1 <= k2 < |steps|
    ensures StateAt(original, steps, k1).sorted <= StateAt(original, steps, k2).sorted
  {
    if k1 >= 0 {
      assert steps[..k2 + 1] == steps[..k1 + 1] + steps[k1 + 1..k2 + 1];
      ReplayAppend(Initial(original), steps[..k1 + 1], steps[k1 + 1..k2 + 1]);
    }
  }

  /** Every index named by some `sorted` step of a list of index lists. */
  function Union(m: seq<seq<int>>): set<int>
    decreases |m|
  {
    if m == [] then {} else Union(m[..|m| - 1]) + Elems(m[|m| - 1])
  }

  /** The sorted set is exactly the set of indices named by the `sorted` steps
      replayed so far. */
  lemma {:induction false} SortedIsMarked(s: State, t: seq<Step>)
    ensures Replay(s, t).sorted == s.sorted + Union(Marks(t, Sorted))
    decreases |t|
  {
    if t != [] {
      SortedIsMarked(s, t[..|t| - 1]);
    }
  }

  /** A trace none of whose steps moves values leaves the array as it was. */
  lemma {:induction false} StillTrace(s: State, t: seq<Step>)
    requires forall p :: 0 <= p < |t| ==> !Moves(t[p])
    ensures Replay(s, t).arr == s.arr
    decreases |t|
  {
    if t != [] {
      StillTrace(s, t[..|t| - 1]);
    }
  }

  /** A swap step that exchanges the two values it names, stating them as
      they stand after the exchange. */
  predicate IsExchange(a: seq<int>, st: Step) {
    && Moves(st)
    && |st.values.value| == 2
    && 0 <= st.indices[0] < |a| && 0 <= st.indices[1] < |a|
    && st.values.value == [a[st.indices[1]], a[st.indices[0]]]
  }

  /** Applying an exchange swaps two elements. */
  lemma ExchangeApply(s: State, st: Step)
    requires IsExchange(s.arr, st)
    ensures var i, j := st.indices[0], st.indices[1];
      Apply(s, st).arr == s.arr[i := s.arr[j]][j := s.arr[i]]
    ensures multiset(Apply(s, st).arr) == multiset(s.arr)
  {
    var i, j := st.indices[0], st.indices[1];
    var a := s.arr;
    var b := a[i := a[j]][j := a[i]];
    assert Apply(s, st).arr == b;
    var a1 := a[i := a[j]];
    assert multiset(a1) == multiset(a) - multiset{a[i]} + multiset{a[j]};
    assert multiset(b) == multiset(a1) - multiset{a1[j]} + multiset{a[i]};
  }

  /** `states` lists the state shown before each step of the trace and,
      last, the state after the whole trace. */
  ghost predicate History(original: seq<int>, steps: seq<Step>, states: seq<State>) {
    && |states| == |steps| + 1
    && states[0] == Initial(original)
    && forall p :: 0 <= p < |steps| ==> states[p + 1] == Apply(states[p], steps[p])
  }

  lemma HistorySnoc(original: seq<int>, steps: seq<Step>, states: seq<State>, x: Step)
    requires History(original, steps, states)
    ensures History(original, steps + [x], states + [Apply(states[|steps|], x)])
  {
  }

  /** The history is the reconstruction: entry p is the state at position p-1. */
  lemma HistoryIsStateAt(original: seq<int>, steps: seq<Step>, states: seq<State>)
    requires History(original, steps, states)
    ensures forall p :: 0 <= p <= |steps| ==> states[p] == StateAt(original, steps, p - 1)
  {
    forall p | 0 <= p <= |steps|
      ensures states[p] == StateAt(original, steps, p - 1)
    {
      HistoryAt(original, steps, states, p);
    }
  }

  lemma {:induction false} HistoryAt(original: seq<int>, steps: seq<Step>, states: seq<State>, p: nat)
    requires History(original, steps, states) && p <= |steps|
    ensures states[p] == StateAt(original, steps, p - 1)
  {
    if p > 0 {
      HistoryAt(original, steps, states, p - 1);
      StateAtStep(original, steps, p - 1);
    }
  }

  /** Every swap of the trace exchanges the two values it names in the
      array shown at that point. */
  ghost predicate Exchanges(original: seq<int>, steps: seq<Step>) {
    forall p :: 0 <= p < |steps| && steps[p].kind == Swap ==>
      IsExchange(StateAt(original, steps, p - 1).arr, steps[p])
  }

  /** No swap that moves values touches an index already marked sorted. */
  ghost predicate MarksKept(original: seq<int>, steps: seq<Step>) {
    forall p :: 0 <= p < |steps| && Moves(steps[p]) ==>
      Elems(steps[p].indices) !! StateAt(original, steps, p - 1).sorted
  }

  /** A trace of exchanges only rearranges the array, at every position. */
  lemma {:induction false} ExchangesPermute(original: seq<int>, steps: seq<Step>, k: int)
    requires Exchanges(original, steps) && k < |steps|
    ensures multiset(StateAt(original, steps, k).arr) == multiset(original)
    decreases k
  {
    if k >= 0 {
      ExchangesPermute(original, steps, k - 1);
      StateAtStep(original, steps, k);
      if steps[k].kind == Swap {
        ExchangeApply(StateAt(original, steps, k - 1), steps[k]);
      }
    }
  }

  /** When no swap touches a sorted index, an index holds its final value
      from the moment it is marked sorted. */
  lemma {:induction false} MarkedStaysPut(original: seq<int>, steps: seq<Step>, p: int, q: int, m: int)
    requires MarksKept(original, steps)
    requires p <= q < |steps| && 0 <= m < |original|
    requires m in StateAt(original, steps, p).sorted
    ensures StateAt(original, steps, q).arr[m] == StateAt(original, steps, p).arr[m]
    decreases q - p
  {
    if p < q {
      MarkedStaysPut(original, steps, p, q - 1, m);
      SortedMonotone(original, steps, p, q - 1);
      StateAtStep(original, steps, q);
    }
  }

  /** One iteration of the reconstruction loop: a swap writes its values
      into the scratch array, a sorted mark adds its indices to the set. */
  method ApplyInPlace(temp: array<int>, sortedIndices: set<int>, step: Step) returns (sorted': set<int>)
    modifies temp
    ensures State(temp[..], sorted') == Apply(State(old(temp[..]), sortedIndices), step)
  {
    if step.kind == Swap && |step.indices| == 2 && step.values.Some? {
      var v := step.values.value;
      if |v| > 0 && 0 <= step.indices[0] < temp.Length {
        temp[step.indices[0]] := v[0];
      }
      if |v| > 1 && 0 <= step.indices[1] < temp.Length {
        temp[step.indices[1]] := v[1];
      }
    }
    sorted' := sortedIndices;
    if step.kind == Sorted {
      sorted' := sortedIndices + Elems(step.indices);
    }
  }

  /** The reconstruction loop: copy the original into a scratch array, then
      apply steps 0..k one by one, writing swap values and collecting sorted
      indices.  The caller's array is a value and is not changed. */
  method Reconstruct(original: seq<int>, steps: seq<Step>, k: int)
    returns (arr: seq<int>, sortedIndices: set<int>)
    requires k < |steps|
    ensures State(arr, sortedIndices) == StateAt(original, steps, k)
  {
    var temp := new int[|original|](i requires 0 <= i < |original| => original[i]);
    sortedIndices := {};
    var last := if k < 0 then 0 else k + 1;
    var i := 0;
    while i < last
      invariant 0 <= i <= last <= |steps|
      invariant temp.Length == |original|
      invariant State(temp[..], sortedIndices) == Replay(Initial(original), steps[..i])
    {
      sortedIndices := ApplyInPlace(temp, sortedIndices, steps[i]);
      assert steps[..i + 1] == steps[..i] + [steps[i]];
      ReplaySnoc(Initial(original), steps[..i], steps[i]);
      i := i + 1;
    }
    arr := temp[..];
    if k < 0 {
      assert steps[..0] == [];
    }
  }
}
