/** The step vocabulary that every trace generator emits and the replay
    routine consumes: seven closed step kinds and one step record. */
module Steps {

  datatype Option<+T> = None | Some(value: T)

  /** The closed enumeration of step kinds. */
  datatype StepKind = Compare | Swap | Overwrite | Highlight | Sorted | Visit | Found

  /** The algorithm-specific extra data a step may carry.  Only the A* generator
      attaches any: the grid coordinates of a node, and for an updated node also
      its new g and f scores. */
  datatype Aux = Coord(x: nat, y: nat) | Scores(x: nat, y: nat, g: nat, f: nat)

  /** One record of a trace.  `indices` are positions in the displayed array (or
      flattened grid cells), `values` the post-operation values at those positions,
      `lineNo` the pseudocode line shown while the step is current.  The
      human-readable description text is not modelled. */
  datatype Step = Step(
    kind: StepKind,
    indices: seq<int>,
    values: Option<seq<int>>,
    lineNo: Option<nat>,
    auxiliary: Option<Aux>)

  /** A step without values or auxiliary data. */
  function Plain(kind: StepKind, indices: seq<int>, line: nat): Step {
    Step(kind, indices, None, Some(line), None)
  }

  /** The string literal by which the source names each kind. */
  function KindName(k: StepKind): string {
    match k
    case Compare => "compare"
    case Swap => "swap"
    case Overwrite => "overwrite"
    case Highlight => "highlight"
    case Sorted => "sorted"
    case Visit => "visit"
    case Found => "found"
  }

  /** Reads a kind back from its literal; any other string is not a kind. */
  function ParseKind(s: string): (r: Option<StepKind>)
    ensures r.Some? ==> KindName(r.value) == s
    ensures (exists k :: KindName(k) == s) ==> r.Some?
  {
    if s == "compare" then Some(Compare)
    else if s == "swap" then Some(Swap)
    else if s == "overwrite" then Some(Overwrite)
    else if s == "highlight" then Some(Highlight)
    else if s == "sorted" then Some(Sorted)
    else if s == "visit" then Some(Visit)
    else if s == "found" then Some(Found)
    else None
  }

  /** Naming a kind and reading it back is the identity, so the seven literals
      are pairwise distinct. */
  lemma KindNameRoundTrip(k: StepKind)
    ensures ParseKind(KindName(k)) == Some(k)
  {
  }

  /** The number of steps of kind `k` in a trace. */
  function CountKind(steps: seq<Step>, k: StepKind): (r: nat)
    ensures r <= |steps|
    decreases |steps|
  {
    if steps == [] then 0
    else CountKind(steps[..|steps| - 1], k) + (if steps[|steps| - 1].kind == k then 1 else 0)
  }

  lemma {:induction false} CountKindAppend(a: seq<Step>, b: seq<Step>, k: StepKind)
    ensures CountKind(a + b, k) == CountKind(a, k) + CountKind(b, k)
    decreases |b|
  {
    if b == [] {
      assert a + b == a;
    } else {
      var b' := b[..|b| - 1];
      assert (a + b)[..|a + b| - 1] == a + b';
      CountKindAppend(a, b', k);
    }
  }

  lemma CountKindSingle(x: Step, k: StepKind)
    ensures CountKind([x], k) == if x.kind == k then 1 else 0
  {
    assert [x][..0] == [];
  }

  lemma CountKindThree(a: seq<Step>, b: seq<Step>, c: seq<Step>, k: StepKind)
    ensures CountKind(a + b + c, k) == CountKind(a, k) + CountKind(b, k) + CountKind(c, k)
  {
    CountKindAppend(a, b, k);
    CountKindAppend(a + b, c, k);
  }

  /** Counting over a trace cut into two parts. */
  lemma CountKindSum(whole: seq<Step>, a: seq<Step>, b: seq<Step>, k: StepKind, ca: int, cb: int)
    requires whole == a + b && CountKind(a, k) == ca && CountKind(b, k) == cb
    ensures CountKind(whole, k) == ca + cb
  {
    CountKindAppend(a, b, k);
  }

  /** Counting over a trace cut into two parts and a final step. */
  lemma CountKindParts(whole: seq<Step>, a: seq<Step>, b: seq<Step>, x: Step, k: StepKind, ca: int, cb: int)
    requires whole == a + b + [x] && CountKind(a, k) == ca && CountKind(b, k) == cb
    ensures CountKind(whole, k) == ca + cb + if x.kind == k then 1 else 0
  {
    CountKindThree(a, b, [x], k);
    CountKindSingle(x, k);
  }

  /** The index lists of the steps of kind `k`, in trace order. */
  function Marks(steps: seq<Step>, k: StepKind): (r: seq<seq<int>>)
    ensures |r| == CountKind(steps, k)
    decreases |steps|
  {
    if steps == [] then []
    else
      var rest := Marks(steps[..|steps| - 1], k);
      if steps[|steps| - 1].kind == k then rest + [steps[|steps| - 1].indices] else rest
  }

  lemma {:induction false} MarksAppend(a: seq<Step>, b: seq<Step>, k: StepKind)
    ensures Marks(a + b, k) == Marks(a, k) + Marks(b, k)
    decreases |b|
  {
    if b == [] {
      assert a + b == a;
    } else {
      var b' := b[..|b| - 1];
      assert (a + b)[..|a + b| - 1] == a + b';
      MarksAppend(a, b', k);
    }
  }

  function Last(steps: seq<Step>): Step
    requires steps != []
  {
    steps[|steps| - 1]
  }

  /** A trace with a step of kind k counts at least one. */
  lemma {:induction false} CountKindPositive(steps: seq<Step>, p: nat, k: StepKind)
    requires p < |steps| && steps[p].kind == k
    ensures CountKind(steps, k) >= 1
    decreases |steps|
  {
    if p < |steps| - 1 {
      CountKindPositive(steps[..|steps| - 1], p, k);
    }
  }

  /** When every step of kind k names the same indices, so does every mark. */
  lemma {:induction false} MarksAreIndices(steps: seq<Step>, k: StepKind, ix: seq<int>)
    requires forall p :: 0 <= p < |steps| && steps[p].kind == k ==> steps[p].indices == ix
    ensures forall i :: 0 <= i < |Marks(steps, k)| ==> Marks(steps, k)[i] == ix
    ensures |Marks(steps, k)| >= 2 ==> Marks(steps, k)[0] == Marks(steps, k)[1]
    decreases |steps|
  {
    if steps != [] {
      MarksAreIndices(steps[..|steps| - 1], k, ix);
    }
  }

  /** Two steps of kind k count at least two. */
  lemma CountKindTwo(steps: seq<Step>, p: nat, q: nat, k: StepKind)
    requires p < q < |steps| && steps[p].kind == k && steps[q].kind == k
    ensures CountKind(steps, k) >= 2
  {
    CountKindPositive(steps[..q], p, k);
    CountKindPositive(steps[q..], 0, k);
    CountKindAppend(steps[..q], steps[q..], k);
    assert steps[..q] + steps[q..] == steps;
  }

  /** A trace with no step of kind k marks nothing for k. */
  lemma {:induction false} MarksNone(t: seq<Step>, k: StepKind)
    requires forall p :: 0 <= p < |t| ==> t[p].kind != k
    ensures Marks(t, k) == []
    decreases |t|
  {
    if t != [] {
      MarksNone(t[..|t| - 1], k);
    }
  }

  /** A sequence without repeats whose first two entries, if any, agree has at
      most one entry. */
  lemma DistinctAtMostOne<T>(v: seq<T>)
    requires forall p, q :: 0 <= p < q < |v| ==> v[p] != v[q]
    requires |v| >= 2 ==> v[0] == v[1]
    ensures |v| <= 1
  {
  }
}
