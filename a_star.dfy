/** The grid A* trace generator: a wall-free w-by-h grid with unit edge costs,
    the Manhattan heuristic towards the bottom-right corner, a linearly scanned
    open list with strict tie-breaking and a cap of 101 non-goal expansions. */
module AStar {
  import opened Steps
  import Reconstruction

  /** A grid node, named by its column x and row y. */
  datatype Cell = Cell(x: nat, y: nat)

  predicate InGrid(w: nat, h: nat, c: Cell) {
    c.x < w && c.y < h
  }

  /** The position of a node in the flattened grid, row after row
      (lines 65, 74, 101, 117). */
  function Flat(w: nat, h: nat, c: Cell): (r: nat)
    requires InGrid(w, h, c)
    ensures r < w * h
  {
    MulMono(c.y + 1, h, w);
    c.y * w + c.x
  }

  lemma MulMono(a: nat, b: nat, k: nat)
    requires a <= b
    ensures a * k <= b * k
  {
    assert b * k == a * k + (b - a) * k;
  }

  /** Distinct grid nodes have distinct flat indices. */
  lemma FlatInjective(w: nat, h: nat, a: Cell, b: Cell)
    requires InGrid(w, h, a) && InGrid(w, h, b) && Flat(w, h, a) == Flat(w, h, b)
    ensures a == b
  {
    if a.y < b.y {
      MulMono(a.y + 1, b.y, w);
      assert false;
    } else if b.y < a.y {
      MulMono(b.y + 1, a.y, w);
      assert false;
    }
  }

  function Dist(a: nat, b: nat): nat {
    if a <= b then b - a else a - b
  }

  /** The Manhattan distance from node c to the goal g (lines 14-16). */
  function Heuristic(c: Cell, goal: Cell): (r: nat)
    ensures r == 0 <==> c == goal
    ensures r <= c.x + c.y + goal.x + goal.y
  {
    Dist(c.x, goal.x) + Dist(c.y, goal.y)
  }

  /** Two grid nodes one unit step apart. */
  predicate Adjacent(a: Cell, b: Cell) {
    Dist(a.x, b.x) + Dist(a.y, b.y) == 1
  }

  /** One unit step changes the heuristic by exactly one, so it never
      overestimates the remaining cost and never drops by more than a step. */
  lemma HeuristicStep(a: Cell, b: Cell, goal: Cell)
    requires Adjacent(a, b)
    ensures Heuristic(b, goal) == Heuristic(a, goal) + 1 || Heuristic(b, goal) + 1 == Heuristic(a, goal)
  {
  }

  /** The neighbours of c that exist on the grid, in the order up, down,
      left, right (lines 85-90). */
  function Neighbours(w: nat, h: nat, c: Cell): (r: seq<Cell>)
    requires InGrid(w, h, c)
    ensures forall n :: n in r <==> InGrid(w, h, n) && Adjacent(c, n)
    ensures forall i, j :: 0 <= i < j < |r| ==> r[i] != r[j]
  {
    (if c.y > 0 then [Cell(c.x, c.y - 1)] else [])
    + (if c.y + 1 < h then [Cell(c.x, c.y + 1)] else [])
    + (if c.x > 0 then [Cell(c.x - 1, c.y)] else [])
    + (if c.x + 1 < w then [Cell(c.x + 1, c.y)] else [])
  }

  /** The node the search starts from and the node it looks for (lines 37-38). */
  function Goal(w: nat, h: nat): Cell
    requires w >= 1 && h >= 1
  {
    Cell(w - 1, h - 1)
  }

  // ---- the steps the generator records ----

  /** Lines 63-69: the node being expanded, with its coordinates. */
  function VisitAt(w: nat, h: nat, c: Cell): Step
    requires InGrid(w, h, c)
  {
    Step(Visit, [Flat(w, h, c)], None, Some(8), Some(Coord(c.x, c.y)))
  }

  /** Lines 99-105: a node entering the open list. */
  function AddedAt(w: nat, h: nat, c: Cell): Step
    requires InGrid(w, h, c)
  {
    Step(Highlight, [Flat(w, h, c)], None, Some(18), Some(Coord(c.x, c.y)))
  }

  /** Lines 115-121: a node whose scores were just set to g and f. */
  function UpdatedAt(w: nat, h: nat, c: Cell, g: nat, f: nat): Step
    requires InGrid(w, h, c)
  {
    Step(Compare, [Flat(w, h, c)], None, Some(17), Some(Scores(c.x, c.y, g, f)))
  }

  /** Lines 72-77: the goal was reached. */
  function FoundGoal(w: nat, h: nat): Step
    requires w >= 1 && h >= 1
  {
    Step(Found, [Flat(w, h, Goal(w, h))], None, Some(10), None)
  }

  /** Lines 126-131: the expansion cap was hit. */
  function LimitReached(): Step {
    Step(Found, [], None, Some(20), None)
  }

  /** Lines 137-142: the open list ran dry. */
  function SearchExhausted(): Step {
    Step(Found, [], None, Some(7), None)
  }

  function AuxCell(a: Aux): Cell {
    Cell(a.x, a.y)
  }

  /** The scores reported for an updated node: f is g plus the heuristic, and
      g is at least the node's distance from the start. */
  predicate ScoresOk(w: nat, h: nat, a: Aux)
    requires w >= 1 && h >= 1
  {
    a.Scores? && a.f == a.g + Heuristic(AuxCell(a), Goal(w, h)) && a.g >= a.x + a.y && a.g >= 1
  }

  /** A step recorded before the search ends: a visit, an addition to the open
      list or a score update, naming one grid node by flat index and coordinates. */
  predicate StepOk(w: nat, h: nat, st: Step)
    requires w >= 1 && h >= 1
  {
    && st.values == None
    && st.auxiliary.Some?
    && InGrid(w, h, AuxCell(st.auxiliary.value))
    && st.indices == [Flat(w, h, AuxCell(st.auxiliary.value))]
    && match st.kind
       case Visit => st.lineNo == Some(8) && st.auxiliary.value.Coord?
       case Highlight => st.lineNo == Some(18) && st.auxiliary.value.Coord?
       case Compare => st.lineNo == Some(17) && ScoresOk(w, h, st.auxiliary.value)
       case _ => false
  }

  ghost predicate TraceOk(w: nat, h: nat, t: seq<Step>)
    requires w >= 1 && h >= 1
  {
    forall p :: 0 <= p < |t| ==> StepOk(w, h, t[p])
  }

  /** Every addition to the open list is followed at once by the score update
      of the same node (lines 97-121). */
  ghost predicate HighlightThenCompare(t: seq<Step>) {
    forall p :: 0 <= p < |t| && t[p].kind == Highlight ==>
      p + 1 < |t| && t[p + 1].kind == Compare && t[p + 1].indices == t[p].indices
  }

  /** No node is visited twice. */
  ghost predicate DistinctVisits(t: seq<Step>) {
    var v := Marks(t, Visit);
    forall p, q :: 0 <= p < q < |v| ==> v[p] != v[q]
  }

  /** What the trace from one neighbour loop looks like. */
  ghost predicate ExpandOk(w: nat, h: nat, t: seq<Step>)
    requires w >= 1 && h >= 1
  {
    && TraceOk(w, h, t)
    && (forall p :: 0 <= p < |t| ==> t[p].kind != Visit)
    && HighlightThenCompare(t)
  }

  /** A whole trace: its last step and only its last step is a found step,
      every earlier step is well formed, no node is visited twice, and either
      the goal's visit and found close it or the cap of 101 visits was hit. */
  ghost predicate SearchTrace(w: nat, h: nat, t: seq<Step>)
    requires w >= 1 && h >= 1
  {
    && |t| >= 2
    && Last(t).kind == Found
    && TraceOk(w, h, t[..|t| - 1])
    && HighlightThenCompare(t)
    && DistinctVisits(t)
    && CountKind(t, Visit) <= 101
    && ((Last(t) == FoundGoal(w, h) && t[|t| - 2] == VisitAt(w, h, Goal(w, h)))
        || (Last(t) == LimitReached() && CountKind(t, Visit) == 101))
  }

  // ---- the search state ----

  /** The open list: grid nodes, none closed, none twice, each with f = g + h
      and g at least its distance from the start. */
  ghost predicate OpenOk(w: nat, h: nat, gs: seq<nat>, fs: seq<nat>, open: seq<Cell>, closed: set<Cell>)
    requires w >= 1 && h >= 1
  {
    && |gs| == w * h && |fs| == w * h
    && (forall c :: c in open ==> InGrid(w, h, c) && c !in closed)
    && (forall i, j :: 0 <= i < j < |open| ==> open[i] != open[j])
    && (forall c :: c in open ==>
          fs[Flat(w, h, c)] == gs[Flat(w, h, c)] + Heuristic(c, Goal(w, h)) && gs[Flat(w, h, c)] >= c.x + c.y)
  }

  /** The whole search state between expansions: the open list as above, the
      closed set on the grid and without the goal, the start still known, and
      every neighbour of a closed node open or closed. */
  ghost predicate SearchInv(w: nat, h: nat, gs: seq<nat>, fs: seq<nat>, open: seq<Cell>, closed: set<Cell>)
    requires w >= 1 && h >= 1
  {
    && OpenOk(w, h, gs, fs, open, closed)
    && (forall c :: c in closed ==> InGrid(w, h, c))
    && (Cell(0, 0) in open || Cell(0, 0) in closed)
    && Goal(w, h) !in closed
    && (forall c, n :: c in closed && InGrid(w, h, n) && Adjacent(c, n) ==> n in open || n in closed)
  }

  /** A set holding the start and closed under steps to neighbours holds the
      whole grid. */
  lemma {:induction false} AllReached(w: nat, h: nat, s: set<Cell>, x: nat, y: nat)
    requires x < w && y < h && Cell(0, 0) in s
    requires forall c, n :: c in s && InGrid(w, h, n) && Adjacent(c, n) ==> n in s
    ensures Cell(x, y) in s
    decreases x + y
  {
    if y > 0 {
      AllReached(w, h, s, x, y - 1);
      assert Adjacent(Cell(x, y - 1), Cell(x, y));
    } else if x > 0 {
      AllReached(w, h, s, x - 1, y);
      assert Adjacent(Cell(x - 1, y), Cell(x, y));
    }
  }

  /** On a grid without walls the open list never runs dry before the goal is
      closed, which it never is: the branch of lines 136-143 is dead. */
  lemma OpenNotEmpty(w: nat, h: nat, gs: seq<nat>, fs: seq<nat>, open: seq<Cell>, closed: set<Cell>)
    requires w >= 1 && h >= 1 && SearchInv(w, h, gs, fs, open, closed)
    ensures |open| > 0
  {
    if |open| == 0 {
      AllReached(w, h, closed, w - 1, h - 1);
    }
  }

  // ---- choosing the node to expand ----

  /** ci is the first position of the open list whose node has the least f. */
  ghost predicate IsLowest(w: nat, h: nat, open: seq<Cell>, fs: seq<nat>, ci: int)
    requires |fs| == w * h && forall c :: c in open ==> InGrid(w, h, c)
  {
    && 0 <= ci < |open|
    && (forall k :: 0 <= k < |open| ==> fs[Flat(w, h, open[ci])] <= fs[Flat(w, h, open[k])])
    && (forall k :: 0 <= k < ci ==> fs[Flat(w, h, open[k])] > fs[Flat(w, h, open[ci])])
  }

  /** The scan of lines 56-61 from position i on, with the choice so far at
      ci: a later entry replaces the choice only when its f is strictly
      smaller.  Started from a choice that is the first least one among the
      entries before i, it ends on the first least one of the whole list. */
  function Scan(w: nat, h: nat, open: seq<Cell>, fs: seq<nat>, i: nat, ci: nat): (r: nat)
    requires |fs| == w * h && (forall c :: c in open ==> InGrid(w, h, c)) && ci < i <= |open|
    ensures r < |open|
    ensures (forall k :: 0 <= k < i ==> fs[Flat(w, h, open[ci])] <= fs[Flat(w, h, open[k])])
         && (forall k :: 0 <= k < ci ==> fs[Flat(w, h, open[k])] > fs[Flat(w, h, open[ci])])
         ==> IsLowest(w, h, open, fs, r)
    decreases |open| - i
  {
    if i == |open| then ci
    else Scan(w, h, open, fs, i + 1, if fs[Flat(w, h, open[i])] < fs[Flat(w, h, open[ci])] then i else ci)
  }

  /** The node lines 53-61 choose: the first entry of the open list whose f
      is least. */
  function FirstLowest(w: nat, h: nat, open: seq<Cell>, fs: seq<nat>): (ci: nat)
    requires |open| > 0 && |fs| == w * h && forall c :: c in open ==> InGrid(w, h, c)
    ensures IsLowest(w, h, open, fs, ci)
  {
    Scan(w, h, open, fs, 1, 0)
  }

  /** The linear scan of lines 53-61: a later entry replaces the current
      choice only when its f is strictly smaller, so ties go to the earlier one. */
  method LowestF(w: nat, h: nat, open: seq<Cell>, f: array<nat>) returns (ci: nat)
    requires |open| > 0 && f.Length == w * h && forall c :: c in open ==> InGrid(w, h, c)
    ensures ci == FirstLowest(w, h, open, f[..])
  {
    ci := 0;
    for i := 1 to |open|
      invariant ci < i
      invariant Scan(w, h, open, f[..], i, ci) == FirstLowest(w, h, open, f[..])
    {
      if f[Flat(w, h, open[i])] < f[Flat(w, h, open[ci])] {
        ci := i;
      }
    }
  }

  // ---- relaxing one neighbour ----

  /** Flat indices of distinct grid nodes differ, so setting the scores of one
      node leaves every other node's scores alone. */
  lemma OthersKept(w: nat, h: nat, open: seq<Cell>, nb: Cell)
    requires InGrid(w, h, nb) && forall c :: c in open ==> InGrid(w, h, c)
    ensures forall c :: c in open && c != nb ==> Flat(w, h, c) != Flat(w, h, nb)
  {
    forall c | c in open && c != nb ensures Flat(w, h, c) != Flat(w, h, nb) {
      if Flat(w, h, c) == Flat(w, h, nb) {
        FlatInjective(w, h, c, nb);
      }
    }
  }

  /** A node entering the open list with g = v keeps the open list well formed. */
  lemma AddKeeps(w: nat, h: nat, gs: seq<nat>, fs: seq<nat>, open: seq<Cell>, closed: set<Cell>, nb: Cell, v: nat)
    requires w >= 1 && h >= 1 && OpenOk(w, h, gs, fs, open, closed)
    requires InGrid(w, h, nb) && nb !in closed && nb !in open && v >= nb.x + nb.y
    ensures var i := Flat(w, h, nb);
      OpenOk(w, h, gs[i := v], fs[i := v + Heuristic(nb, Goal(w, h))], open + [nb], closed)
  {
    OthersKept(w, h, open, nb);
    var o := open + [nb];
    forall i, j | 0 <= i < j < |o| ensures o[i] != o[j] {
      if j == |open| { assert o[i] in open; }
    }
  }

  /** An open node whose g drops to v keeps the open list well formed. */
  lemma UpdateKeeps(w: nat, h: nat, gs: seq<nat>, fs: seq<nat>, open: seq<Cell>, closed: set<Cell>, nb: Cell, v: nat)
    requires w >= 1 && h >= 1 && OpenOk(w, h, gs, fs, open, closed)
    requires nb in open && v >= nb.x + nb.y
    ensures var i := Flat(w, h, nb);
      OpenOk(w, h, gs[i := v], fs[i := v + Heuristic(nb, Goal(w, h))], open, closed)
  {
    OthersKept(w, h, open, nb);
  }

  /** The two steps that can follow from one neighbour are well formed. */
  lemma UpdatedOk(w: nat, h: nat, cur: Cell, nb: Cell, g: nat)
    requires w >= 1 && h >= 1 && InGrid(w, h, cur) && InGrid(w, h, nb) && Adjacent(cur, nb)
    requires g >= cur.x + cur.y + 1
    ensures var u := UpdatedAt(w, h, nb, g, g + Heuristic(nb, Goal(w, h)));
      && ExpandOk(w, h, [u])
      && ExpandOk(w, h, [AddedAt(w, h, nb), u])
  {
  }

  /** The state the search works on: the scores g and f by flat index, the
      open list, the closed set and the trace so far. */
  datatype Search = Search(g: seq<nat>, f: seq<nat>, open: seq<Cell>, closed: set<Cell>, steps: seq<Step>)

  /** Score arrays of the grid's size. */
  predicate Scored(w: nat, h: nat, s: Search) {
    |s.g| == w * h && |s.f| == w * h
  }

  /** Score arrays of the grid's size and an open list on the grid. */
  ghost predicate Sized(w: nat, h: nat, s: Search) {
    Scored(w, h, s) && forall c :: c in s.open ==> InGrid(w, h, c)
  }

  /** One pass of the loop of lines 92-122 for the neighbour nb of cur: a
      closed neighbour is skipped; a new one joins the open list, recorded by
      a highlight; an open one is kept as it is unless the path through cur is
      strictly shorter; every neighbour that is not skipped gets
      g = g(cur) + 1 and f = g + h, recorded by a compare step with both
      scores.  Only the neighbour's scores change, the closed set never, and
      the open list gains the neighbour exactly when it is not closed. */
  function RelaxNext(w: nat, h: nat, cur: Cell, nb: Cell, s: Search): (r: Search)
    requires InGrid(w, h, cur) && InGrid(w, h, nb) && Scored(w, h, s)
    ensures Scored(w, h, r) && r.closed == s.closed
    ensures forall c :: c in r.open <==> c in s.open || (c == nb && nb !in s.closed)
    ensures forall k :: 0 <= k < w * h && k != Flat(w, h, nb) ==> r.g[k] == s.g[k] && r.f[k] == s.f[k]
    ensures |r.steps| >= |s.steps| && r.steps[..|s.steps|] == s.steps
  {
    var i, gc := Flat(w, h, nb), s.g[Flat(w, h, cur)] + 1;
    if nb in s.closed || (nb in s.open && gc >= s.g[i]) then s
    else
      var fc := gc + Heuristic(nb, Goal(w, h));
      var added := nb !in s.open;
      Search(s.g[i := gc], s.f[i := fc], if added then s.open + [nb] else s.open, s.closed,
             s.steps + (if added then [AddedAt(w, h, nb)] else []) + [UpdatedAt(w, h, nb, gc, fc)])
  }

  /** RelaxNext read on the parts of the state. */
  ghost predicate Relaxed(w: nat, h: nat, cur: Cell, nb: Cell, closed: set<Cell>,
                          g0: seq<nat>, f0: seq<nat>, open0: seq<Cell>, steps0: seq<Step>,
                          g1: seq<nat>, f1: seq<nat>, open1: seq<Cell>, steps1: seq<Step>)
    requires w >= 1 && h >= 1 && InGrid(w, h, cur) && InGrid(w, h, nb) && |g0| == w * h && |f0| == w * h
  {
    Search(g1, f1, open1, closed, steps1) == RelaxNext(w, h, cur, nb, Search(g0, f0, open0, closed, steps0))
  }

  /** The loop of lines 92-122 over the neighbours nbs in order, as a value. */
  function RelaxAll(w: nat, h: nat, cur: Cell, nbs: seq<Cell>, s: Search): (r: Search)
    requires InGrid(w, h, cur) && Scored(w, h, s) && forall n :: n in nbs ==> InGrid(w, h, n)
    ensures Scored(w, h, r) && r.closed == s.closed
    ensures forall c :: c in r.open <==> c in s.open || (c in nbs && c !in s.closed)
    ensures |r.steps| >= |s.steps| && r.steps[..|s.steps|] == s.steps
    decreases |nbs|
  {
    if nbs == [] then s else RelaxAll(w, h, cur, nbs[1..], RelaxNext(w, h, cur, nbs[0], s))
  }

  /** Relaxing from position k on is relaxing neighbour k, then the rest. */
  lemma RelaxAllStep(w: nat, h: nat, cur: Cell, nbs: seq<Cell>, k: nat, s: Search)
    requires InGrid(w, h, cur) && Scored(w, h, s) && forall n :: n in nbs ==> InGrid(w, h, n)
    requires k < |nbs|
    ensures RelaxAll(w, h, cur, nbs[k..], s) == RelaxAll(w, h, cur, nbs[k + 1..], RelaxNext(w, h, cur, nbs[k], s))
  {
    assert nbs[k..][0] == nbs[k] && nbs[k..][1..] == nbs[k + 1..];
  }

  method Relax(w: nat, h: nat, g: array<nat>, f: array<nat>, cur: Cell, nb: Cell,
               open0: seq<Cell>, closed: set<Cell>, steps0: seq<Step>) returns (open: seq<Cell>, steps: seq<Step>)
    requires w >= 1 && h >= 1 && g.Length == w * h && f.Length == w * h && g != f
    requires InGrid(w, h, cur) && InGrid(w, h, nb)
    modifies g, f
    ensures Relaxed(w, h, cur, nb, closed, old(g[..]), old(f[..]), open0, steps0, g[..], f[..], open, steps)
  {
    open, steps := open0, steps0;
    if nb in closed {
      return;
    }
    var i := Flat(w, h, nb);
    var tentative := g[Flat(w, h, cur)] + 1;
    if nb !in open {
      open := open + [nb];
      steps := steps + [AddedAt(w, h, nb)];
    } else if tentative >= g[i] {
      return;
    }
    g[i] := tentative;
    f[i] := tentative + Heuristic(nb, Goal(w, h));
    steps := steps + [UpdatedAt(w, h, nb, g[i], f[i])];
  }

  /** Relaxing a neighbour of a closed node keeps the open list well formed and
      the closed node's g, adds to the open list without removing, leaves the
      neighbour open or closed, and appends to the trace only additions and
      updates. */
  lemma RelaxKeeps(w: nat, h: nat, cur: Cell, nb: Cell, closed: set<Cell>,
                   g0: seq<nat>, f0: seq<nat>, open0: seq<Cell>, steps0: seq<Step>,
                   g1: seq<nat>, f1: seq<nat>, open1: seq<Cell>, steps1: seq<Step>)
    requires w >= 1 && h >= 1 && InGrid(w, h, cur) && InGrid(w, h, nb) && Adjacent(cur, nb) && cur in closed
    requires OpenOk(w, h, g0, f0, open0, closed) && g0[Flat(w, h, cur)] >= cur.x + cur.y
    requires Relaxed(w, h, cur, nb, closed, g0, f0, open0, steps0, g1, f1, open1, steps1)
    ensures OpenOk(w, h, g1, f1, open1, closed) && g1[Flat(w, h, cur)] == g0[Flat(w, h, cur)]
    ensures (forall c :: c in open0 ==> c in open1) && (nb in open1 || nb in closed)
    ensures |steps1| >= |steps0| && steps1[..|steps0|] == steps0 && ExpandOk(w, h, steps1[|steps0|..])
  {
    var i, gc := Flat(w, h, nb), g0[Flat(w, h, cur)] + 1;
    if nb in closed || (nb in open0 && gc >= g0[i]) {
      assert steps1[|steps0|..] == [];
    } else if nb in open0 {
      RelaxUpdated(w, h, cur, nb, closed, g0, f0, open0, steps0, g1, f1, steps1);
    } else {
      RelaxAdded(w, h, cur, nb, closed, g0, f0, open0, steps0, g1, f1, steps1);
    }
  }

  /** The update case of RelaxKeeps: an open neighbour whose g drops. */
  lemma RelaxUpdated(w: nat, h: nat, cur: Cell, nb: Cell, closed: set<Cell>,
                     g0: seq<nat>, f0: seq<nat>, open0: seq<Cell>, steps0: seq<Step>,
                     g1: seq<nat>, f1: seq<nat>, steps1: seq<Step>)
    requires w >= 1 && h >= 1 && InGrid(w, h, cur) && InGrid(w, h, nb) && Adjacent(cur, nb) && cur in closed
    requires OpenOk(w, h, g0, f0, open0, closed) && g0[Flat(w, h, cur)] >= cur.x + cur.y && nb in open0
    requires var i, gc := Flat(w, h, nb), g0[Flat(w, h, cur)] + 1;
      && g1 == g0[i := gc] && f1 == f0[i := gc + Heuristic(nb, Goal(w, h))]
      && steps1 == steps0 + [UpdatedAt(w, h, nb, gc, gc + Heuristic(nb, Goal(w, h)))]
    ensures OpenOk(w, h, g1, f1, open0, closed) && g1[Flat(w, h, cur)] == g0[Flat(w, h, cur)]
    ensures |steps1| >= |steps0| && steps1[..|steps0|] == steps0 && ExpandOk(w, h, steps1[|steps0|..])
  {
    var gc := g0[Flat(w, h, cur)] + 1;
    UpdateKeeps(w, h, g0, f0, open0, closed, nb, gc);
    FlatDiffers(w, h, cur, nb);
    UpdatedOk(w, h, cur, nb, gc);
    assert steps1[|steps0|..] == [UpdatedAt(w, h, nb, gc, gc + Heuristic(nb, Goal(w, h)))];
  }

  /** The addition case of RelaxKeeps: a neighbour neither open nor closed. */
  lemma RelaxAdded(w: nat, h: nat, cur: Cell, nb: Cell, closed: set<Cell>,
                   g0: seq<nat>, f0: seq<nat>, open0: seq<Cell>, steps0: seq<Step>,
                   g1: seq<nat>, f1: seq<nat>, steps1: seq<Step>)
    requires w >= 1 && h >= 1 && InGrid(w, h, cur) && InGrid(w, h, nb) && Adjacent(cur, nb) && cur in closed
    requires OpenOk(w, h, g0, f0, open0, closed) && g0[Flat(w, h, cur)] >= cur.x + cur.y
    requires nb !in open0 && nb !in closed
    requires var i, gc := Flat(w, h, nb), g0[Flat(w, h, cur)] + 1;
      && g1 == g0[i := gc] && f1 == f0[i := gc + Heuristic(nb, Goal(w, h))]
      && steps1 == steps0 + [AddedAt(w, h, nb)] + [UpdatedAt(w, h, nb, gc, gc + Heuristic(nb, Goal(w, h)))]
    ensures OpenOk(w, h, g1, f1, open0 + [nb], closed) && g1[Flat(w, h, cur)] == g0[Flat(w, h, cur)]
    ensures |steps1| >= |steps0| && steps1[..|steps0|] == steps0 && ExpandOk(w, h, steps1[|steps0|..])
  {
    var gc := g0[Flat(w, h, cur)] + 1;
    AddKeeps(w, h, g0, f0, open0, closed, nb, gc);
    FlatDiffers(w, h, cur, nb);
    UpdatedOk(w, h, cur, nb, gc);
    assert steps1[|steps0|..] == [AddedAt(w, h, nb), UpdatedAt(w, h, nb, gc, gc + Heuristic(nb, Goal(w, h)))];
  }

  lemma FlatDiffers(w: nat, h: nat, a: Cell, b: Cell)
    requires InGrid(w, h, a) && InGrid(w, h, b) && a != b
    ensures Flat(w, h, a) != Flat(w, h, b)
  {
    if Flat(w, h, a) == Flat(w, h, b) {
      FlatInjective(w, h, a, b);
    }
  }

  lemma HighlightThenCompareAppend(s: seq<Step>, t: seq<Step>)
    requires HighlightThenCompare(s) && HighlightThenCompare(t)
    ensures HighlightThenCompare(s + t)
  {
    forall p | 0 <= p < |s + t| && (s + t)[p].kind == Highlight
      ensures p + 1 < |s + t| && (s + t)[p + 1].kind == Compare && (s + t)[p + 1].indices == (s + t)[p].indices
    {
      if p < |s| {
        assert (s + t)[p] == s[p] && (s + t)[p + 1] == s[p + 1];
      } else {
        assert (s + t)[p] == t[p - |s|] && (s + t)[p + 1] == t[p + 1 - |s|];
      }
    }
  }

  lemma TraceOkAppend(w: nat, h: nat, s: seq<Step>, t: seq<Step>)
    requires w >= 1 && h >= 1 && TraceOk(w, h, s) && TraceOk(w, h, t)
    ensures TraceOk(w, h, s + t)
  {
    forall p | 0 <= p < |s + t| ensures StepOk(w, h, (s + t)[p]) {
      if p >= |s| { assert (s + t)[p] == t[p - |s|]; }
    }
  }

  lemma ExpandOkAppend(w: nat, h: nat, s: seq<Step>, t: seq<Step>)
    requires w >= 1 && h >= 1 && ExpandOk(w, h, s) && ExpandOk(w, h, t)
    ensures ExpandOk(w, h, s + t)
  {
    TraceOkAppend(w, h, s, t);
    HighlightThenCompareAppend(s, t);
    forall p | 0 <= p < |s + t| ensures (s + t)[p].kind != Visit {
      if p >= |s| { assert (s + t)[p] == t[p - |s|]; }
    }
  }

  /** Every node among the first k of s is open or closed. */
  ghost predicate Covered(s: seq<Cell>, k: int, open: seq<Cell>, closed: set<Cell>) {
    forall q :: 0 <= q < k && q < |s| ==> s[q] in open || s[q] in closed
  }

  lemma CoveredGrow(s: seq<Cell>, k: nat, o1: seq<Cell>, o2: seq<Cell>, closed: set<Cell>)
    requires k < |s| && Covered(s, k, o1, closed) && (forall c :: c in o1 ==> c in o2) && (s[k] in o2 || s[k] in closed)
    ensures Covered(s, k + 1, o2, closed)
  {
  }

  /** A trace extended by what a call appended. */
  lemma Extend(s0: seq<Step>, t: seq<Step>, s1: seq<Step>, s2: seq<Step>)
    requires s1 == s0 + t && |s2| >= |s1| && s2[..|s1|] == s1
    ensures s2 == s0 + (t + s2[|s1|..])
  {
    assert s2 == s1 + s2[|s1|..];
  }

  /** What holds of the neighbour loop (lines 85-122) before neighbour k:
      the open list is well formed and only grew, the first k neighbours are
      open or closed, the steps so far are additions and updates appended to
      steps0, and relaxing the rest leads to all. */
  ghost predicate NeighboursLeft(w: nat, h: nat, cur: Cell, closed: set<Cell>, open0: seq<Cell>, steps0: seq<Step>,
                                 all: Search, k: nat, gs: seq<nat>, fs: seq<nat>, open: seq<Cell>, steps: seq<Step>, t: seq<Step>)
    requires w >= 1 && h >= 1 && InGrid(w, h, cur)
  {
    && k <= |Neighbours(w, h, cur)|
    && OpenOk(w, h, gs, fs, open, closed) && gs[Flat(w, h, cur)] >= cur.x + cur.y
    && (forall c :: c in open0 ==> c in open)
    && Covered(Neighbours(w, h, cur), k, open, closed)
    && steps == steps0 + t && ExpandOk(w, h, t)
    && RelaxAll(w, h, cur, Neighbours(w, h, cur)[k..], Search(gs, fs, open, closed, steps)) == all
  }

  /** One turn of the neighbour loop keeps NeighboursLeft. */
  lemma RelaxRound(w: nat, h: nat, cur: Cell, closed: set<Cell>, open0: seq<Cell>, steps0: seq<Step>, all: Search, k: nat,
                   g0: seq<nat>, f0: seq<nat>, prior: seq<Cell>, before: seq<Step>, t: seq<Step>,
                   g1: seq<nat>, f1: seq<nat>, open1: seq<Cell>, steps1: seq<Step>)
    requires w >= 1 && h >= 1 && InGrid(w, h, cur) && cur in closed && k < |Neighbours(w, h, cur)|
    requires NeighboursLeft(w, h, cur, closed, open0, steps0, all, k, g0, f0, prior, before, t)
    requires Relaxed(w, h, cur, Neighbours(w, h, cur)[k], closed, g0, f0, prior, before, g1, f1, open1, steps1)
    ensures |steps1| >= |before|
    ensures NeighboursLeft(w, h, cur, closed, open0, steps0, all, k + 1, g1, f1, open1, steps1, t + steps1[|before|..])
  {
    var nbs := Neighbours(w, h, cur);
    RelaxAllStep(w, h, cur, nbs, k, Search(g0, f0, prior, closed, before));
    RelaxKeeps(w, h, cur, nbs[k], closed, g0, f0, prior, before, g1, f1, open1, steps1);
    ExpandOkAppend(w, h, t, steps1[|before|..]);
    Extend(steps0, t, before, steps1);
    CoveredGrow(nbs, k, prior, open1, closed);
  }

  /** The loop of lines 85-122 over the neighbours of cur, once cur is closed:
      afterwards every neighbour is open or closed, the open list only grew,
      and the recorded steps are additions and updates only. */
  method ExpandNeighbours(w: nat, h: nat, g: array<nat>, f: array<nat>, cur: Cell,
                          open0: seq<Cell>, closed: set<Cell>, steps0: seq<Step>) returns (open: seq<Cell>, steps: seq<Step>)
    requires w >= 1 && h >= 1 && g.Length == w * h && f.Length == w * h && g != f
    requires InGrid(w, h, cur) && cur in closed
    requires OpenOk(w, h, g[..], f[..], open0, closed) && g[Flat(w, h, cur)] >= cur.x + cur.y
    modifies g, f
    ensures OpenOk(w, h, g[..], f[..], open, closed)
    ensures forall c :: c in open0 ==> c in open
    ensures forall n :: InGrid(w, h, n) && Adjacent(cur, n) ==> n in open || n in closed
    ensures |steps| >= |steps0| && steps[..|steps0|] == steps0 && ExpandOk(w, h, steps[|steps0|..])
    ensures Search(g[..], f[..], open, closed, steps)
         == RelaxAll(w, h, cur, Neighbours(w, h, cur), Search(old(g[..]), old(f[..]), open0, closed, steps0))
  {
    var nbs := Neighbours(w, h, cur);
    open, steps := open0, steps0;
    ghost var t: seq<Step> := [];
    ghost var all := RelaxAll(w, h, cur, nbs, Search(g[..], f[..], open0, closed, steps0));
    for k := 0 to |nbs|
      invariant NeighboursLeft(w, h, cur, closed, open0, steps0, all, k, g[..], f[..], open, steps, t)
    {
      ghost var before, prior, g0, f0 := steps, open, g[..], f[..];
      open, steps := Relax(w, h, g, f, cur, nbs[k], open, closed, steps);
      RelaxRound(w, h, cur, closed, open0, steps0, all, k, g0, f0, prior, before, t, g[..], f[..], open, steps);
      t := t + steps[|before|..];
    }
    assert nbs[|nbs|..] == [];
  }

  // ---- one expansion ----

  /** Splicing entry ci out of a list without repeats (line 81) removes that
      node and no other. */
  lemma Splice(o: seq<Cell>, ci: nat)
    requires ci < |o| && forall i, j :: 0 <= i < j < |o| ==> o[i] != o[j]
    ensures var r := o[..ci] + o[ci + 1..];
      && (forall c :: c in r <==> c in o && c != o[ci])
      && (forall i, j :: 0 <= i < j < |r| ==> r[i] != r[j])
  {
    var r := o[..ci] + o[ci + 1..];
    assert forall i :: 0 <= i < |r| ==> r[i] == if i < ci then o[i] else o[i + 1];
    forall c | c in o && c != o[ci] ensures c in r {
      var i :| 0 <= i < |o| && o[i] == c;
      if i < ci { assert r[i] == c; } else { assert r[i - 1] == c; }
    }
  }

  /** Removing entry ci from the open list and closing its node (lines 81-82)
      keeps the open list well formed. */
  lemma RemoveKeeps(w: nat, h: nat, gs: seq<nat>, fs: seq<nat>, open0: seq<Cell>, closed0: set<Cell>, ci: nat)
    requires w >= 1 && h >= 1 && OpenOk(w, h, gs, fs, open0, closed0) && ci < |open0|
    ensures var cur, open := open0[ci], open0[..ci] + open0[ci + 1..];
      && OpenOk(w, h, gs, fs, open, closed0 + {cur})
      && (forall c :: c in open0 ==> c == cur || c in open)
  {
    Splice(open0, ci);
  }

  /** Lines 81-122 as a value: entry ci leaves the open list for the closed
      set, then its neighbours are relaxed in turn. */
  function Expansion(w: nat, h: nat, s: Search, ci: nat): (r: Search)
    requires Sized(w, h, s) && ci < |s.open|
    ensures Sized(w, h, r) && r.closed == s.closed + {s.open[ci]}
    ensures |r.steps| >= |s.steps| && r.steps[..|s.steps|] == s.steps
  {
    var cur := s.open[ci];
    var rest := s.open[..ci] + s.open[ci + 1..];
    assert forall c :: c in rest ==> c in s.open;
    RelaxAll(w, h, cur, Neighbours(w, h, cur), Search(s.g, s.f, rest, s.closed + {cur}, s.steps))
  }

  /** Lines 81-122: the chosen node, which is not the goal, leaves the open
      list for the closed set and its neighbours are relaxed in turn. */
  method Expand(w: nat, h: nat, g: array<nat>, f: array<nat>, ci: nat,
                open0: seq<Cell>, closed0: set<Cell>, steps0: seq<Step>) returns (open: seq<Cell>, closed: set<Cell>, steps: seq<Step>)
    requires w >= 1 && h >= 1 && g.Length == w * h && f.Length == w * h && g != f
    requires SearchInv(w, h, g[..], f[..], open0, closed0) && ci < |open0| && open0[ci] != Goal(w, h)
    modifies g, f
    ensures closed == closed0 + {open0[ci]}
    ensures SearchInv(w, h, g[..], f[..], open, closed)
    ensures |steps| >= |steps0| && steps[..|steps0|] == steps0 && ExpandOk(w, h, steps[|steps0|..])
    ensures Search(g[..], f[..], open, closed, steps) == Expansion(w, h, Search(old(g[..]), old(f[..]), open0, closed0, steps0), ci)
  {
    var cur := open0[ci];
    open := open0[..ci] + open0[ci + 1..];
    closed := closed0 + {cur};
    RemoveKeeps(w, h, g[..], f[..], open0, closed0, ci);
    ghost var s0 := Search(g[..], f[..], open0, closed0, steps0);
    ghost var removed := Search(g[..], f[..], open, closed, steps0);
    assert Expansion(w, h, s0, ci) == RelaxAll(w, h, cur, Neighbours(w, h, cur), removed);
    open, steps := ExpandNeighbours(w, h, g, f, cur, open, closed, steps0);
    ExpandKeeps(w, h, s0.g, s0.f, open0, closed0, ci, removed.open, g[..], f[..], open);
  }

  /** What the relaxation of the expanded node's neighbours leaves of the
      search state: still well formed, now with that node closed. */
  lemma ExpandKeeps(w: nat, h: nat, g0: seq<nat>, f0: seq<nat>, open0: seq<Cell>, closed0: set<Cell>, ci: nat,
                    removed: seq<Cell>, gs: seq<nat>, fs: seq<nat>, open: seq<Cell>)
    requires w >= 1 && h >= 1 && SearchInv(w, h, g0, f0, open0, closed0) && ci < |open0| && open0[ci] != Goal(w, h)
    requires forall c :: c in open0 ==> c == open0[ci] || c in removed
    requires OpenOk(w, h, gs, fs, open, closed0 + {open0[ci]}) && forall c :: c in removed ==> c in open
    requires forall n :: InGrid(w, h, n) && Adjacent(open0[ci], n) ==> n in open || n in closed0 + {open0[ci]}
    ensures SearchInv(w, h, gs, fs, open, closed0 + {open0[ci]})
  {
  }

  // ---- the trace so far ----

  /** The visit marks [y*w+x] of a list of nodes. */
  function Flats(w: nat, h: nat, cs: seq<Cell>): (r: seq<seq<int>>)
    requires forall c :: c in cs ==> InGrid(w, h, c)
    ensures |r| == |cs|
    ensures forall i :: 0 <= i < |cs| ==> r[i] == [Flat(w, h, cs[i])]
  {
    if cs == [] then [] else Flats(w, h, cs[..|cs| - 1]) + [[Flat(w, h, cs[|cs| - 1])]]
  }

  /** The trace up to the start of a round of the main loop: well formed, the
      visits naming exactly the closed nodes, in the order they were closed,
      each once, the first of them the start. */
  ghost predicate Expanded(w: nat, h: nat, steps: seq<Step>, visited: seq<Cell>, closed: set<Cell>)
    requires w >= 1 && h >= 1
  {
    && TraceOk(w, h, steps) && HighlightThenCompare(steps)
    && (forall c :: c in visited ==> InGrid(w, h, c))
    && (forall c :: c in closed <==> c in visited)
    && (forall i, j :: 0 <= i < j < |visited| ==> visited[i] != visited[j])
    && Marks(steps, Visit) == Flats(w, h, visited)
    && (|visited| == 0 ==> steps == [])
    && (|visited| > 0 ==> |steps| > 0 && steps[0] == VisitAt(w, h, Cell(0, 0)))
  }

  lemma VisitOk(w: nat, h: nat, c: Cell)
    requires w >= 1 && h >= 1 && InGrid(w, h, c)
    ensures TraceOk(w, h, [VisitAt(w, h, c)]) && HighlightThenCompare([VisitAt(w, h, c)])
    ensures Marks([VisitAt(w, h, c)], Visit) == [[Flat(w, h, c)]]
  {
    assert [VisitAt(w, h, c)][..0] == [];
  }

  /** A round that expands cur, open and not yet closed, keeps the trace as
      described. */
  lemma TraceExpand(w: nat, h: nat, steps: seq<Step>, visited: seq<Cell>, closed: set<Cell>, cur: Cell, u: seq<Step>)
    requires w >= 1 && h >= 1 && Expanded(w, h, steps, visited, closed)
    requires InGrid(w, h, cur) && cur !in closed && ExpandOk(w, h, u)
    requires |visited| == 0 ==> cur == Cell(0, 0)
    ensures Expanded(w, h, steps + [VisitAt(w, h, cur)] + u, visited + [cur], closed + {cur})
  {
    var v := [VisitAt(w, h, cur)];
    VisitOk(w, h, cur);
    TraceOkAppend(w, h, steps, v);
    TraceOkAppend(w, h, steps + v, u);
    HighlightThenCompareAppend(steps, v);
    HighlightThenCompareAppend(steps + v, u);
    MarksNone(u, Visit);
    MarksAppend(steps, v, Visit);
    MarksAppend(steps + v, u, Visit);
    var vs := visited + [cur];
    assert Flats(w, h, vs) == Flats(w, h, visited) + [[Flat(w, h, cur)]] by {
      assert vs[..|vs| - 1] == visited;
    }
    forall i, j | 0 <= i < j < |vs| ensures vs[i] != vs[j] {
      if j == |visited| { assert vs[i] in visited; }
    }
  }

  /** The visit marks of distinct grid nodes are distinct. */
  lemma FlatsDistinct(w: nat, h: nat, cs: seq<Cell>)
    requires forall c :: c in cs ==> InGrid(w, h, c)
    requires forall i, j :: 0 <= i < j < |cs| ==> cs[i] != cs[j]
    ensures var r := Flats(w, h, cs); forall i, j :: 0 <= i < j < |r| ==> r[i] != r[j]
  {
    var r := Flats(w, h, cs);
    forall i, j | 0 <= i < j < |r| ensures r[i] != r[j] {
      FlatDiffers(w, h, cs[i], cs[j]);
    }
  }

  /** What the main loop keeps about the trace before its found step. */
  ghost predicate Before(w: nat, h: nat, s: seq<Step>, vs: seq<Cell>)
    requires w >= 1 && h >= 1
  {
    && |s| >= 1 && TraceOk(w, h, s) && HighlightThenCompare(s)
    && (forall c :: c in vs ==> InGrid(w, h, c)) && (forall i, j :: 0 <= i < j < |vs| ==> vs[i] != vs[j])
    && Marks(s, Visit) == Flats(w, h, vs) && |vs| <= 101
  }

  /** Closing such a trace by a found step x keeps its visits and adds none. */
  lemma Close(w: nat, h: nat, s: seq<Step>, vs: seq<Cell>, x: Step)
    requires w >= 1 && h >= 1 && Before(w, h, s, vs) && x.kind == Found
    ensures var t := s + [x];
      && |t| >= 2 && Last(t) == x && t[..|t| - 1] == s && t[0] == s[0] && t[|t| - 2] == Last(s)
      && TraceOk(w, h, t[..|t| - 1]) && HighlightThenCompare(t) && DistinctVisits(t)
      && CountKind(t, Visit) == |vs|
  {
    var t := s + [x];
    assert t[..|t| - 1] == s;
    MarksAppend(s, [x], Visit);
    assert [x][..0] == [];
    FlatsDistinct(w, h, vs);
    HighlightThenCompareAppend(s, [x]);
    assert Marks(t, Visit) == Flats(w, h, vs);
  }

  /** How the trace ends when the goal is chosen: its visit, then found. */
  lemma TraceGoal(w: nat, h: nat, steps: seq<Step>, visited: seq<Cell>, closed: set<Cell>)
    requires w >= 1 && h >= 1 && Expanded(w, h, steps, visited, closed)
    requires Goal(w, h) !in closed && |visited| <= 100
    requires |visited| == 0 ==> Goal(w, h) == Cell(0, 0)
    ensures var t := steps + [VisitAt(w, h, Goal(w, h))] + [FoundGoal(w, h)];
      SearchTrace(w, h, t) && t[0] == VisitAt(w, h, Cell(0, 0))
  {
    var goal := Goal(w, h);
    var s := steps + [VisitAt(w, h, goal)];
    TraceExpand(w, h, steps, visited, closed, goal, []);
    assert s + [] == s;
    Close(w, h, s, visited + [goal], FoundGoal(w, h));
  }

  /** How the trace ends when the cap is hit: 101 visits, then found. */
  lemma TraceLimit(w: nat, h: nat, steps: seq<Step>, visited: seq<Cell>, closed: set<Cell>)
    requires w >= 1 && h >= 1 && Expanded(w, h, steps, visited, closed) && |visited| == 101
    ensures var t := steps + [LimitReached()];
      SearchTrace(w, h, t) && t[0] == VisitAt(w, h, Cell(0, 0))
  {
    Close(w, h, steps, visited, LimitReached());
  }

  // ---- the generator ----

  /** The state of lines 37-48 satisfies the loop's invariant. */
  lemma Initially(w: nat, h: nat, gs: seq<nat>, fs: seq<nat>)
    requires w >= 1 && h >= 1 && |gs| == w * h && |fs| == w * h
    requires gs[Flat(w, h, Cell(0, 0))] == 0 && fs[Flat(w, h, Cell(0, 0))] == Heuristic(Cell(0, 0), Goal(w, h))
    ensures Searching(w, h, gs, fs, [Cell(0, 0)], {}, [], [], 0)
  {
    assert Marks([], Visit) == [];
  }

  /** What holds at the head of the main loop after n rounds: the search state
      as above with a node still open, the trace of the n nodes closed so far,
      the start the only open node before the first round, and no round at all
      on a 1-by-1 grid (its start is its goal). */
  ghost predicate Searching(w: nat, h: nat, gs: seq<nat>, fs: seq<nat>, open: seq<Cell>, closed: set<Cell>,
                            steps: seq<Step>, visited: seq<Cell>, n: nat)
    requires w >= 1 && h >= 1
  {
    && SearchInv(w, h, gs, fs, open, closed) && |open| > 0
    && Expanded(w, h, steps, visited, closed) && |visited| == n <= 100
    && (n == 0 ==> open == [Cell(0, 0)])
    && (w == 1 && h == 1 ==> n == 0)
  }

  /** Lines 63-69 and 71-79 when the chosen node is the goal: the trace ends
      with its visit and a found step; on a 1-by-1 grid that is all of it. */
  lemma GoalRound(w: nat, h: nat, gs: seq<nat>, fs: seq<nat>, open: seq<Cell>, closed: set<Cell>,
                  steps: seq<Step>, visited: seq<Cell>, n: nat, cur: Cell)
    requires w >= 1 && h >= 1 && Searching(w, h, gs, fs, open, closed, steps, visited, n)
    requires cur in open && cur == Goal(w, h)
    ensures var t := steps + [VisitAt(w, h, cur)] + [FoundGoal(w, h)];
      SearchTrace(w, h, t) && t[0] == VisitAt(w, h, Cell(0, 0))
  {
    TraceGoal(w, h, steps, visited, closed);
  }

  /** Lines 63-69 and 81-133 when the chosen node is not the goal: its visit,
      its expansion, and the count of rounds raised by one. */
  method Round(w: nat, h: nat, g: array<nat>, f: array<nat>, ci: nat, open0: seq<Cell>, closed0: set<Cell>,
               steps0: seq<Step>, ghost visited0: seq<Cell>, n: nat)
    returns (open: seq<Cell>, closed: set<Cell>, steps: seq<Step>, ghost visited: seq<Cell>)
    requires w >= 1 && h >= 1 && g.Length == w * h && f.Length == w * h && g != f
    requires Searching(w, h, g[..], f[..], open0, closed0, steps0, visited0, n)
    requires ci < |open0| && open0[ci] != Goal(w, h)
    modifies g, f
    ensures SearchInv(w, h, g[..], f[..], open, closed) && |open| > 0
    ensures Expanded(w, h, steps, visited, closed) && |visited| == n + 1
    ensures n + 1 <= 100 ==> Searching(w, h, g[..], f[..], open, closed, steps, visited, n + 1)
    ensures visited == visited0 + [open0[ci]]
    ensures Search(g[..], f[..], open, closed, steps)
         == Expansion(w, h, Search(old(g[..]), old(f[..]), open0, closed0, steps0 + [VisitAt(w, h, open0[ci])]), ci)
  {
    var cur := open0[ci];
    var s := steps0 + [VisitAt(w, h, cur)];
    ghost var g0, f0 := g[..], f[..];
    open, closed, steps := Expand(w, h, g, f, ci, open0, closed0, s);
    visited := visited0 + [cur];
    RoundKeeps(w, h, g0, f0, open0, closed0, steps0, visited0, n, ci, g[..], f[..], open, closed, steps);
  }

  /** What a round that expands entry ci keeps: the search state, and the
      trace of the nodes closed so far with the new one at the end. */
  lemma RoundKeeps(w: nat, h: nat, g0: seq<nat>, f0: seq<nat>, open0: seq<Cell>, closed0: set<Cell>,
                   steps0: seq<Step>, visited0: seq<Cell>, n: nat, ci: nat,
                   g1: seq<nat>, f1: seq<nat>, open: seq<Cell>, closed: set<Cell>, steps: seq<Step>)
    requires w >= 1 && h >= 1 && Searching(w, h, g0, f0, open0, closed0, steps0, visited0, n)
    requires ci < |open0| && open0[ci] != Goal(w, h)
    requires closed == closed0 + {open0[ci]} && SearchInv(w, h, g1, f1, open, closed)
    requires var s := steps0 + [VisitAt(w, h, open0[ci])];
      |steps| >= |s| && steps[..|s|] == s && ExpandOk(w, h, steps[|s|..])
    ensures var visited := visited0 + [open0[ci]];
      && SearchInv(w, h, g1, f1, open, closed) && |open| > 0
      && Expanded(w, h, steps, visited, closed) && |visited| == n + 1
      && (n + 1 <= 100 ==> Searching(w, h, g1, f1, open, closed, steps, visited, n + 1))
  {
    var cur := open0[ci];
    var s := steps0 + [VisitAt(w, h, cur)];
    TraceExpand(w, h, steps0, visited0, closed0, cur, steps[|s|..]);
    assert steps == s + steps[|s|..];
    OpenNotEmpty(w, h, g1, f1, open, closed);
  }

  /** The state of lines 22-48: every score 0 except the start's f, which is
      h(start); the start the only open node; nothing closed or recorded. */
  function Initial(w: nat, h: nat): (s: Search)
    requires w >= 1 && h >= 1
    ensures Sized(w, h, s) && s.open == [Cell(0, 0)] && s.closed == {} && s.steps == []
  {
    var zero := seq(w * h, _ => 0);
    Search(zero, zero[Flat(w, h, Cell(0, 0)) := Heuristic(Cell(0, 0), Goal(w, h))], [Cell(0, 0)], {}, [])
  }

  /** The main loop of lines 51-134 from state s after n expansions, as a
      value: choose the first open node of least f and record its visit; stop
      with found when it is the goal; otherwise expand it, count the round,
      and stop with the limit step once more than 100 rounds are counted. */
  function Run(w: nat, h: nat, s: Search, n: nat): (r: Search)
    requires w >= 1 && h >= 1 && Sized(w, h, s) && n <= 100
    ensures |r.steps| >= |s.steps| && r.steps[..|s.steps|] == s.steps
    decreases 100 - n
  {
    if |s.open| == 0 then s
    else
      var ci := FirstLowest(w, h, s.open, s.f);
      var cur := s.open[ci];
      var v := s.(steps := s.steps + [VisitAt(w, h, cur)]);
      if cur == Goal(w, h) then v.(steps := v.steps + [FoundGoal(w, h)])
      else
        var e := Expansion(w, h, v, ci);
        PrefixOf(s.steps, v.steps, e.steps);
        if n + 1 > 100 then e.(steps := e.steps + [LimitReached()])
        else
          var r := Run(w, h, e, n + 1);
          PrefixOf(s.steps, e.steps, r.steps);
          r
  }

  lemma PrefixOf(a: seq<Step>, b: seq<Step>, c: seq<Step>)
    requires |a| <= |b| && b[..|a|] == a && |b| <= |c| && c[..|b|] == b
    ensures c[..|a|] == a
  {
    assert c[..|a|] == c[..|b|][..|a|];
  }

  /** Lines 18-146 as a value: the main loop from the initial state, then the
      exhausted step when the open list ran dry after some node was closed. */
  function AStarSteps(w: nat, h: nat): seq<Step>
    requires w >= 1 && h >= 1
  {
    var r := Run(w, h, Initial(w, h), 0);
    r.steps + if |r.open| == 0 && |r.closed| > 0 then [SearchExhausted()] else []
  }

  /** A round starts with the visit of the first open node of least f. */
  lemma RunOpening(w: nat, h: nat, s: Search, n: nat)
    requires w >= 1 && h >= 1 && Sized(w, h, s) && n <= 100 && |s.open| > 0
    ensures var r := Run(w, h, s, n);
      |r.steps| > |s.steps| && r.steps[|s.steps|] == VisitAt(w, h, s.open[FirstLowest(w, h, s.open, s.f)])
  {
    var ci := FirstLowest(w, h, s.open, s.f);
    var v := s.(steps := s.steps + [VisitAt(w, h, s.open[ci])]);
    if s.open[ci] != Goal(w, h) {
      var e := Expansion(w, h, v, ci);
      assert e.steps[..|v.steps|] == v.steps;
      assert e.steps[|s.steps|] == v.steps[|s.steps|];
    }
  }

  /** Lines 37-48: fresh score arrays holding the initial scores. */
  method Start(w: nat, h: nat) returns (g: array<nat>, f: array<nat>)
    requires w >= 1 && h >= 1
    ensures fresh(g) && fresh(f) && g != f && g.Length == w * h && f.Length == w * h
    ensures g[..] == Initial(w, h).g && f[..] == Initial(w, h).f
    ensures g[Flat(w, h, Cell(0, 0))] == 0 && f[Flat(w, h, Cell(0, 0))] == Heuristic(Cell(0, 0), Goal(w, h))
    ensures Searching(w, h, g[..], f[..], [Cell(0, 0)], {}, [], [], 0)
  {
    g := new nat[w * h](_ => 0);
    f := new nat[w * h](_ => 0);
    var start, goal := Cell(0, 0), Goal(w, h);
    g[Flat(w, h, start)] := 0;
    f[Flat(w, h, start)] := Heuristic(start, goal);
    Initially(w, h, g[..], f[..]);
  }

  /** Run unfolded once at a state with an open node: the three ways a round
      ends. */
  lemma RunOnce(w: nat, h: nat, s: Search, n: nat)
    requires w >= 1 && h >= 1 && Sized(w, h, s) && n <= 100 && |s.open| > 0
    ensures var ci := FirstLowest(w, h, s.open, s.f);
      var v := s.(steps := s.steps + [VisitAt(w, h, s.open[ci])]);
      && (s.open[ci] == Goal(w, h) ==> Run(w, h, s, n) == v.(steps := v.steps + [FoundGoal(w, h)]))
      && (s.open[ci] != Goal(w, h) && n + 1 > 100 ==>
            Run(w, h, s, n) == Expansion(w, h, v, ci).(steps := Expansion(w, h, v, ci).steps + [LimitReached()]))
      && (s.open[ci] != Goal(w, h) && n + 1 <= 100 ==> Run(w, h, s, n) == Run(w, h, Expansion(w, h, v, ci), n + 1))
  {
  }

  /** One round of the main loop, lines 52-133: choose the open node of least
      f, visit it, and either close the trace with found because it is the
      goal, or expand it and count the round, closing the trace when the cap
      is passed. */
  method Advance(w: nat, h: nat, g: array<nat>, f: array<nat>, open0: seq<Cell>, closed0: set<Cell>,
                 steps0: seq<Step>, ghost visited0: seq<Cell>, n: nat)
    returns (open: seq<Cell>, closed: set<Cell>, steps: seq<Step>, ghost visited: seq<Cell>, stepCount: nat, stop: bool)
    requires w >= 1 && h >= 1 && g.Length == w * h && f.Length == w * h && g != f
    requires Searching(w, h, g[..], f[..], open0, closed0, steps0, visited0, n)
    modifies g, f
    ensures stop ==> SearchTrace(w, h, steps) && steps[0] == VisitAt(w, h, Cell(0, 0)) && |open| > 0
    ensures stop ==> (Search(g[..], f[..], open, closed, steps)
                      == Run(w, h, Search(old(g[..]), old(f[..]), open0, closed0, steps0), n))
    ensures !stop ==> stepCount == n + 1 && Searching(w, h, g[..], f[..], open, closed, steps, visited, stepCount)
    ensures !stop ==> (Run(w, h, Search(g[..], f[..], open, closed, steps), stepCount)
                       == Run(w, h, Search(old(g[..]), old(f[..]), open0, closed0, steps0), n))
  {
    ghost var s0 := Search(g[..], f[..], open0, closed0, steps0);
    RunOnce(w, h, s0, n);
    var ci := LowestF(w, h, open0, f);
    var cur := open0[ci];
    if cur == Goal(w, h) {
      GoalRound(w, h, g[..], f[..], open0, closed0, steps0, visited0, n, cur);
      open, closed, visited, stepCount := open0, closed0, visited0, n;
      steps := steps0 + [VisitAt(w, h, cur)] + [FoundGoal(w, h)];
      return open, closed, steps, visited, stepCount, true;
    }
    ghost var v := s0.(steps := steps0 + [VisitAt(w, h, cur)]);
    assert Search(g[..], f[..], open0, closed0, steps0 + [VisitAt(w, h, cur)]) == v;
    open, closed, steps, visited := Round(w, h, g, f, ci, open0, closed0, steps0, visited0, n);
    ghost var e := Search(g[..], f[..], open, closed, steps);
    assert e == Expansion(w, h, v, ci);
    stepCount := n + 1;
    if stepCount > 100 {
      assert Search(g[..], f[..], open, closed, steps + [LimitReached()]) == e.(steps := e.steps + [LimitReached()]);
      TraceLimit(w, h, steps, visited, closed);
      steps := steps + [LimitReached()];
      return open, closed, steps, visited, stepCount, true;
    }
    stop := false;
  }

  /** The visit of c, then the highlight and the scores g = 1, f = 1 + h of
      its neighbour nb. */
  function FirstSteps(w: nat, h: nat, c: Cell, nb: Cell): seq<Step>
    requires InGrid(w, h, c) && InGrid(w, h, nb) && w >= 1 && h >= 1
  {
    [VisitAt(w, h, c), AddedAt(w, h, nb), UpdatedAt(w, h, nb, 1, 1 + Heuristic(nb, Goal(w, h)))]
  }

  /** The first round on a grid of more than one node (lines 52-122): the
      start is visited, and its first neighbour, new to the open list, is
      highlighted and then scored g = 1, f = 1 + h. */
  lemma StartExpansion(w: nat, h: nat)
    requires w >= 1 && h >= 1 && (w > 1 || h > 1)
    ensures |AStarSteps(w, h)| >= 3
    ensures AStarSteps(w, h)[..3] == FirstSteps(w, h, Cell(0, 0), Neighbours(w, h, Cell(0, 0))[0])
  {
    var s := Initial(w, h);
    FirstRound(w, h, s, s.open[0]);
  }

  /** The first round from a state whose only open node c, not the goal, has
      score 0 and nothing yet recorded or closed. */
  lemma FirstRound(w: nat, h: nat, s: Search, c: Cell)
    requires w >= 1 && h >= 1 && Sized(w, h, s) && s.open == [c] && s.closed == {} && s.steps == []
    requires c != Goal(w, h) && s.g[Flat(w, h, c)] == 0 && |Neighbours(w, h, c)| > 0
    ensures |Run(w, h, s, 0).steps| >= 3
    ensures Run(w, h, s, 0).steps[..3] == FirstSteps(w, h, c, Neighbours(w, h, c)[0])
  {
    var ci := FirstLowest(w, h, s.open, s.f);
    assert ci == 0;
    var v := s.(steps := s.steps + [VisitAt(w, h, s.open[ci])]);
    FirstExpansion(w, h, v, c);
    var e := Expansion(w, h, v, 0);
    RunOnce(w, h, s, 0);
    TakePrefix(Run(w, h, e, 1).steps, e.steps, 3);
  }

  /** The first n entries of a sequence are those of any longer prefix. */
  lemma TakePrefix(x: seq<Step>, y: seq<Step>, n: nat)
    requires |y| <= |x| && x[..|y|] == y && n <= |y|
    ensures x[..n] == y[..n]
  {
    assert x[..n] == x[..|y|][..n];
  }

  /** Expanding the only open node c, just visited, records its first
      neighbour's highlight and scores. */
  lemma FirstExpansion(w: nat, h: nat, v: Search, c: Cell)
    requires w >= 1 && h >= 1 && Sized(w, h, v) && v.open == [c] && v.closed == {} && v.steps == [VisitAt(w, h, c)]
    requires v.g[Flat(w, h, c)] == 0 && |Neighbours(w, h, c)| > 0
    ensures |Expansion(w, h, v, 0).steps| >= 3
    ensures Expansion(w, h, v, 0).steps[..3] == FirstSteps(w, h, c, Neighbours(w, h, c)[0])
  {
    var nbs := Neighbours(w, h, c);
    var s0 := Search(v.g, v.f, v.open[..0] + v.open[1..], v.closed + {v.open[0]}, v.steps);
    assert s0.open == [] && s0.closed == {c};
    var e := Expansion(w, h, v, 0);
    assert e == RelaxAll(w, h, c, nbs, s0);
    var nb := nbs[0];
    assert nb != c;
    var s1 := RelaxNext(w, h, c, nb, s0);
    RelaxNew(w, h, c, nb, s0, 1);
    assert s1.steps == [VisitAt(w, h, c)] + [AddedAt(w, h, nb), UpdatedAt(w, h, nb, 1, 1 + Heuristic(nb, Goal(w, h)))];
    assert s1.steps == FirstSteps(w, h, c, nb);
    assert e == RelaxAll(w, h, c, nbs[1..], s1);
  }

  /** A neighbour neither open nor closed is highlighted, then scored. */
  lemma RelaxNew(w: nat, h: nat, cur: Cell, nb: Cell, s: Search, gc: nat)
    requires InGrid(w, h, cur) && InGrid(w, h, nb) && Scored(w, h, s) && nb !in s.open && nb !in s.closed
    requires gc == s.g[Flat(w, h, cur)] + 1
    ensures RelaxNext(w, h, cur, nb, s).steps == s.steps + [AddedAt(w, h, nb), UpdatedAt(w, h, nb, gc, gc + Heuristic(nb, Goal(w, h)))]
  {
  }

  /** Lines 18-146.  Grids narrower or shorter than one node are not handled
      by the source (reading their start node fails), hence the precondition.
      The trace opens with the visit of the start node, then follows the shape
      SearchTrace describes (on a 1-by-1 grid that is a visit and a found, as
      OneByOne shows). */
  method GenerateAStarSteps(w: nat, h: nat) returns (steps: seq<Step>)
    requires w >= 1 && h >= 1
    ensures steps == AStarSteps(w, h)
    ensures SearchTrace(w, h, steps) && steps[0] == VisitAt(w, h, Cell(0, 0))
  {
    var g, f := Start(w, h);
    var open, closed;
    open, closed, steps := MainLoop(w, h, g, f);
    if |open| == 0 && |closed| > 0 {
      steps := steps + [SearchExhausted()];
    }
  }

  /** The main loop of lines 51-134 on the score arrays of Start: it ends by
      one of its found steps, with a node still open, in the state Run
      describes. */
  method MainLoop(w: nat, h: nat, g: array<nat>, f: array<nat>) returns (open: seq<Cell>, closed: set<Cell>, steps: seq<Step>)
    requires w >= 1 && h >= 1 && g.Length == w * h && f.Length == w * h && g != f
    requires g[..] == Initial(w, h).g && f[..] == Initial(w, h).f
    requires Searching(w, h, g[..], f[..], [Cell(0, 0)], {}, [], [], 0)
    modifies g, f
    ensures Search(g[..], f[..], open, closed, steps) == Run(w, h, Initial(w, h), 0)
    ensures SearchTrace(w, h, steps) && steps[0] == VisitAt(w, h, Cell(0, 0)) && |open| > 0
  {
    open, closed, steps := [Cell(0, 0)], {}, [];
    var stepCount := 0;
    ghost var visited: seq<Cell> := [];
    assert Search(g[..], f[..], open, closed, steps) == Initial(w, h);
    while |open| > 0
      invariant Searching(w, h, g[..], f[..], open, closed, steps, visited, stepCount)
      invariant Run(w, h, Search(g[..], f[..], open, closed, steps), stepCount) == Run(w, h, Initial(w, h), 0)
      decreases 100 - stepCount
    {
      var stop;
      open, closed, steps, visited, stepCount, stop := Advance(w, h, g, f, open, closed, steps, visited, stepCount);
      if stop {
        break;
      }
    }
  }

  // ---- properties of whole traces ----

  /** What a step before the closing found step looks like. */
  lemma EarlyStep(w: nat, h: nat, s: seq<Step>, p: int)
    requires w >= 1 && h >= 1 && TraceOk(w, h, s) && 0 <= p < |s|
    ensures s[p].auxiliary.Some? && InGrid(w, h, AuxCell(s[p].auxiliary.value))
    ensures s[p].indices == [Flat(w, h, AuxCell(s[p].auxiliary.value))]
    ensures s[p].kind == Visit || s[p].kind == Highlight || s[p].kind == Compare
  {
    assert StepOk(w, h, s[p]);
  }

  /** A 1-by-1 grid has one node, so a trace without repeated visits visits
      at most once. */
  lemma OneNodeOneVisit(w: nat, h: nat, t: seq<Step>)
    requires w >= 1 && h >= 1 && w * h == 1 && SearchTrace(w, h, t)
    ensures CountKind(t, Visit) <= 1
  {
    var pre := t[..|t| - 1];
    assert Last(t) == t[|t| - 1];
    forall p | 0 <= p < |t| && t[p].kind == Visit ensures t[p].indices == [0] {
      assert p != |t| - 1;
      assert pre[p] == t[p];
      EarlyStep(w, h, pre, p);
      var c := AuxCell(t[p].auxiliary.value);
      assert c == Cell(0, 0) && Flat(w, h, c) == 0;
    }
    MarksAreIndices(t, Visit, [0]);
    DistinctAtMostOne(Marks(t, Visit));
  }

  /** On a 1-by-1 grid the start is the goal: the only trace is its visit
      followed by found. */
  lemma OneByOne(w: nat, h: nat, t: seq<Step>)
    requires w >= 1 && h >= 1 && w * h == 1 && SearchTrace(w, h, t) && t[0] == VisitAt(w, h, Cell(0, 0))
    ensures |t| == 2 && t[1] == FoundGoal(w, h)
  {
    OneNodeOneVisit(w, h, t);
    assert Last(t) == FoundGoal(w, h) && t[|t| - 2] == VisitAt(w, h, Goal(w, h));
    if |t| > 2 {
      CountKindTwo(t, 0, |t| - 2, Visit);
      assert false;
    }
  }

  /** Every step of a search trace but the last is a visit, a highlight or a
      compare: the generator never swaps, overwrites or marks anything sorted. */
  lemma TraceKinds(w: nat, h: nat, t: seq<Step>)
    requires w >= 1 && h >= 1 && SearchTrace(w, h, t)
    ensures forall p :: 0 <= p < |t| - 1 ==> t[p].kind == Visit || t[p].kind == Highlight || t[p].kind == Compare
  {
    var pre := t[..|t| - 1];
    forall p | 0 <= p < |t| - 1
      ensures t[p].kind == Visit || t[p].kind == Highlight || t[p].kind == Compare
    {
      assert pre[p] == t[p];
      EarlyStep(w, h, pre, p);
    }
  }

  /** A search trace holds exactly one found step and no swap, overwrite or
      sorted step. */
  lemma OneFound(w: nat, h: nat, t: seq<Step>)
    requires w >= 1 && h >= 1 && SearchTrace(w, h, t)
    ensures CountKind(t, Found) == 1
    ensures CountKind(t, Swap) == 0 && CountKind(t, Overwrite) == 0 && CountKind(t, Sorted) == 0
  {
    TraceKinds(w, h, t);
    var pre := t[..|t| - 1];
    assert t == pre + [Last(t)];
    forall k | k == Found || k == Swap || k == Overwrite || k == Sorted
      ensures CountKind(t, k) == if k == Found then 1 else 0
    {
      forall p | 0 <= p < |pre| ensures pre[p].kind != k {
        assert pre[p] == t[p];
      }
      MarksNone(pre, k);
      CountKindAppend(pre, [Last(t)], k);
      CountKindSingle(Last(t), k);
    }
  }

  /** Every step but the last names one grid cell by its flat index; the last
      names the goal's index w*h-1, or nothing when the cap was hit. */
  lemma IndicesInGrid(w: nat, h: nat, t: seq<Step>)
    requires w >= 1 && h >= 1 && SearchTrace(w, h, t)
    ensures forall p :: 0 <= p < |t| - 1 ==> |t[p].indices| == 1 && 0 <= t[p].indices[0] < w * h
    ensures Last(t).indices == [w * h - 1] || Last(t).indices == []
  {
    var pre := t[..|t| - 1];
    forall p | 0 <= p < |t| - 1 ensures |t[p].indices| == 1 && 0 <= t[p].indices[0] < w * h {
      assert pre[p] == t[p];
      EarlyStep(w, h, pre, p);
    }
    assert Flat(w, h, Goal(w, h)) == (h - 1) * w + w - 1;
    assert (h - 1) * w + w == w * h;
  }

  /** Replaying a search trace shows, at every position, the array it is
      given untouched and no index sorted. */
  lemma ReplayUntouched(w: nat, h: nat, t: seq<Step>, a: seq<int>, k: int)
    requires w >= 1 && h >= 1 && SearchTrace(w, h, t) && k < |t|
    ensures Reconstruction.StateAt(a, t, k) == Reconstruction.State(a, {})
  {
    if k >= 0 {
      TraceKinds(w, h, t);
      var u := t[..k + 1];
      forall p | 0 <= p < |u| ensures !Reconstruction.Moves(u[p]) && u[p].kind != Sorted {
        assert u[p] == t[p];
      }
      Reconstruction.StillTrace(Reconstruction.Initial(a), u);
      MarksNone(u, Sorted);
      Reconstruction.SortedIsMarked(Reconstruction.Initial(a), u);
    }
  }
}
