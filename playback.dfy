/** Navigation of the visualizer page: the index of the step shown, -1 before
    the first step, moved by the step buttons, the reset button and the
    playback timer, and the regeneration of the trace for an algorithm. */
module Playback {
  import opened Steps
  import Reconstruction
  import BubbleSort
  import SelectionSort
  import HeapSort
  import AStar

  /** The page's navigation state (lines 30-31): the index of the current step
      and whether playback runs. */
  datatype Player = Player(index: int, playing: bool)

  /** The positions the index may take for a trace of len steps: -1 to len-1. */
  predicate InRange(i: int, len: nat) {
    -1 <= i < len
  }

  /** Whether the next button is enabled (line 168). */
  function CanStepForward(i: int, len: nat): (r: bool)
    ensures InRange(i, len) ==> (r <==> InRange(i + 1, len))
  {
    i < len - 1
  }

  /** Whether the previous button is enabled (line 169). */
  function CanStepBackward(i: int): (r: bool)
    ensures forall len: nat :: InRange(i, len) ==> (r <==> InRange(i - 1, len))
  {
    i > -1
  }

  /** The next button (line 162): one step on, never past the last step. */
  function StepForward(i: int, len: nat): (r: int)
    ensures CanStepForward(i, len) ==> r == i + 1
    ensures !CanStepForward(i, len) ==> r == len - 1
    ensures InRange(i, len) ==> InRange(r, len) && (r != i <==> CanStepForward(i, len))
  {
    if i + 1 < len - 1 then i + 1 else len - 1
  }

  /** The previous button (line 163): one step back, never before -1. */
  function StepBackward(i: int): (r: int)
    ensures CanStepBackward(i) ==> r == i - 1
    ensures !CanStepBackward(i) ==> r == -1
    ensures forall len: nat :: InRange(i, len) ==> InRange(r, len)
    ensures i >= -1 ==> (r != i <==> CanStepBackward(i))
  {
    if i - 1 > -1 then i - 1 else -1
  }

  /** On an empty trace the next button leaves the index at -1. */
  lemma EmptyTraceStays(i: int)
    requires InRange(i, 0)
    ensures i == -1 && StepForward(i, 0) == -1 && !CanStepForward(i, 0) && !CanStepBackward(i)
  {
  }

  /** A step forward is undone by a step back, and a step back by a step forward. */
  lemma StepsUndo(i: int, len: nat)
    requires InRange(i, len)
    ensures CanStepForward(i, len) ==> StepBackward(StepForward(i, len)) == i
    ensures CanStepBackward(i) ==> StepForward(StepBackward(i), len) == i
  {
  }

  /** Stepping forward shows the state of the previous position with the next
      step applied. */
  lemma ForwardAppliesNext(original: seq<int>, steps: seq<Step>, i: int)
    requires InRange(i, |steps|) && CanStepForward(i, |steps|)
    ensures var j := StepForward(i, |steps|);
      Reconstruction.StateAt(original, steps, j)
        == Reconstruction.Apply(Reconstruction.StateAt(original, steps, i), steps[j])
  {
    Reconstruction.StateAtStep(original, steps, i + 1);
  }

  /** The reset button (lines 158-161). */
  function Reset(p: Player): (r: Player)
    ensures !r.playing && !CanStepBackward(r.index)
    ensures forall len: nat :: InRange(r.index, len)
  {
    Player(-1, false)
  }

  /** After a reset the page shows the original array with nothing sorted. */
  lemma ResetShowsOriginal(p: Player, original: seq<int>, steps: seq<Step>)
    ensures Reconstruction.StateAt(original, steps, Reset(p).index) == Reconstruction.State(original, {})
  {
    Reconstruction.BeforeStart(original, steps);
  }

  /** The play/pause button (line 157). */
  function PlayPause(p: Player): (r: Player)
    ensures r.index == p.index && r.playing != p.playing
  {
    Player(p.index, !p.playing)
  }

  /** The interval callback (lines 61-67): at or past the last step it stops
      playback and keeps the index, otherwise it advances the index by one. */
  function Tick(p: Player, len: nat): (r: Player)
    ensures CanStepForward(p.index, len) ==> r == Player(p.index + 1, p.playing)
    ensures !CanStepForward(p.index, len) ==> r == Player(p.index, false)
    ensures InRange(p.index, len) ==> InRange(r.index, len)
  {
    if p.index >= len - 1 then Player(p.index, false) else Player(p.index + 1, p.playing)
  }

  /** One period of the playback effect (lines 57-73): while playing before the
      last step the interval fires once; otherwise, at or past the last step,
      playback is switched off. */
  function Frame(p: Player, len: nat): (r: Player)
    ensures InRange(p.index, len) ==> InRange(r.index, len)
    ensures r.playing ==> p.playing
    ensures !p.playing ==> r.index == p.index
  {
    if p.playing && p.index < len - 1 then Tick(p, len)
    else if p.index >= len - 1 then Player(p.index, false)
    else p
  }

  /** n periods of the playback effect. */
  function Frames(p: Player, len: nat, n: nat): Player
    decreases n
  {
    if n == 0 then p else Frame(Frames(p, len, n - 1), len)
  }

  /** Playing from a position in range advances one step per period up to the
      last step and stops there: after n periods the index is the smaller of
      i + n and len - 1, and playback still runs exactly while i + n <= len - 1. */
  lemma {:induction false} PlayRuns(i: int, len: nat, n: nat)
    requires InRange(i, len)
    ensures var r := Frames(Player(i, true), len, n);
      r.index == (if i + n <= len - 1 then i + n else len - 1)
      && (r.playing <==> i + n <= len - 1)
    decreases n
  {
    if n > 0 {
      PlayRuns(i, len, n - 1);
    }
  }

  /** A paused player stays where it is. */
  lemma {:induction false} PausedStays(p: Player, len: nat, n: nat)
    requires !p.playing
    ensures Frames(p, len, n) == p
    decreases n
  {
    if n > 0 {
      PausedStays(p, len, n - 1);
    }
  }

  /** The width and the height of the grid the page searches with A* (line 50). */
  const GridSide: nat := 10

  /** Regenerating the visualization (lines 39-54) for the algorithm named by
      algoId and the freshly drawn input newArray: the index goes back to -1,
      playback stops, and the trace is the one the matching generator records
      (a 10-by-10 grid for A*), or empty for an unknown name. */
  method ResetVisualization(algoId: string, newArray: seq<int>)
    returns (arr: seq<int>, steps: seq<Step>, p: Player)
    ensures arr == newArray && p == Player(-1, false)
    ensures algoId == "bubble-sort" ==> BubbleSort.BubbleTrace(newArray, steps)
    ensures algoId == "selection-sort" ==> steps == SelectionSort.SelectionTrace(newArray)
    ensures algoId == "heap-sort" ==> steps == HeapSort.HeapSteps(newArray) && HeapSort.HeapTrace(newArray, steps)
    ensures algoId == "a-star" ==>
      steps == AStar.AStarSteps(GridSide, GridSide)
      && AStar.SearchTrace(GridSide, GridSide, steps) && steps[0] == AStar.VisitAt(GridSide, GridSide, AStar.Cell(0, 0))
    ensures algoId != "bubble-sort" && algoId != "selection-sort" && algoId != "heap-sort" && algoId != "a-star"
      ==> steps == []
  {
    arr, p := newArray, Player(-1, false);
    var input := new int[|newArray|](k requires 0 <= k < |newArray| => newArray[k]);
    assert input[..] == newArray;
    if algoId == "bubble-sort" {
      steps := BubbleSort.GenerateBubbleSortSteps(input);
    } else if algoId == "selection-sort" {
      ghost var sorted;
      steps, sorted := SelectionSort.GenerateSelectionSortSteps(input);
    } else if algoId == "heap-sort" {
      steps := HeapSort.GenerateHeapSortSteps(input);
    } else if algoId == "a-star" {
      steps := AStar.GenerateAStarSteps(GridSide, GridSide);
    } else {
      steps := [];
    }
  }
}
