/**
 * components/ui/ControlPanel.tsx: the obstacle-weight stepper, which walks
 * the weights 2..9 and Infinity in a cycle, and the label of the play
 * button.
 */
module ControlPanel {
  import opened Cells

  const MIN_WEIGHT: int := 2
  const MAX_WEIGHT: int := 9

  /** The weights the stepper offers. */
  predicate Selectable(w: Weight) {
    w == Infinity || MIN_WEIGHT <= w.n <= MAX_WEIGHT
  }

  /**
   * changeWeight(direction): from Infinity, up gives the least weight and
   * down the greatest; otherwise the weight moves by one, and a step out of
   * 2..9 gives Infinity. Whatever it starts from, the result is selectable.
   */
  function ChangeWeight(w: Weight, direction: int): (r: Weight)
    requires direction == 1 || direction == -1
    ensures Selectable(r)
    ensures w == Infinity ==> r == Finite(if direction == 1 then MIN_WEIGHT else MAX_WEIGHT)
    ensures w.Finite? && MIN_WEIGHT <= w.n + direction <= MAX_WEIGHT ==> r == Finite(w.n + direction)
    ensures w.Finite? && !(MIN_WEIGHT <= w.n + direction <= MAX_WEIGHT) ==> r == Infinity
  {
    if w == Infinity then
      Finite(if direction == 1 then MIN_WEIGHT else MAX_WEIGHT)
    else
      var newWeight := w.n + direction;
      if newWeight > MAX_WEIGHT || newWeight < MIN_WEIGHT then Infinity else Finite(newWeight)
  }

  /** On the selectable weights a step up and a step down undo each other. */
  lemma StepsUndo(w: Weight)
    requires Selectable(w)
    ensures ChangeWeight(ChangeWeight(w, 1), -1) == w
    ensures ChangeWeight(ChangeWeight(w, -1), 1) == w
  {
  }

  /** n steps up from w. */
  function StepUp(w: Weight, n: nat): Weight {
    if n == 0 then w else ChangeWeight(StepUp(w, n - 1), 1)
  }

  /** Where k steps up from Infinity land: the k-th weight of the cycle 2, 3, ..., 9, Infinity. */
  function CyclePosition(k: nat): Weight {
    if k % 9 == 0 then Infinity else Finite(MIN_WEIGHT + k % 9 - 1)
  }

  /** Stepping up from Infinity visits 2..9 in order and returns to Infinity after nine steps. */
  lemma {:induction false} StepUpCycle(n: nat)
    ensures StepUp(Infinity, n) == CyclePosition(n)
  {
    if n > 0 {
      StepUpCycle(n - 1);
    }
  }

  /** The play button's label: RUNNING... while running, else RESET once a run completed, else PLAY. */
  function PlayLabel(isRunning: bool, runCompleted: bool): (text: string)
    ensures text == "RUNNING..." <==> isRunning
    ensures text == "RESET" <==> !isRunning && runCompleted
    ensures text == "PLAY" <==> !isRunning && !runCompleted
  {
    if isRunning then "RUNNING..." else if runCompleted then "RESET" else "PLAY"
  }
}
