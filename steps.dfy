/**
 * The step descriptors a visualization exposes as `_transitions`, and the
 * forward/backward pairs the plugin stores for each slide step.
 */
module Steps {
  import opened Base

  /** What calling a stored transition does: nothing (a missing function, or the
      `() => {}` that stands for "none") or fire one action, identified by its id. */
  datatype Action = NoOp | Act(id: int)

  /** A step's `index` field: absent, a number, or a string (a step to run on slide arrival). */
  datatype StepIndex = Unset | At(n: int) | Named(tag: string)

  /** A step's `transitionBackward` field: absent (falsy), the string "none", or a function. */
  datatype BackwardField = Omitted | NoneKeyword | Given(id: int)

  datatype Step = Step(index: StepIndex, forward: Action, backward: BackwardField)

  /** The `{transitionForward, transitionBackward}` object stored under one slide step. */
  datatype Transition = Transition(forward: Action, backward: Action)

  /** `iframe.transitionSteps`: slide fragment index to transition. */
  type ActionTable = map<int, Transition>

  /** Calling an action: what it appends to the trace. */
  function Fire(a: Action): (t: Trace)
    ensures t == [] <==> a.NoOp?
    ensures a.Act? ==> t == [a.id]
  {
    match a
    case NoOp => []
    case Act(id) => [id]
  }

  /** The table entry the reconciler builds for step `j` of one visualization:
      its own forward action, and as backward action the no-op for "none", its
      own backward function when it has one, and otherwise the forward action of
      the step before it (step 0 falls back on its own forward action). */
  function Entry(steps: seq<Step>, j: nat): Transition
    requires j < |steps|
  {
    var back := match steps[j].backward
      case NoneKeyword => NoOp
      case Given(id) => Act(id)
      case Omitted => steps[if j >= 1 then j - 1 else 0].forward;
    Transition(steps[j].forward, back)
  }
}
