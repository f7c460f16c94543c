/**
 * Playback: deciding whether a fragment event concerns a visualization,
 * firing the stored transitions of every iframe of a slide, replaying the last
 * state on backward arrival, and the navigation-direction test. Both variants
 * of the plugin share this code.
 */
module Playback {
  import opened Base
  import opened Steps
  import opened Dom

  datatype Direction = Forward | Backward

  /** The action a stored transition runs in one direction. */
  function Chosen(t: Transition, d: Direction): Action
  {
    match d
    case Forward => t.forward
    case Backward => t.backward
  }

  /** The table of `frame` has an entry for `step` (a NaN step never matches). */
  predicate HasEntry(frame: Frame, step: Option<int>)
    reads frame
  {
    frame.table.Some? && step.Some? && step.value in frame.table.value
  }

  /** `triggerTransition`: run the direction's action of the entry stored for
      `step`, and nothing when the iframe has no table or no entry for it. */
  function TriggerTransition(frame: Frame, step: Option<int>, d: Direction): (fired: Trace)
    reads frame
    ensures |fired| <= 1
    ensures !HasEntry(frame, step) ==> fired == []
    ensures HasEntry(frame, step) ==> fired == Fire(Chosen(frame.table.value[step.value], d))
  {
    if HasEntry(frame, step) then Fire(Chosen(frame.table.value[step.value], d)) else []
  }

  /** What firing `step` on every iframe of `frames`, in order, runs. */
  function FiredAll(frames: seq<Frame>, step: Option<int>, d: Direction): Trace
    reads set f | f in frames
  {
    if |frames| == 0 then []
    else FiredAll(frames[..|frames| - 1], step, d) + TriggerTransition(frames[|frames| - 1], step, d)
  }

  /** `triggerAllTransitions`. */
  method TriggerAllTransitions(allIframes: seq<Frame>, currentStep: Option<int>, direction: Direction)
    returns (fired: Trace)
    ensures fired == FiredAll(allIframes, currentStep, direction)
  {
    fired := [];
    for i := 0 to |allIframes|
      invariant fired == FiredAll(allIframes[..i], currentStep, direction)
    {
      assert allIframes[..i + 1][..i] == allIframes[..i];
      fired := fired + TriggerTransition(allIframes[i], currentStep, direction);
    }
    assert allIframes[..|allIframes|] == allIframes;
  }

  /** Each iframe runs at most one action, and iframes without an entry for
      the step run none: a NaN step runs nothing at all. */
  lemma {:induction false} FiredAllBounds(frames: seq<Frame>, step: Option<int>, d: Direction)
    ensures |FiredAll(frames, step, d)| <= |frames|
    ensures (forall i | 0 <= i < |frames| :: !HasEntry(frames[i], step)) ==> FiredAll(frames, step, d) == []
    ensures step.None? ==> FiredAll(frames, step, d) == []
  {
    if |frames| > 0 {
      var init := frames[..|frames| - 1];
      FiredAllBounds(init, step, d);
      assert forall i | 0 <= i < |init| :: init[i] == frames[i];
    }
  }

  /** Firing on a list of iframes is firing on its parts in turn. */
  lemma {:induction false} FiredAllConcat(a: seq<Frame>, b: seq<Frame>, step: Option<int>, d: Direction)
    ensures FiredAll(a + b, step, d) == FiredAll(a, step, d) + FiredAll(b, step, d)
  {
    if |b| == 0 {
      assert a + b == a;
    } else {
      var init := b[..|b| - 1];
      FiredAllConcat(a, init, step, d);
      assert (a + b)[..|a + b| - 1] == a + init;
    }
  }

  /** The loop that stores the reconciler's tables on the iframes (demo lines
      402-404, older variant lines 370-373): iframe `i` gets table `i`, and an
      iframe past the end of the tables gets `undefined`. The iframes are
      distinct DOM nodes. */
  method AssignTables(nodeList: seq<Frame>, tables: seq<ActionTable>)
    requires NoDuplicates(nodeList)
    modifies set f | f in nodeList
    ensures forall i | 0 <= i < |nodeList| ::
      nodeList[i].table == (if i < |tables| then Some(tables[i]) else None)
    ensures forall f | f in nodeList :: f.onSlideChange == old(f.onSlideChange)
  {
    for i := 0 to |nodeList|
      invariant forall j | 0 <= j < i :: nodeList[j].table == (if j < |tables| then Some(tables[j]) else None)
      invariant forall f | f in nodeList :: f.onSlideChange == old(f.onSlideChange)
    {
      nodeList[i].table := if i < |tables| then Some(tables[i]) else None;
    }
  }

  /** Iframe `i` holds table `i`, and an iframe past the last table none. */
  predicate TablesStored(nodeList: seq<Frame>, tables: seq<ActionTable>)
    reads set f | f in nodeList
  {
    forall i | 0 <= i < |nodeList| :: nodeList[i].table == (if i < |tables| then Some(tables[i]) else None)
  }

  // ---------------------------------------------------------------------
  // Arrival transitions
  // ---------------------------------------------------------------------

  /** What `triggerOnSlideChangeTransition` runs: the forward action of each
      iframe's on-slide-change step, in order. */
  function OnSlideChangeFired(frames: seq<Frame>): Trace
    reads set f | f in frames
  {
    if |frames| == 0 then []
    else
      var last := frames[|frames| - 1];
      OnSlideChangeFired(frames[..|frames| - 1])
        + (match last.onSlideChange case Some(s) => Fire(s.forward) case None => [])
  }

  method TriggerOnSlideChangeTransition(allIframes: seq<Frame>) returns (fired: Trace)
    ensures fired == OnSlideChangeFired(allIframes)
  {
    fired := [];
    for i := 0 to |allIframes|
      invariant fired == OnSlideChangeFired(allIframes[..i])
    {
      assert allIframes[..i + 1][..i] == allIframes[..i];
      var iframe := allIframes[i];
      if iframe.onSlideChange.Some? {
        fired := fired + Fire(iframe.onSlideChange.value.forward);
      }
    }
    assert allIframes[..|allIframes|] == allIframes;
  }

  /** Only iframes that were given an on-slide-change step run anything. */
  lemma {:induction false} OnSlideChangeOnlyGiven(frames: seq<Frame>)
    ensures |OnSlideChangeFired(frames)| <= |frames|
    ensures (forall i | 0 <= i < |frames| :: frames[i].onSlideChange.None?) ==> OnSlideChangeFired(frames) == []
  {
    if |frames| > 0 {
      var init := frames[..|frames| - 1];
      OnSlideChangeOnlyGiven(init);
      assert forall i | 0 <= i < |init| :: init[i] == frames[i];
    }
  }

  // ---------------------------------------------------------------------
  // Navigation direction
  // ---------------------------------------------------------------------

  /** `Reveal.getIndices` of a slide. */
  datatype Indices = Indices(h: int, v: int)

  /** `isNavigationBack`: the current slide is before the previous one on
      either axis, compared separately. */
  function IsNavigationBack(current: Indices, previous: Indices): (back: bool)
    ensures back <==> current.h < previous.h || current.v < previous.v
    ensures back ==> current != previous
  {
    (current.h < previous.h) || (current.v < previous.v)
  }

  /** The two axes are compared separately, so moving right from a lower
      vertical slide to the top of the next column counts as going back, and
      two slides can each be "back" from the other. */
  lemma NavigationBackEitherAxis()
    ensures IsNavigationBack(Indices(1, 0), Indices(0, 2))
    ensures IsNavigationBack(Indices(0, 1), Indices(1, 0)) && IsNavigationBack(Indices(1, 0), Indices(0, 1))
  {
  }

  // ---------------------------------------------------------------------
  // Last-state replay
  // ---------------------------------------------------------------------

  /** The parsed `data-fragment-index` of each fragment. */
  function IndicesOf(fs: seq<Fragment>): (r: seq<Option<int>>)
    ensures |r| == |fs|
    ensures forall i | 0 <= i < |fs| :: r[i] == fs[i].index
  {
    seq(|fs|, i requires 0 <= i < |fs| => fs[i].index)
  }

  /** `Math.max.apply(null, xs)` on parsed indices: NaN (None) as soon as one
      of them is NaN, and for an empty list `-Infinity`, which no table holds
      either (None as well). */
  function JsMax(xs: seq<Option<int>>): (r: Option<int>)
    ensures r.Some? <==> |xs| > 0 && forall i | 0 <= i < |xs| :: xs[i].Some?
    ensures r.Some? ==> (exists i | 0 <= i < |xs| :: xs[i] == r)
    ensures r.Some? ==> forall i | 0 <= i < |xs| :: xs[i].value <= r.value
  {
    if |xs| == 0 then None
    else if xs[0].None? then None
    else if |xs| == 1 then xs[0]
    else
      var rest := JsMax(xs[1..]);
      assert forall i | 1 <= i < |xs| :: xs[i] == xs[1..][i - 1];
      if rest.None? then None
      else if xs[0].value >= rest.value then xs[0]
      else
        assert xs[1..][0] == xs[1];
        rest
  }

  /** Once every marker carries an index, the replayed step is their maximum. */
  lemma JsMaxOfIndices(vals: seq<int>)
    requires |vals| > 0
    ensures JsMax(seq(|vals|, i requires 0 <= i < |vals| => Some(vals[i]))) == Some(Max(vals))
  {
    var xs := seq(|vals|, i requires 0 <= i < |vals| => Some(vals[i]));
    var r := JsMax(xs);
    var k :| 0 <= k < |xs| && xs[k] == r;
    assert vals[k] in vals;
    var j :| 0 <= j < |vals| && vals[j] == Max(vals);
    assert xs[j].value <= r.value;
  }

  /** `triggerLastState` of the current plugin for one iframe: on backward
      navigation, fire forward the highest index among the slide's markers;
      nothing when navigating forward or when there are no markers. */
  method TriggerLastState(iframe: Frame, back: bool, currentFragments: seq<Fragment>)
    returns (fired: Trace)
    ensures !back || |Markers(currentFragments)| == 0 ==> fired == []
    ensures back && |Markers(currentFragments)| > 0 ==>
      fired == TriggerTransition(iframe, JsMax(IndicesOf(Markers(currentFragments))), Forward)
  {
    fired := [];
    if back {
      var allFragments := Markers(currentFragments);
      if |allFragments| == 0 {
        return;
      }
      var allFragmentsIndices := [];
      for i := 0 to |allFragments|
        invariant allFragmentsIndices == IndicesOf(allFragments[..i])
      {
        allFragmentsIndices := allFragmentsIndices + [allFragments[i].index];
      }
      assert allFragments[..|allFragments|] == allFragments;
      fired := TriggerTransition(iframe, JsMax(allFragmentsIndices), Forward);
    }
  }

  /** After a write-back on a slide that had no more marker spans than it
      needed, the last state replayed is the highest of the written indices. */
  lemma ReplayAfterWriteBack(fs: seq<Fragment>, vals: seq<int>, markVisible: bool)
    requires |vals| > 0 && |Markers(fs)| <= |vals|
    ensures JsMax(IndicesOf(Markers(WrittenBack(fs, vals, markVisible)))) == Some(Max(vals))
  {
    var after := Markers(WrittenBack(fs, vals, markVisible));
    WriteBackContract(fs, vals, markVisible);
    assert IndicesOf(after) == seq(|vals|, i requires 0 <= i < |vals| => Some(vals[i]));
    JsMaxOfIndices(vals);
  }

  // ---------------------------------------------------------------------
  // Fragment events
  // ---------------------------------------------------------------------

  /** The class names of the event's fragments, concatenated without separator. */
  function AllClassNames(fs: seq<Fragment>): string
  {
    if |fs| == 0 then "" else AllClassNames(fs[..|fs| - 1]) + ClassName(fs[|fs| - 1])
  }

  /** `proceed`: the concatenated class names contain `visualizationStep`. */
  method Proceed(eventFragments: seq<Fragment>) returns (ok: bool)
    ensures ok == Contains(AllClassNames(eventFragments), StepClass)
  {
    var allClassNames := "";
    for i := 0 to |eventFragments|
      invariant allClassNames == AllClassNames(eventFragments[..i])
    {
      assert eventFragments[..i + 1][..i] == eventFragments[..i];
      allClassNames := allClassNames + ClassName(eventFragments[i]);
    }
    assert eventFragments[..|eventFragments|] == eventFragments;
    ok := Contains(allClassNames, StepClass);
  }

  /** An event that shows or hides a marker span always proceeds. */
  lemma {:induction false} ProceedOnMarker(fs: seq<Fragment>, k: nat)
    requires k < |fs| && StepClass in fs[k].classes
    ensures Contains(AllClassNames(fs), StepClass)
  {
    var init, last := fs[..|fs| - 1], fs[|fs| - 1];
    assert AllClassNames(fs) == AllClassNames(init) + ClassName(last);
    if k == |fs| - 1 {
      ContainsToken(last.classes, StepClass);
    } else {
      assert init[k] == fs[k];
      ProceedOnMarker(init, k);
    }
    ContainsInAppend(AllClassNames(init), ClassName(last), StepClass);
  }

  /** An event with no fragments never proceeds. */
  lemma ProceedNeedsFragments()
    ensures !Contains(AllClassNames([]), StepClass)
  {
  }

  /** The test runs on the concatenation, so two fragments whose class names
      only spell `visualizationStep` together also proceed. */
  lemma ProceedAcrossFragments()
    ensures var fs := [Fragment(["fragment", "visualization"], None), Fragment(["Step"], None)];
      && (forall i | 0 <= i < |fs| :: StepClass !in fs[i].classes)
      && Contains(AllClassNames(fs), StepClass)
  {
    var fs := [Fragment(["fragment", "visualization"], None), Fragment(["Step"], None)];
    assert fs[..1][..0] == [];
    assert AllClassNames(fs) == "fragment visualization" + "Step";
    assert OccursAt(AllClassNames(fs), StepClass, 9);
  }

  /** `handleFragments`: fire the step of the event's first fragment on every
      iframe of its slide. (The host always reports at least one fragment.) */
  method HandleFragments(eventFragments: seq<Fragment>, slide: Slide, direction: Direction)
    returns (fired: Trace)
    requires |eventFragments| > 0
    ensures fired == FiredAll(slide.AllIframes(), eventFragments[0].index, direction)
  {
    var currentStep := eventFragments[0].index;
    var allIframes := slide.AllIframes();
    fired := TriggerAllTransitions(allIframes, currentStep, direction);
  }

  /** The `fragmentshown` (forward) and `fragmenthidden` (backward) handlers. */
  method OnFragmentEvent(eventFragments: seq<Fragment>, slide: Slide, direction: Direction)
    returns (fired: Trace)
    ensures !Contains(AllClassNames(eventFragments), StepClass) ==> fired == []
    ensures Contains(AllClassNames(eventFragments), StepClass) ==>
      (|eventFragments| > 0 && fired == FiredAll(slide.AllIframes(), eventFragments[0].index, direction))
  {
    var ok := Proceed(eventFragments);
    if !ok {
      return [];
    }
    if |eventFragments| == 0 {
      ProceedNeedsFragments();
      assert false;
    }
    fired := HandleFragments(eventFragments, slide, direction);
  }
}
