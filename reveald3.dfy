/**
 * The event handlers of the current plugin: the load handler of an iframe
 * (split of `_transitions`, reconciliation, span write-back, last-state
 * replay), the `slidechanged` handler and the overview handlers.
 */
module Reveald3 {
  import opened Base
  import opened Steps
  import opened Dom
  import opened Playback
  import opened Reconciler
  import opened Lifecycle

  // ---------------------------------------------------------------------
  // In-slide and on-slide-change steps
  // ---------------------------------------------------------------------

  /** A step whose `index` is a number or absent runs inside the slide; one
      whose `index` is a string runs when the slide is arrived at. */
  predicate IsInSlide(s: Step)
  {
    !s.index.Named?
  }

  /** The `inSlide` part of the split, in declared order. */
  function InSlide(steps: seq<Step>): seq<Step>
  {
    if |steps| == 0 then []
    else InSlide(steps[..|steps| - 1]) + (if IsInSlide(steps[|steps| - 1]) then [steps[|steps| - 1]] else [])
  }

  /** The `onSlideChange` part of the split, in declared order. */
  function OnSlideChangeSteps(steps: seq<Step>): seq<Step>
  {
    if |steps| == 0 then []
    else OnSlideChangeSteps(steps[..|steps| - 1]) + (if IsInSlide(steps[|steps| - 1]) then [] else [steps[|steps| - 1]])
  }

  /** Every step lands in exactly one part: the in-slide part holds the
      numbered and unnumbered steps, the other part the named ones. */
  lemma SplitSpec(steps: seq<Step>)
    ensures |InSlide(steps)| + |OnSlideChangeSteps(steps)| == |steps|
    ensures forall s :: s in InSlide(steps) <==> s in steps && IsInSlide(s)
    ensures forall s :: s in OnSlideChangeSteps(steps) <==> s in steps && s.index.Named?
    ensures (forall i | 0 <= i < |steps| :: IsInSlide(steps[i])) ==> InSlide(steps) == steps
  {
    SplitCounts(steps);
    SplitMembers(steps);
    if forall i | 0 <= i < |steps| :: IsInSlide(steps[i]) {
      AllInSlide(steps);
    }
  }

  lemma {:induction false} SplitCounts(steps: seq<Step>)
    ensures |InSlide(steps)| + |OnSlideChangeSteps(steps)| == |steps|
  {
    if |steps| > 0 {
      SplitCounts(steps[..|steps| - 1]);
    }
  }

  lemma {:induction false} SplitMembers(steps: seq<Step>)
    ensures forall s :: s in InSlide(steps) <==> s in steps && IsInSlide(s)
    ensures forall s :: s in OnSlideChangeSteps(steps) <==> s in steps && s.index.Named?
  {
    if |steps| > 0 {
      var init := steps[..|steps| - 1];
      SplitMembers(init);
      assert steps == init + [steps[|steps| - 1]];
    }
  }

  lemma {:induction false} AllInSlide(steps: seq<Step>)
    requires forall i | 0 <= i < |steps| :: IsInSlide(steps[i])
    ensures InSlide(steps) == steps
  {
    if |steps| > 0 {
      var init := steps[..|steps| - 1];
      assert forall i | 0 <= i < |init| :: init[i] == steps[i];
      AllInSlide(init);
    }
  }

  /** The `reduce` of lines 380-388 over one iframe's `_transitions`. */
  method SplitTransitions(transitions: seq<Step>) returns (onSlideChange: seq<Step>, inSlide: seq<Step>)
    ensures onSlideChange == OnSlideChangeSteps(transitions)
    ensures inSlide == InSlide(transitions)
  {
    onSlideChange, inSlide := [], [];
    for i := 0 to |transitions|
      invariant onSlideChange == OnSlideChangeSteps(transitions[..i])
      invariant inSlide == InSlide(transitions[..i])
    {
      assert transitions[..i + 1][..i] == transitions[..i];
      var curr := transitions[i];
      if !curr.index.Named? {
        inSlide := inSlide + [curr];
      } else {
        onSlideChange := onSlideChange + [curr];
      }
    }
    assert transitions[..|transitions|] == transitions;
  }

  // ---------------------------------------------------------------------
  // Collecting the steps of a slide's iframes
  // ---------------------------------------------------------------------

  /** The iframe takes part in the reconciliation: its `_transitions` is set
      and has at least one in-slide step. */
  predicate Contributes(f: Frame)
  {
    f.transitions.Some? && |InSlide(f.transitions.value)| > 0
  }

  /** `allVisualizationSteps`: the in-slide steps of the contributing iframes, in order. */
  function InSlideLists(nodeList: seq<Frame>): seq<seq<Step>>
  {
    if |nodeList| == 0 then []
    else
      var last := nodeList[|nodeList| - 1];
      InSlideLists(nodeList[..|nodeList| - 1])
        + (if Contributes(last) then [InSlide(last.transitions.value)] else [])
  }

  /** `onSlideChangeTransition`: the first on-slide-change step of the loading iframe, if it is on the slide. */
  function OnSlideChangeFor(nodeList: seq<Frame>, iframe: Frame): Option<Step>
  {
    if iframe in nodeList && iframe.transitions.Some? && |OnSlideChangeSteps(iframe.transitions.value)| > 0
    then Some(OnSlideChangeSteps(iframe.transitions.value)[0])
    else None
  }

  /** The loop of lines 378-395. */
  method CollectSteps(nodeList: seq<Frame>, iframe: Frame)
    returns (allVisualizationSteps: seq<seq<Step>>, onSlideChangeTransition: Option<Step>)
    ensures allVisualizationSteps == InSlideLists(nodeList)
    ensures onSlideChangeTransition == OnSlideChangeFor(nodeList, iframe)
  {
    allVisualizationSteps := [];
    onSlideChangeTransition := None;
    for i := 0 to |nodeList|
      invariant allVisualizationSteps == InSlideLists(nodeList[..i])
      invariant onSlideChangeTransition == OnSlideChangeFor(nodeList[..i], iframe)
    {
      assert nodeList[..i + 1][..i] == nodeList[..i];
      assert iframe in nodeList[..i + 1] <==> iframe in nodeList[..i] || iframe == nodeList[i];
      var node := nodeList[i];
      if node.transitions.Some? {
        var onSlideChange, inSlide := SplitTransitions(node.transitions.value);
        if |inSlide| > 0 {
          allVisualizationSteps := allVisualizationSteps + [inSlide];
        }
        if |onSlideChange| > 0 && node == iframe {
          onSlideChangeTransition := Some(onSlideChange[0]);
        }
      }
    }
    assert nodeList[..|nodeList|] == nodeList;
  }

  /** The lists line up with the iframes only when every iframe contributes:
      list `i` then holds the in-slide steps of iframe `i`. */
  lemma {:induction false} InSlideListsAligned(nodeList: seq<Frame>)
    ensures |InSlideLists(nodeList)| <= |nodeList|
    ensures (forall i | 0 <= i < |nodeList| :: Contributes(nodeList[i])) ==>
      && |InSlideLists(nodeList)| == |nodeList|
      && forall i | 0 <= i < |nodeList| :: InSlideLists(nodeList)[i] == InSlide(nodeList[i].transitions.value)
  {
    if |nodeList| > 0 {
      var init := nodeList[..|nodeList| - 1];
      InSlideListsAligned(init);
      assert forall i | 0 <= i < |init| :: init[i] == nodeList[i];
    }
  }

  /** Otherwise the tables shift: with an iframe without in-slide steps before
      one with steps, the first iframe is given the table built from the
      second one's steps, and the second none. */
  lemma InSlideListsShift(a: Frame, b: Frame)
    requires !Contributes(a) && Contributes(b)
    ensures InSlideLists([a, b]) == [InSlide(b.transitions.value)]
  {
    assert [a, b][..1] == [a];
    assert [a][..0] == [];
    assert InSlideLists([a]) == [];
    assert InSlideLists([a, b]) == InSlideLists([a]) + [InSlide(b.transitions.value)];
  }

  // ---------------------------------------------------------------------
  // The load handler
  // ---------------------------------------------------------------------

  /** The loop of lines 435-439 of the current plugin: `triggerLastState` on every iframe. */
  method ReplayLastState(nodeList: seq<Frame>, isNavBack: bool, currentFragments: seq<Fragment>)
    returns (fired: Trace)
    ensures fired == (if isNavBack && |Markers(currentFragments)| > 0
      then FiredAll(nodeList, JsMax(IndicesOf(Markers(currentFragments))), Forward) else [])
  {
    fired := [];
    ghost var step := JsMax(IndicesOf(Markers(currentFragments)));
    ghost var replays := isNavBack && |Markers(currentFragments)| > 0;
    for i := 0 to |nodeList|
      invariant fired == (if replays then FiredAll(nodeList[..i], step, Forward) else [])
    {
      assert nodeList[..i + 1][..i] == nodeList[..i];
      var f := TriggerLastState(nodeList[i], isNavBack, currentFragments);
      fired := fired + f;
    }
    assert nodeList[..|nodeList|] == nodeList;
  }

  /** The reconciliation part of the load handler (lines 375-399): collect
      the steps of the slide's iframes and reconcile them. */
  method Reconcile(iframe: Frame, nodeList: seq<Frame>, fragmentsInSlide: nat)
    returns (tables: seq<ActionTable>, spansToCreate: seq<int>, onSlideChangeTransition: Option<Step>)
    ensures Reconciled(InSlideLists(nodeList), fragmentsInSlide, tables, spansToCreate)
    ensures onSlideChangeTransition == OnSlideChangeFor(nodeList, iframe)
  {
    var allVisualizationSteps;
    allVisualizationSteps, onSlideChangeTransition := CollectSteps(nodeList, iframe);
    tables, spansToCreate := GenerateVisualizationStepsIndices(allVisualizationSteps, fragmentsInSlide);
  }

  /** Lines 402-407 and 433-440: table `i` goes to iframe `i` (none past
      the last table), the on-slide-change step to the loading iframe; then,
      when `replay` holds and the loading iframe is the last one, every iframe
      replays the highest marker index of `fragments`. */
  method InstallSteps(iframe: Frame, nodeList: seq<Frame>, tables: seq<ActionTable>,
                      onSlideChangeTransition: Option<Step>, replay: bool, isNavBack: bool,
                      fragments: seq<Fragment>)
    returns (fired: Trace)
    requires NoDuplicates(nodeList)
    modifies iframe, set f | f in nodeList
    ensures TablesStored(nodeList, tables)
    ensures iframe.onSlideChange == onSlideChangeTransition
    ensures forall f | f in nodeList && f != iframe :: f.onSlideChange == old(f.onSlideChange)
    ensures fired == (if replay && |nodeList| > 0 && iframe == nodeList[|nodeList| - 1]
                        && isNavBack && |Markers(fragments)| > 0
                      then FiredAll(nodeList, JsMax(IndicesOf(Markers(fragments))), Forward) else [])
  {
    AssignTables(nodeList, tables);
    iframe.onSlideChange := onSlideChangeTransition;
    fired := [];
    if replay {
      if |nodeList| > 0 && iframe == nodeList[|nodeList| - 1] {
        fired := ReplayLastState(nodeList, isNavBack, fragments);
      }
    }
  }

  /** The `load` handler of an iframe of the current plugin (lines 357-444).
      `fragmentsInSlide` is the number of authored indices collected when the
      deck was ready, `isNavBack` is the direction of the last navigation,
      `isCurrent` tells whether `slide` is the current slide. Afterwards:
      iframe `i` of the slide holds the table built from the `i`-th collected
      step list (and none past the last list); the loading iframe holds its
      on-slide-change step; the markers carry the slide fragment indices; and
      when replay is on, the slide is the current one and the loading iframe
      is its last, every iframe replays the highest marker index. The tables
      are stored before the spans are written back, as in the source; the two
      updates touch different objects, so the model performs them in the
      other order. */
  method OnLoad(iframe: Frame, slide: Slide, fragmentsInSlide: nat, isNavBack: bool, runLastState: bool,
                isCurrent: bool)
    returns (tables: seq<ActionTable>, spansToCreate: seq<int>, fired: Trace)
    requires NoDuplicates(slide.AllIframes())
    modifies slide, iframe, set f | f in slide.AllIframes()
    ensures slide.foreground == old(slide.foreground) && slide.background == old(slide.background)
    ensures Reconciled(InSlideLists(old(slide.AllIframes())), fragmentsInSlide, tables, spansToCreate)
    ensures TablesStored(old(slide.AllIframes()), tables)
    ensures iframe.onSlideChange == OnSlideChangeFor(old(slide.AllIframes()), iframe)
    ensures forall f | f in old(slide.AllIframes()) && f != iframe :: f.onSlideChange == old(f.onSlideChange)
    ensures slide.fragments == WrittenBack(old(slide.fragments), spansToCreate, isNavBack)
    ensures var nodeList := old(slide.AllIframes());
      fired == (if runLastState && isCurrent && |nodeList| > 0 && iframe == nodeList[|nodeList| - 1]
                   && isNavBack && |Markers(slide.fragments)| > 0
                then FiredAll(nodeList, JsMax(IndicesOf(Markers(slide.fragments))), Forward) else [])
  {
    var nodeList := slide.AllIframes();
    var onSlideChangeTransition;
    tables, spansToCreate, onSlideChangeTransition := Reconcile(iframe, nodeList, fragmentsInSlide);
    slide.WriteBackMarkers(spansToCreate, isNavBack);
    fired := InstallSteps(iframe, nodeList, tables, onSlideChangeTransition, runLastState && isCurrent, isNavBack,
      slide.fragments);
  }

  /** Every slide fragment index a table stores a step under is one of the marker indices. */
  lemma TableKeysAreMarkers(lists: seq<seq<Step>>, i: nat, m: nat, t: ActionTable)
    requires i < |lists|
    requires IsActionTable(t, lists[i], RemappedKeys(LocalIndices(lists[i]), UnionOf(AllLocalIndices(lists)), m))
    ensures t.Keys <= MarkerSet(UnionOf(AllLocalIndices(lists)), m)
  {
    var u := UnionOf(AllLocalIndices(lists));
    var indices := LocalIndices(lists[i]);
    UnionContains(AllLocalIndices(lists), i);
    forall k | k in t ensures k in MarkerSet(u, m) {
      var j :| 0 <= j < |indices| && RemappedKeys(indices, u, m)[j] == k;
      assert indices[j] in Elements(indices);
      if indices[j] >= m {
        RemapOverflowBounds(u, m, indices[j]);
      }
    }
  }

  /** After the write-back each of those indices is carried by a marker
      span, so every stored step can be reached by a fragment event. */
  lemma StoredStepsHaveMarkers(lists: seq<seq<Step>>, i: nat, m: nat, t: ActionTable,
                               spansToCreate: seq<int>, fs: seq<Fragment>, markVisible: bool)
    requires i < |lists|
    requires IsActionTable(t, lists[i], RemappedKeys(LocalIndices(lists[i]), UnionOf(AllLocalIndices(lists)), m))
    requires Elements(spansToCreate) == MarkerSet(UnionOf(AllLocalIndices(lists)), m)
    ensures var after := Markers(WrittenBack(fs, spansToCreate, markVisible));
      && |spansToCreate| <= |after|
      && forall k | k in t :: exists p | 0 <= p < |spansToCreate| :: after[p].index == Some(k)
  {
    TableKeysAreMarkers(lists, i, m, t);
    WriteBackContract(fs, spansToCreate, markVisible);
    var after := Markers(WrittenBack(fs, spansToCreate, markVisible));
    forall k | k in t ensures exists p | 0 <= p < |spansToCreate| :: after[p].index == Some(k) {
      assert k in Elements(spansToCreate);
      var p :| 0 <= p < |spansToCreate| && spansToCreate[p] == k;
      assert after[p].index == Some(k);
    }
  }

  // ---------------------------------------------------------------------
  // Slide changes and the overview
  // ---------------------------------------------------------------------

  /** `clearBackgrounds` when `clear`, then `updateBackgroundSlides`: the
      `slidechanged` handler clears while the overview is shown, `overviewshown`
      only updates (with the overview's view distance), `overviewhidden`
      clears and updates. */
  method RefreshBackgrounds(backgroundSlides: Option<seq<BackgroundSlide>>, clear: bool, indexh: Option<int>,
                            isOverView: bool, configViewDistance: int, loop: bool, horizontalSlidesLength: int)
    requires backgroundSlides.Some? ==>
      forall i, j | 0 <= i < j < |backgroundSlides.value| ::
        backgroundSlides.value[i].slide != backgroundSlides.value[j].slide
    modifies if backgroundSlides.Some? then SlidesOf(backgroundSlides.value) else {}
    ensures backgroundSlides.Some? ==>
      forall i | 0 <= i < |backgroundSlides.value| ::
        var b := backgroundSlides.value[i];
        UpdatedBackground(b, Materializes(b, indexh, isOverView, configViewDistance, loop, horizontalSlidesLength),
          old(b.slide.foreground), if clear then [] else old(b.slide.background), old(b.slide.fragments))
  {
    if clear {
      ClearBackgrounds(backgroundSlides);
    }
    UpdateBackgroundSlides(backgroundSlides, indexh, isOverView, configViewDistance, loop, horizontalSlidesLength);
  }

  /** The `slidechanged` handler (lines 76-101), with the on-slide-change
      transitions fired at once instead of after `onSlideChangedDelay`. The
      backgrounds are refreshed first; then, on backward navigation with
      replay on, every iframe of the new slide replays its highest marker
      index; on forward navigation every iframe runs its on-slide-change step. */
  method SlideChanged(backgroundSlides: Option<seq<BackgroundSlide>>, currentSlide: Slide,
                      current: Indices, previous: Indices, indexh: Option<int>, isOverView: bool,
                      configViewDistance: int, loop: bool, horizontalSlidesLength: int, runLastState: bool)
    returns (replayed: Trace, arrival: Trace)
    requires backgroundSlides.Some? ==>
      forall i, j | 0 <= i < j < |backgroundSlides.value| ::
        backgroundSlides.value[i].slide != backgroundSlides.value[j].slide
    modifies if backgroundSlides.Some? then SlidesOf(backgroundSlides.value) else {}
    ensures backgroundSlides.Some? ==>
      forall i | 0 <= i < |backgroundSlides.value| ::
        var b := backgroundSlides.value[i];
        UpdatedBackground(b, Materializes(b, indexh, isOverView, configViewDistance, loop, horizontalSlidesLength),
          old(b.slide.foreground), if isOverView then [] else old(b.slide.background), old(b.slide.fragments))
    ensures var back := IsNavigationBack(current, previous);
      var allIframes := currentSlide.AllIframes();
      && replayed == (if runLastState && back && |Markers(currentSlide.fragments)| > 0
           then FiredAll(allIframes, JsMax(IndicesOf(Markers(currentSlide.fragments))), Forward) else [])
      && arrival == (if back then [] else OnSlideChangeFired(allIframes))
  {
    RefreshBackgrounds(backgroundSlides, isOverView, indexh, isOverView, configViewDistance, loop,
      horizontalSlidesLength);
    var directionBack := IsNavigationBack(current, previous);
    replayed, arrival := [], [];
    if runLastState && directionBack {
      var allIframes := currentSlide.AllIframes();
      replayed := ReplayLastState(allIframes, directionBack, currentSlide.fragments);
    }
    if !directionBack {
      var allIframes := currentSlide.AllIframes();
      arrival := TriggerOnSlideChangeTransition(allIframes);
    }
  }

  /** A slide change replays last states or runs arrival steps, never both:
      replay needs replay switched on and backward navigation, arrival steps
      need forward navigation. */
  lemma SlideChangeExclusive(frames: seq<Frame>, fragments: seq<Fragment>, current: Indices, previous: Indices,
                             runLastState: bool)
    ensures var back := IsNavigationBack(current, previous);
      var replayed := if runLastState && back && |Markers(fragments)| > 0
        then FiredAll(frames, JsMax(IndicesOf(Markers(fragments))), Forward) else [];
      var arrival := if back then [] else OnSlideChangeFired(frames);
      && (replayed != [] ==> runLastState && back && arrival == [])
      && (arrival != [] ==> !back && replayed == [])
      && (current == previous ==> replayed == [])
  {
  }
}
