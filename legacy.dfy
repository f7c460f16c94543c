/**
 * The older variant of the plugin (`reveald3.js` at the top of the
 * repository): its reconciler, which skips undefined step lists, its load
 * handler, the container lookup, the last-state replay armed on slide
 * change, and the teardown of the previous slide's iframes.
 */
module LegacyReveald3 {
  import opened Base
  import opened Steps
  import opened Dom
  import opened Playback
  import opened Reconciler
  import opened Collector
  import opened Styles
  import opened Options

  // ---------------------------------------------------------------------
  // The step lists of a slide
  // ---------------------------------------------------------------------

  /** The `_transitions` of every iframe, in order (lines 357-363); an
      iframe whose document does not define them contributes `undefined`. */
  function TransitionsOf(nodeList: seq<Frame>): (r: seq<Option<seq<Step>>>)
    ensures |r| == |nodeList|
    ensures forall i | 0 <= i < |nodeList| :: r[i] == nodeList[i].transitions
  {
    seq(|nodeList|, i requires 0 <= i < |nodeList| => nodeList[i].transitions)
  }

  /** The loop of lines 357-363. */
  method CollectTransitions(nodeList: seq<Frame>) returns (allVisualizationSteps: seq<Option<seq<Step>>>)
    ensures allVisualizationSteps == TransitionsOf(nodeList)
  {
    allVisualizationSteps := [];
    for i := 0 to |nodeList|
      invariant |allVisualizationSteps| == i
      invariant forall k | 0 <= k < i :: allVisualizationSteps[k] == nodeList[k].transitions
    {
      allVisualizationSteps := allVisualizationSteps + [nodeList[i].transitions];
    }
  }

  // ---------------------------------------------------------------------
  // The reconciler of the older variant
  // ---------------------------------------------------------------------

  /** The defined step lists, in order: the first loop of the reconciler
      (lines 194-212) skips an undefined list and keeps an empty one, which
      is truthy. */
  function DefinedLists(all: seq<Option<seq<Step>>>): (r: seq<seq<Step>>)
    ensures |r| <= |all|
  {
    if |all| == 0 then []
    else DefinedLists(all[..|all| - 1]) + (if all[|all| - 1].Some? then [all[|all| - 1].value] else [])
  }

  /** The positions at which the pairing loop (lines 246-263) builds a table:
      the step list there is defined and `allVisualizationIndices` has an
      entry there, of which there are `n`. */
  function PairedPositions(all: seq<Option<seq<Step>>>, n: nat): (r: seq<nat>)
    ensures forall k | 0 <= k < |r| :: r[k] < |all| && r[k] < n && all[r[k]].Some?
  {
    if |all| == 0 then []
    else
      var init := all[..|all| - 1];
      var rest := PairedPositions(init, n);
      assert forall k | 0 <= k < |rest| :: all[rest[k]] == init[rest[k]];
      rest + (if all[|all| - 1].Some? && |all| - 1 < n then [|all| - 1] else [])
  }

  /** The keys under which the pairing loop stores the steps `steps`, paired
      with the index list `indices`: the remapped indices, one per step while
      the list lasts (a step past its end goes under the key "undefined",
      which no numeric lookup reaches). */
  function PairedKeys(steps: seq<Step>, indices: seq<int>, u: set<int>, m: int): (r: seq<int>)
    ensures |r| == Min(|indices|, |steps|) && |r| <= |steps|
    ensures forall j | 0 <= j < |r| :: r[j] == Remap(u, m, indices[j])
  {
    RemappedKeys(indices[..Min(|indices|, |steps|)], u, m)
  }

  /** What the older reconciler promises for the collected step lists `all`
      of a slide with `m` authored indices: one table per paired position,
      in order, holding the steps at that position under the remapped indices
      of the defined list with the same rank; the marker indices as in the
      current plugin, taken over the defined lists. */
  predicate LegacyReconciled(all: seq<Option<seq<Step>>>, m: nat, tables: seq<ActionTable>, spansToCreate: seq<int>)
  {
    var lists := AllLocalIndices(DefinedLists(all));
    var u := UnionOf(lists);
    var paired := PairedPositions(all, |lists|);
    && |tables| == |paired|
    && (forall k | 0 <= k < |tables| ::
          IsActionTable(tables[k], all[paired[k]].value, PairedKeys(all[paired[k]].value, lists[paired[k]], u, m)))
    && StrictlyIncreasing(spansToCreate)
    && Elements(spansToCreate) == MarkerSet(u, m)
  }

  /** The first loop of the reconciler (lines 194-212). */
  method LegacyAssignAllLocalIndices(allVisualizationSteps: seq<Option<seq<Step>>>)
    returns (allVisualizationIndices: seq<seq<int>>)
    ensures allVisualizationIndices == AllLocalIndices(DefinedLists(allVisualizationSteps))
  {
    allVisualizationIndices := [];
    for i := 0 to |allVisualizationSteps|
      invariant |allVisualizationIndices| == |DefinedLists(allVisualizationSteps[..i])|
      invariant forall k | 0 <= k < |allVisualizationIndices| ::
        allVisualizationIndices[k] == LocalIndices(DefinedLists(allVisualizationSteps[..i])[k])
    {
      assert allVisualizationSteps[..i + 1][..i] == allVisualizationSteps[..i];
      if allVisualizationSteps[i].Some? {
        var visualizationIndices := AssignLocalIndices(allVisualizationSteps[i].value);
        allVisualizationIndices := allVisualizationIndices + [visualizationIndices];
      }
    }
    assert allVisualizationSteps[..|allVisualizationSteps|] == allVisualizationSteps;
  }

  /** One round of the pairing loop: the steps `steps` stored under the
      remapped entries of list `i`. */
  method BuildPairedTable(steps: seq<Step>, lists: seq<seq<int>>, i: nat, hash: map<int, int>, m: nat)
    returns (t: ActionTable)
    requires i < |lists|
    requires hash.Keys == UnionOf(lists)
    requires forall d | d in hash :: hash[d] == Remap(UnionOf(lists), m, d)
    ensures IsActionTable(t, steps, PairedKeys(steps, lists[i], UnionOf(lists), m))
  {
    var indices := lists[i];
    UnionContains(lists, i);
    assert forall j | 0 <= j < |indices| :: indices[j] in Elements(indices);
    t := BuildActionTable(steps, indices, hash);
    ghost var n := Min(|indices|, |steps|);
    assert seq(n, j requires 0 <= j < n => hash[indices[j]]) == PairedKeys(steps, indices, UnionOf(lists), m);
  }

  /** The pairing loop (lines 246-263): a table for every position whose step
      list is defined and whose index list exists, the index list taken by
      position among the defined lists only. */
  method BuildPairedTables(all: seq<Option<seq<Step>>>, lists: seq<seq<int>>, hash: map<int, int>, m: nat)
    returns (tables: seq<ActionTable>)
    requires hash.Keys == UnionOf(lists)
    requires forall d | d in hash :: hash[d] == Remap(UnionOf(lists), m, d)
    ensures var paired := PairedPositions(all, |lists|);
      && |tables| == |paired|
      && forall k | 0 <= k < |tables| ::
           IsActionTable(tables[k], all[paired[k]].value, PairedKeys(all[paired[k]].value, lists[paired[k]], UnionOf(lists), m))
  {
    tables := [];
    for i := 0 to |all|
      invariant var paired := PairedPositions(all[..i], |lists|);
        && |tables| == |paired|
        && forall k | 0 <= k < |tables| ::
             paired[k] < i && all[paired[k]].Some? && paired[k] < |lists| &&
             IsActionTable(tables[k], all[paired[k]].value, PairedKeys(all[paired[k]].value, lists[paired[k]], UnionOf(lists), m))
    {
      assert all[..i + 1][..i] == all[..i];
      ghost var before := PairedPositions(all[..i], |lists|);
      assert forall k | 0 <= k < |before| :: all[..i][before[k]] == all[before[k]];
      if all[i].Some? && i < |lists| {
        var t := BuildPairedTable(all[i].value, lists, i, hash, m);
        tables := tables + [t];
      }
    }
    assert all[..|all|] == all;
  }

  /** `generateVisualizationStepsIndices` of the older variant (lines 191-267). */
  method LegacyGenerateVisualizationStepsIndices(allVisualizationSteps: seq<Option<seq<Step>>>, nSlideFragmentSteps: nat)
    returns (tables: seq<ActionTable>, spansToCreate: seq<int>)
    ensures LegacyReconciled(allVisualizationSteps, nSlideFragmentSteps, tables, spansToCreate)
  {
    var allVisualizationIndices := LegacyAssignAllLocalIndices(allVisualizationSteps);
    var hash;
    hash, spansToCreate := RemapIndices(allVisualizationIndices, nSlideFragmentSteps);
    tables := BuildPairedTables(allVisualizationSteps, allVisualizationIndices, hash, nSlideFragmentSteps);
  }

  /** With every step list defined, the older reconciler agrees with the
      current one: the defined lists are all the lists, every position is
      paired with its own index list, and the promises coincide. */
  lemma {:induction false} AllDefinedAligned(all: seq<Option<seq<Step>>>)
    requires forall i | 0 <= i < |all| :: all[i].Some?
    ensures |DefinedLists(all)| == |all|
    ensures forall i | 0 <= i < |all| :: DefinedLists(all)[i] == all[i].value
    ensures |PairedPositions(all, |all|)| == |all|
    ensures forall k | 0 <= k < |all| :: PairedPositions(all, |all|)[k] == k
  {
    if |all| > 0 {
      var init := all[..|all| - 1];
      AllDefinedAligned(init);
      PairedPrefix(all, |all|);
    }
  }

  /** Positions paired among a prefix stay paired with a larger bound. */
  lemma {:induction false} PairedPrefix(all: seq<Option<seq<Step>>>, n: nat)
    requires |all| > 0 && |all| <= n
    ensures PairedPositions(all[..|all| - 1], n) == PairedPositions(all[..|all| - 1], |all| - 1)
  {
    PairedBound(all[..|all| - 1], n, |all| - 1);
  }

  /** The bound on the index lists matters only below it. */
  lemma {:induction false} PairedBound(all: seq<Option<seq<Step>>>, n: nat, n': nat)
    requires |all| <= n && |all| <= n'
    ensures PairedPositions(all, n) == PairedPositions(all, n')
  {
    if |all| > 0 {
      PairedBound(all[..|all| - 1], n, n');
    }
  }

  /** A list paired with its own index list keeps one key per step. */
  lemma OwnKeys(steps: seq<Step>, u: set<int>, m: int)
    ensures PairedKeys(steps, LocalIndices(steps), u, m) == RemappedKeys(LocalIndices(steps), u, m)
  {
    assert LocalIndices(steps)[..|steps|] == LocalIndices(steps);
  }

  /** The consequence: with every step list defined, the older variant's
      promise is exactly the current plugin's. */
  lemma LegacyAgreesWhenAllDefined(all: seq<Option<seq<Step>>>, m: nat, tables: seq<ActionTable>, spansToCreate: seq<int>)
    requires forall i | 0 <= i < |all| :: all[i].Some?
    ensures LegacyReconciled(all, m, tables, spansToCreate) <==> Reconciled(DefinedLists(all), m, tables, spansToCreate)
  {
    AllDefinedAligned(all);
    var defined := DefinedLists(all);
    var lists := AllLocalIndices(defined);
    var u := UnionOf(lists);
    forall k | 0 <= k < |all|
      ensures PairedKeys(all[k].value, lists[k], u, m) == RemappedKeys(LocalIndices(defined[k]), u, m)
    {
      OwnKeys(all[k].value, u, m);
    }
  }

  /** An undefined step list before a defined one: the defined one's indices
      still produce marker spans, but no table is built at all, so none of its
      steps can ever be triggered. */
  lemma UndefinedFirstLosesTable(a: seq<Step>, m: nat, tables: seq<ActionTable>, spansToCreate: seq<int>)
    requires |a| > 0
    requires LegacyReconciled([None, Some(a)], m, tables, spansToCreate)
    ensures tables == []
    ensures |spansToCreate| > 0
  {
    var all := [None, Some(a)];
    assert all[..1] == [None];
    var none: seq<Option<seq<Step>>> := [None];
    assert none[..0] == [];
    assert DefinedLists(all) == [a];
    assert PairedPositions([None], 1) == [];
    assert PairedPositions(all, 1) == [];
    var lists := AllLocalIndices([a]);
    var u := UnionOf(lists);
    var d := lists[0][0];
    assert lists == [lists[0]];
    assert lists[..0] == [];
    assert UnionOf(lists) == UnionOf(lists[..0]) + Elements(lists[0]);
    assert d in Elements(lists[0]);
    assert u == Elements(lists[0]);
    if d < m {
      assert d in Kept(u, m);
    } else {
      assert d in Overflow(u, m);
      assert m in Interval(m, m + |Overflow(u, m)|);
    }
  }

  /** An undefined step list before two defined ones: the only table is
      built from the first defined list's steps, paired with the second one's
      indices. */
  lemma UndefinedFirstShiftsIndices(a: seq<Step>, b: seq<Step>)
    ensures var all := [None, Some(a), Some(b)];
      && DefinedLists(all) == [a, b]
      && PairedPositions(all, 2) == [1]
  {
    var all := [None, Some(a), Some(b)];
    assert all[..2] == [None, Some(a)];
    assert all[..2][..1] == [None];
    var none: seq<Option<seq<Step>>> := [None];
    assert none[..0] == [];
    assert DefinedLists([None]) == [];
    assert DefinedLists([None, Some(a)]) == [a];
    assert PairedPositions([None], 2) == [];
    assert PairedPositions([None, Some(a)], 2) == [1];
  }

  // ---------------------------------------------------------------------
  // The load handler
  // ---------------------------------------------------------------------

  /** The `load` handler of an iframe of the older variant (lines 340-389):
      the step lists of all the slide's iframes are reconciled, table `i` is
      stored on iframe `i` (and none past the last table), and the marker
      spans get the slide fragment indices, without the `visible` class. */
  method LegacyOnLoad(slide: Slide, slideFragmentSteps: nat)
    returns (tables: seq<ActionTable>, spansToCreate: seq<int>)
    requires NoDuplicates(slide.AllIframes())
    modifies slide, set f | f in slide.AllIframes()
    ensures slide.foreground == old(slide.foreground) && slide.background == old(slide.background)
    ensures LegacyReconciled(TransitionsOf(old(slide.AllIframes())), slideFragmentSteps, tables, spansToCreate)
    ensures TablesStored(old(slide.AllIframes()), tables)
    ensures slide.fragments == WrittenBack(old(slide.fragments), spansToCreate, false)
  {
    var nodeList := slide.AllIframes();
    var allVisualizationSteps := CollectTransitions(nodeList);
    tables, spansToCreate := LegacyGenerateVisualizationStepsIndices(allVisualizationSteps, slideFragmentSteps);
    AssignTables(nodeList, tables);
    slide.WriteBackMarkers(spansToCreate, false);
  }

  // ---------------------------------------------------------------------
  // Containers and the slide change
  // ---------------------------------------------------------------------

  /** An element that may host a visualization: its class attribute,
      whether an iframe is already inside it, the matches the `data-style`
      parser finds in it, its `data-file`, and the `_transitions` of the
      visualization that file loads. */
  datatype Element = Element(className: string, hasIframe: bool, styleMatches: Entries,
                             file: string, content: Option<seq<Step>>)

  /** The containers of a slide: the slide itself when its class attribute
      contains `fig-container`, then the inner `.fig-container` elements in
      document order. */
  function Containers(slide: Element, innerContainers: seq<Element>): seq<Element>
  {
    (if Contains(slide.className, "fig-container") then [slide] else []) + innerContainers
  }

  /** `getAllContainers` (lines 128-137). */
  method GetAllContainers(slide: Element, innerContainers: seq<Element>) returns (allContainers: seq<Element>)
    ensures allContainers == Containers(slide, innerContainers)
  {
    allContainers := if Contains(slide.className, "fig-container") then [slide] else [];
    ghost var first := allContainers;
    if |innerContainers| > 0 {
      for i := 0 to |innerContainers|
        invariant allContainers == first + innerContainers[..i]
      {
        allContainers := allContainers + [innerContainers[i]];
      }
    }
    assert innerContainers[..|innerContainers|] == innerContainers;
  }

  /** The slide leads the container list exactly when it is a container
      itself, the inner containers follow in order, and the list is empty
      only when there is neither. */
  lemma ContainersSpec(slide: Element, innerContainers: seq<Element>)
    ensures var c := Containers(slide, innerContainers);
      var offset := if Contains(slide.className, "fig-container") then 1 else 0;
      && |c| == offset + |innerContainers|
      && (offset == 1 ==> c[0] == slide)
      && (forall k | 0 <= k < |innerContainers| :: c[offset + k] == innerContainers[k])
      && (|c| == 0 <==> !Contains(slide.className, "fig-container") && innerContainers == [])
  {
  }

  // ---------------------------------------------------------------------
  // Creating the visualizations
  // ---------------------------------------------------------------------

  /** The one `defaultStyle` object (lines 151-158) after the containers `cs`
      have been processed in turn: `Object.assign(defaultStyle,
      inputtedStyle)` (line 172) writes each container's style into that
      object and passes the same object on. */
  function SharedStyle(cs: seq<Element>): Entries
  {
    if |cs| == 0 then LegacyDefaultStyle
    else Assign(SharedStyle(cs[..|cs| - 1]), Assign([], cs[|cs| - 1].styleMatches))
  }

  /** The style objects the containers `cs` are initialised with, in order. */
  function SharedStyles(cs: seq<Element>): seq<Entries>
  {
    if |cs| == 0 then [] else SharedStyles(cs[..|cs| - 1]) + [SharedStyle(cs)]
  }

  lemma {:induction false} SharedStylesAt(cs: seq<Element>)
    ensures |SharedStyles(cs)| == |cs|
    ensures forall i | 0 <= i < |cs| :: SharedStyles(cs)[i] == SharedStyle(cs[..i + 1])
  {
    if |cs| > 0 {
      var init := cs[..|cs| - 1];
      SharedStylesAt(init);
      forall i | 0 <= i < |init| ensures SharedStyles(cs)[i] == SharedStyle(cs[..i + 1]) {
        assert init[..i + 1] == cs[..i + 1];
      }
      assert cs[..|cs|] == cs;
    }
  }

  lemma SharedStyleSnoc(cs: seq<Element>, i: nat)
    requires i < |cs|
    ensures SharedStyle(cs[..i + 1]) == Assign(SharedStyle(cs[..i]), Assign([], cs[i].styleMatches))
    ensures SharedStyles(cs[..i + 1]) == SharedStyles(cs[..i]) + [SharedStyle(cs[..i + 1])]
  {
    assert cs[..i + 1][..i] == cs[..i];
  }

  /** One more container: its own style wins on the keys it sets, the
      earlier shared style holds elsewhere, and keys stay distinct. */
  lemma {:induction false} SharedStyleStep(cs: seq<Element>, k: string)
    requires |cs| > 0
    ensures NoDuplicates(Keys(SharedStyle(cs)))
    ensures Get(SharedStyle(cs), k) == if GetLast(cs[|cs| - 1].styleMatches, k).Some?
      then GetLast(cs[|cs| - 1].styleMatches, k) else Get(SharedStyle(cs[..|cs| - 1]), k)
  {
    var init := cs[..|cs| - 1];
    if |init| == 0 {
      DefaultStyles();
    } else {
      SharedStyleStep(init, k);
    }
    FromMatches(cs[|cs| - 1].styleMatches, k);
    IframeStyleSpec(SharedStyle(init), Assign([], cs[|cs| - 1].styleMatches), k);
  }

  /** A key that container `i`'s `data-style` sets keeps that value in the
      style of every later container that does not set it: one container's
      style leaks into the ones after it. */
  lemma {:induction false} StyleLeaks(cs: seq<Element>, i: nat, j: nat, k: string)
    requires i <= j < |cs|
    requires GetLast(cs[i].styleMatches, k).Some?
    requires forall l | i < l <= j :: GetLast(cs[l].styleMatches, k).None?
    ensures Get(SharedStyle(cs[..j + 1]), k) == GetLast(cs[i].styleMatches, k)
    decreases j
  {
    var p := cs[..j + 1];
    SharedStyleStep(p, k);
    assert p[|p| - 1] == cs[j];
    if j > i {
      assert p[..|p| - 1] == cs[..j];
      StyleLeaks(cs, i, j - 1, k);
    }
  }

  /** `width: 50%` on the first container also narrows a second container
      that sets no width. */
  lemma WidthLeaks(first: Element, second: Element)
    requires first.styleMatches == [("width", "50%")] && second.styleMatches == []
    ensures Get(SharedStyle([first, second]), "width") == Some("50%")
  {
    var cs := [first, second];
    assert GetLast(first.styleMatches, "width") == Some("50%");
    StyleLeaks(cs, 0, 1, "width");
    assert cs[..2] == cs;
  }

  /** The containers that hold no iframe yet, in order. */
  function Pending(cs: seq<Element>): seq<Element>
  {
    if |cs| == 0 then []
    else Pending(cs[..|cs| - 1]) + (if cs[|cs| - 1].hasIframe then [] else [cs[|cs| - 1]])
  }

  /** `frames` are the iframes created for the containers `cs`: one per
      container without an iframe, in order, each of class
      `iframe-visualization` and loading that container's visualization. */
  predicate CreatedFor(frames: seq<Frame>, cs: seq<Element>)
  {
    && |frames| == |Pending(cs)|
    && forall k | 0 <= k < |frames| ::
         frames[k].classes == [VizClass] && frames[k].transitions == Pending(cs)[k].content
  }

  lemma CreatedStep(frames: seq<Frame>, cs: seq<Element>, c: Element, added: seq<Frame>)
    requires CreatedFor(frames, cs)
    requires c.hasIframe ==> added == []
    requires !c.hasIframe ==> |added| == 1 && added[0].classes == [VizClass] && added[0].transitions == c.content
    ensures CreatedFor(frames + added, cs + [c])
  {
    assert (cs + [c])[..|cs|] == cs;
  }

  /** The slide's iframes `fg`, `bg` after `initializeAllVisualizations`,
      from `fg0`, `bg0` before: the slide as a container gets a background
      iframe when its background has none, and the inner containers' new
      iframes follow the slide's existing ones. */
  predicate Initialized(slide: Element, innerContainers: seq<Element>, fg0: seq<Frame>, bg0: seq<Frame>,
                        fg: seq<Frame>, bg: seq<Frame>)
  {
    && |fg0| <= |fg| && fg[..|fg0|] == fg0
    && CreatedFor(fg[|fg0|..], innerContainers)
    && (if Contains(slide.className, "fig-container") && bg0 == [] then
          |bg| == 1 && bg[0].classes == [VizClass] && bg[0].transitions == slide.content
        else bg == bg0)
  }

  /** Every iframe the initialisation creates is one `getAllIframes` finds. */
  lemma CreatedAreFound(slide: Element, innerContainers: seq<Element>, fg0: seq<Frame>, bg0: seq<Frame>,
                        fg: seq<Frame>, bg: seq<Frame>)
    requires Initialized(slide, innerContainers, fg0, bg0, fg, bg)
    ensures forall k | |fg0| <= k < |fg| :: fg[k] in VizFrames(fg)
    ensures Contains(slide.className, "fig-container") && bg0 == [] ==> bg[0] in VizFrames(bg)
  {
    forall k | |fg0| <= k < |fg| ensures fg[k] in VizFrames(fg) {
      assert fg[k] == fg[|fg0|..][k - |fg0|];
      VizClassIsViz(fg[k]);
    }
    if Contains(slide.className, "fig-container") && bg0 == [] {
      VizClassIsViz(bg[0]);
    }
  }

  /** One call of `initialize` (lines 304-337) on the slide's iframes,
      from `fg1`, `bg1` to `fg2`, `bg2`: nothing when the container already
      holds an iframe, otherwise a new `iframe-visualization` inside it. The
      container of the slide itself is the slide's background. */
  predicate InitStep(container: Element, isSection: bool, fg1: seq<Frame>, bg1: seq<Frame>,
                     fg2: seq<Frame>, bg2: seq<Frame>)
  {
    if isSection then
      && fg2 == fg1
      && (if bg1 == [] then |bg2| == 1 && bg2[0].classes == [VizClass] && bg2[0].transitions == container.content
          else bg2 == bg1)
    else
      && bg2 == bg1
      && (if container.hasIframe then fg2 == fg1
          else
            && |fg2| == |fg1| + 1 && fg2[..|fg1|] == fg1
            && fg2[|fg1|].classes == [VizClass] && fg2[|fg1|].transitions == container.content)
  }

  /** The iframes after the first `i` containers have been initialised. */
  predicate Progress(slide: Element, innerContainers: seq<Element>, i: nat, fg0: seq<Frame>, bg0: seq<Frame>,
                     fg: seq<Frame>, bg: seq<Frame>)
  {
    var offset := if Contains(slide.className, "fig-container") then 1 else 0;
    && i <= offset + |innerContainers|
    && |fg0| <= |fg| && fg[..|fg0|] == fg0
    && CreatedFor(fg[|fg0|..], innerContainers[..if i <= offset then 0 else i - offset])
    && (if offset == 1 && i >= 1 && bg0 == [] then
          |bg| == 1 && bg[0].classes == [VizClass] && bg[0].transitions == slide.content
        else bg == bg0)
  }

  /** An inner container's step extends the created iframes by its own. */
  lemma CreatedExtend(c: Element, innerContainers: seq<Element>, j: nat, fg0: seq<Frame>, fg1: seq<Frame>,
                      fg2: seq<Frame>, bg: seq<Frame>)
    requires j < |innerContainers| && c == innerContainers[j]
    requires |fg0| <= |fg1| && fg1[..|fg0|] == fg0 && CreatedFor(fg1[|fg0|..], innerContainers[..j])
    requires InitStep(c, false, fg1, bg, fg2, bg)
    ensures |fg0| <= |fg2| && fg2[..|fg0|] == fg0 && CreatedFor(fg2[|fg0|..], innerContainers[..j + 1])
  {
    assert innerContainers[..j + 1] == innerContainers[..j] + [c];
    if c.hasIframe {
      assert fg2[|fg0|..] == fg1[|fg0|..] + [];
    } else {
      assert fg2[..|fg1|][..|fg0|] == fg2[..|fg0|];
      assert fg2[|fg0|..] == fg1[|fg0|..] + [fg2[|fg1|]];
    }
    CreatedStep(fg1[|fg0|..], innerContainers[..j], c, fg2[|fg0|..][|fg1| - |fg0|..]);
  }

  lemma ProgressStep(slide: Element, innerContainers: seq<Element>, i: nat, fg0: seq<Frame>, bg0: seq<Frame>,
                     fg1: seq<Frame>, bg1: seq<Frame>, fg2: seq<Frame>, bg2: seq<Frame>)
    requires i < |Containers(slide, innerContainers)|
    requires Progress(slide, innerContainers, i, fg0, bg0, fg1, bg1)
    requires InitStep(Containers(slide, innerContainers)[i],
                      i < (if Contains(slide.className, "fig-container") then 1 else 0), fg1, bg1, fg2, bg2)
    ensures Progress(slide, innerContainers, i + 1, fg0, bg0, fg2, bg2)
  {
    ContainersSpec(slide, innerContainers);
    var offset := if Contains(slide.className, "fig-container") then 1 else 0;
    if i < offset {
      assert fg1[|fg0|..] == [];
      assert fg1 == fg1[..|fg0|] + fg1[|fg0|..];
    } else {
      CreatedExtend(innerContainers[i - offset], innerContainers, i - offset, fg0, fg1, fg2, bg1);
    }
  }

  lemma ProgressDone(slide: Element, innerContainers: seq<Element>, fg0: seq<Frame>, bg0: seq<Frame>,
                     fg: seq<Frame>, bg: seq<Frame>)
    requires Progress(slide, innerContainers, |Containers(slide, innerContainers)|, fg0, bg0, fg, bg)
    ensures Initialized(slide, innerContainers, fg0, bg0, fg, bg)
  {
    ContainersSpec(slide, innerContainers);
    assert innerContainers[..|innerContainers|] == innerContainers;
  }

  /** A container of the slide receives an iframe: the slide itself when
      its background has none, an inner container when it holds none. */
  predicate Receives(container: Element, isSection: bool, bg: seq<Frame>)
  {
    if isSection then bg == [] else !container.hasIframe
  }

  /** `initialize` (lines 304-337) on the slide: the step above, with the new
      iframe freshly allocated, and the attribute object it is given, whose
      style is `iframeStyle` serialised at that moment. */
  method Initialize(currentSlide: Slide, container: Element, isSection: bool, options: LegacyOptions,
                    iframeStyle: Entries)
    returns (iframeConfig: Option<Entries>)
    modifies currentSlide
    ensures currentSlide.fragments == old(currentSlide.fragments)
    ensures InitStep(container, isSection, old(currentSlide.foreground), old(currentSlide.background),
                     currentSlide.foreground, currentSlide.background)
    ensures |currentSlide.foreground| > |old(currentSlide.foreground)| ==>
      fresh(currentSlide.foreground[|old(currentSlide.foreground)|])
    ensures currentSlide.background != old(currentSlide.background) ==> fresh(currentSlide.background[0])
    ensures iframeConfig.Some? <==> Receives(container, isSection, old(currentSlide.background))
    ensures iframeConfig.Some? ==> iframeConfig.value == LegacyIframeConfig(Serialize(iframeStyle), container.file)
  {
    iframeConfig := None;
    if !Receives(container, isSection, currentSlide.background) {
      return;
    }
    var filePath := LegacyFilePath(options, container.file);
    var styles := Serialize(iframeStyle);
    iframeConfig := Some(LegacyIframeConfig(styles, filePath));
    var iframe := new Frame([VizClass], container.content);
    if isSection {
      currentSlide.background := [iframe];
    } else {
      currentSlide.foreground := currentSlide.foreground + [iframe];
    }
  }

  /** One pass of the loop of lines 160-175: the container's `data-style`
      matches become an object that is merged into the shared style, and the
      container is initialised with the merged object. */
  method InitializeContainer(currentSlide: Slide, options: LegacyOptions, defaultStyle: Entries,
                             container: Element, isSection: bool)
    returns (iframeStyle: Entries, iframeConfig: Option<Entries>)
    modifies currentSlide
    ensures iframeStyle == Assign(defaultStyle, Assign([], container.styleMatches))
    ensures iframeConfig.Some? <==> Receives(container, isSection, old(currentSlide.background))
    ensures iframeConfig.Some? ==> iframeConfig.value == LegacyIframeConfig(Serialize(iframeStyle), container.file)
    ensures currentSlide.fragments == old(currentSlide.fragments)
    ensures InitStep(container, isSection, old(currentSlide.foreground), old(currentSlide.background),
                     currentSlide.foreground, currentSlide.background)
    ensures |currentSlide.foreground| > |old(currentSlide.foreground)| ==>
      fresh(currentSlide.foreground[|old(currentSlide.foreground)|])
    ensures currentSlide.background != old(currentSlide.background) ==> fresh(currentSlide.background[0])
  {
    var inputtedStyle := InputtedStyle(container.styleMatches);
    iframeStyle := IframeStyle(defaultStyle, inputtedStyle);
    iframeConfig := Initialize(currentSlide, container, isSection, options, iframeStyle);
  }

  /** `configs` are the attribute objects given to the iframes created for
      the containers `cs` styled with `styles`: one for each container that
      receives an iframe, with that container's file and its style serialised. */
  predicate ConfiguredFor(configs: seq<Option<Entries>>, styles: seq<Entries>, cs: seq<Element>,
                          offset: nat, bg0: seq<Frame>)
  {
    && |configs| == |cs| && |styles| == |cs|
    && forall i | 0 <= i < |cs| ::
         && (configs[i].Some? <==> Receives(cs[i], i < offset, bg0))
         && (configs[i].Some? ==> configs[i].value == LegacyIframeConfig(Serialize(styles[i]), cs[i].file))
  }

  lemma ConfiguredStep(configs: seq<Option<Entries>>, styles: seq<Entries>, cs: seq<Element>, offset: nat,
                       bg0: seq<Frame>, c: Element, style: Entries, config: Option<Entries>)
    requires ConfiguredFor(configs, styles, cs, offset, bg0)
    requires config.Some? <==> Receives(c, |cs| < offset, bg0)
    requires config.Some? ==> config.value == LegacyIframeConfig(Serialize(style), c.file)
    ensures ConfiguredFor(configs + [config], styles + [style], cs + [c], offset, bg0)
  {
  }

  /** `initializeAllVisualizations` (lines 149-176): every container's
      `data-style` is merged into the one shared style object, which the
      container is initialised with, and every container without an iframe
      gets one. */
  method InitializeAllVisualizations(currentSlide: Slide, options: LegacyOptions, slide: Element,
                                     innerContainers: seq<Element>)
    returns (iframeStyles: seq<Entries>, iframeConfigs: seq<Option<Entries>>)
    modifies currentSlide
    ensures var cs := Containers(slide, innerContainers);
      |iframeStyles| == |cs| && forall i | 0 <= i < |cs| :: iframeStyles[i] == SharedStyle(cs[..i + 1])
    ensures ConfiguredFor(iframeConfigs, iframeStyles, Containers(slide, innerContainers),
                          if Contains(slide.className, "fig-container") then 1 else 0,
                          old(currentSlide.background))
    ensures currentSlide.fragments == old(currentSlide.fragments)
    ensures Initialized(slide, innerContainers, old(currentSlide.foreground), old(currentSlide.background),
                        currentSlide.foreground, currentSlide.background)
  {
    var containerList := GetAllContainers(slide, innerContainers);
    var offset := if Contains(slide.className, "fig-container") then 1 else 0;
    ghost var fg0, bg0 := currentSlide.foreground, currentSlide.background;
    var defaultStyle := LegacyDefaultStyle;
    iframeStyles, iframeConfigs := [], [];
    for i := 0 to |containerList|
      invariant defaultStyle == SharedStyle(containerList[..i])
      invariant iframeStyles == SharedStyles(containerList[..i])
      invariant ConfiguredFor(iframeConfigs, iframeStyles, containerList[..i], offset, bg0)
      invariant currentSlide.fragments == old(currentSlide.fragments)
      invariant Progress(slide, innerContainers, i, fg0, bg0, currentSlide.foreground, currentSlide.background)
    {
      ghost var fg1, bg1 := currentSlide.foreground, currentSlide.background;
      var iframeConfig;
      defaultStyle, iframeConfig := InitializeContainer(currentSlide, options, defaultStyle, containerList[i], i < offset);
      SharedStyleSnoc(containerList, i);
      ConfiguredStep(iframeConfigs, iframeStyles, containerList[..i], offset, bg0, containerList[i],
                     defaultStyle, iframeConfig);
      assert containerList[..i + 1] == containerList[..i] + [containerList[i]];
      iframeStyles, iframeConfigs := iframeStyles + [defaultStyle], iframeConfigs + [iframeConfig];
      ProgressStep(slide, innerContainers, i, fg0, bg0, fg1, bg1, currentSlide.foreground, currentSlide.background);
    }
    ProgressDone(slide, innerContainers, fg0, bg0, currentSlide.foreground, currentSlide.background);
    assert containerList[..|containerList|] == containerList;
    SharedStylesAt(containerList);
  }

  /** `triggerLastState` of the older variant (lines 104-126): on backward
      navigation to a slide that has marker spans, every visualization iframe
      of the slide gets a load listener that fires, forward on all of them,
      the highest marker index. Returned are the iframes so armed and the
      index they will fire. */
  method LegacyTriggerLastState(currentSlide: Slide, current: Indices, previous: Indices)
    returns (armed: seq<Frame>, step: Option<int>)
    ensures var back := IsNavigationBack(current, previous);
      var markers := Markers(currentSlide.fragments);
      && (back && |markers| > 0 ==> armed == currentSlide.AllIframes() && step == JsMax(IndicesOf(markers)))
      && (!(back && |markers| > 0) ==> armed == [] && step == None)
  {
    armed, step := [], None;
    if (current.h < previous.h) || current.v < previous.v {
      var allFragments := Markers(currentSlide.fragments);
      if |allFragments| == 0 {
        return;
      }
      var allFragmentsIndices := [];
      for i := 0 to |allFragments|
        invariant allFragmentsIndices == IndicesOf(allFragments[..i])
      {
        allFragmentsIndices := allFragmentsIndices + [allFragments[i].index];
      }
      assert allFragments[..|allFragments|] == allFragments;
      var allIframes := currentSlide.AllIframes();
      for i := 0 to |allIframes|
        invariant armed == allIframes[..i]
      {
        armed := armed + [allIframes[i]];
      }
      assert allIframes[..|allIframes|] == allIframes;
      step := JsMax(allFragmentsIndices);
    }
  }

  /** A load of an iframe armed by `triggerLastState` (`replay` is the index
      it fires): the load handler of lines 340-389 runs first, then the replay
      listener fires the index forward on every iframe of the slide, with the
      tables just stored. */
  method LegacyIframeLoaded(slide: Slide, slideFragmentSteps: nat, replay: Option<Option<int>>)
    returns (tables: seq<ActionTable>, spansToCreate: seq<int>, fired: Trace)
    requires NoDuplicates(slide.AllIframes())
    modifies slide, set f | f in slide.AllIframes()
    ensures slide.foreground == old(slide.foreground) && slide.background == old(slide.background)
    ensures LegacyReconciled(TransitionsOf(old(slide.AllIframes())), slideFragmentSteps, tables, spansToCreate)
    ensures TablesStored(old(slide.AllIframes()), tables)
    ensures slide.fragments == WrittenBack(old(slide.fragments), spansToCreate, false)
    ensures fired == (if replay.Some? then FiredAll(old(slide.AllIframes()), replay.value, Forward) else [])
  {
    tables, spansToCreate := LegacyOnLoad(slide, slideFragmentSteps);
    fired := [];
    if replay.Some? {
      var allIframes := slide.AllIframes();
      fired := TriggerAllTransitions(allIframes, replay.value, Forward);
    }
  }

  /** `handleSlideVisualizations` (lines 89-102): nothing happens on a slide
      without containers; otherwise the authored fragment indices are
      collected with the older filter, the visualizations are initialised,
      and, when replay is on, the last state is armed on the slide's iframes
      as they are after the initialisation. `slide` is the slide as an
      element, `innerContainers` its `.fig-container` descendants. */
  method HandleSlideVisualizations(currentSlide: Slide, slide: Element, innerContainers: seq<Element>,
                                   options: LegacyOptions, current: Indices, previous: Indices)
    returns (allContainers: seq<Element>, slideFragmentSteps: seq<Option<int>>, iframeStyles: seq<Entries>,
             iframeConfigs: seq<Option<Entries>>, armed: seq<Frame>, step: Option<int>)
    modifies currentSlide
    ensures allContainers == Containers(slide, innerContainers)
    ensures currentSlide.fragments == old(currentSlide.fragments)
    ensures |allContainers| == 0 ==>
      && slideFragmentSteps == [] && iframeStyles == [] && iframeConfigs == [] && armed == [] && step == None
      && currentSlide.foreground == old(currentSlide.foreground)
      && currentSlide.background == old(currentSlide.background)
    ensures |allContainers| > 0 ==>
      && slideFragmentSteps == Dedupe(IndicesOf(Filter(Filter(currentSlide.fragments, IsFragment), LegacyKeeps)))
      && |iframeStyles| == |allContainers|
      && (forall i | 0 <= i < |allContainers| :: iframeStyles[i] == SharedStyle(allContainers[..i + 1]))
      && ConfiguredFor(iframeConfigs, iframeStyles, allContainers,
                       if Contains(slide.className, "fig-container") then 1 else 0, old(currentSlide.background))
    ensures Initialized(slide, innerContainers, old(currentSlide.foreground), old(currentSlide.background),
                        currentSlide.foreground, currentSlide.background)
    ensures var markers := Markers(currentSlide.fragments);
      var replays := options.runLastState && |allContainers| > 0 && IsNavigationBack(current, previous) && |markers| > 0;
      && (replays ==> armed == currentSlide.AllIframes() && step == JsMax(IndicesOf(markers)))
      && (!replays ==> armed == [] && step == None)
    ensures armed != [] ==> forall k | |old(currentSlide.foreground)| <= k < |currentSlide.foreground| ::
      currentSlide.foreground[k] in armed
  {
    slideFragmentSteps, iframeStyles, iframeConfigs, armed, step := [], [], [], [], None;
    allContainers := GetAllContainers(slide, innerContainers);
    if |allContainers| == 0 {
      ContainersSpec(slide, innerContainers);
      assert currentSlide.foreground[|currentSlide.foreground|..] == [];
      return;
    }
    slideFragmentSteps := GetUniqueFragmentIndices(currentSlide.fragments, LegacyKeeps);
    ghost var fg0, bg0 := currentSlide.foreground, currentSlide.background;
    iframeStyles, iframeConfigs := InitializeAllVisualizations(currentSlide, options, slide, innerContainers);
    if options.runLastState {
      armed, step := LegacyTriggerLastState(currentSlide, current, previous);
    }
    CreatedAreFound(slide, innerContainers, fg0, bg0, currentSlide.foreground, currentSlide.background);
  }

  /** The teardown listener (lines 64-86), registered only when the iframes
      are not kept: every recognised iframe of the previous slide, foreground
      and background, is removed, and nothing else. */
  method Teardown(previousSlide: Option<Slide>, keepIframe: bool)
    modifies if previousSlide.Some? then {previousSlide.value} else {}
    ensures previousSlide.Some? && !keepIframe ==>
      && previousSlide.value.foreground == NonVizFrames(old(previousSlide.value.foreground))
      && previousSlide.value.background == NonVizFrames(old(previousSlide.value.background))
      && previousSlide.value.AllIframes() == []
    ensures previousSlide.Some? && keepIframe ==> unchanged(previousSlide.value)
    ensures previousSlide.Some? ==> previousSlide.value.fragments == old(previousSlide.value.fragments)
  {
    if !keepIframe && previousSlide.Some? {
      previousSlide.value.RemoveVizFrames();
      TeardownLeavesNoViz(old(previousSlide.value.foreground));
      TeardownLeavesNoViz(old(previousSlide.value.background));
    }
  }

  /** A list without recognised iframes has none to offer. */
  lemma {:induction false} NoVizLeft(frames: seq<Frame>)
    requires forall i | 0 <= i < |frames| :: !IsViz(frames[i])
    ensures VizFrames(frames) == []
  {
    if |frames| > 0 {
      NoVizLeft(frames[..|frames| - 1]);
    }
  }

  /** No recognised iframe survives the removal. */
  lemma TeardownLeavesNoViz(frames: seq<Frame>)
    ensures VizFrames(NonVizFrames(frames)) == []
  {
    var r := NonVizFrames(frames);
    assert forall i | 0 <= i < |r| :: r[i] in r;
    NoVizLeft(r);
  }

  /** The `slidechanged` handlers of the older variant in registration
      order: `handleSlideVisualizations` on the new slide, then, unless the
      iframes are kept, the teardown of the previous slide. reveal.js fires
      `slidechanged` only when the slide changes, so the two slides differ. */
  method LegacySlideChanged(currentSlide: Slide, slide: Element, innerContainers: seq<Element>,
                            previousSlide: Option<Slide>, current: Indices, previous: Indices,
                            options: LegacyOptions)
    returns (allContainers: seq<Element>, slideFragmentSteps: seq<Option<int>>, armed: seq<Frame>, step: Option<int>)
    requires previousSlide.Some? ==> previousSlide.value != currentSlide
    modifies currentSlide, if previousSlide.Some? then {previousSlide.value} else {}
    ensures allContainers == Containers(slide, innerContainers)
    ensures |allContainers| > 0 ==>
      slideFragmentSteps == Dedupe(IndicesOf(Filter(Filter(old(currentSlide.fragments), IsFragment), LegacyKeeps)))
    ensures Initialized(slide, innerContainers, old(currentSlide.foreground), old(currentSlide.background),
                        currentSlide.foreground, currentSlide.background)
    ensures var markers := Markers(old(currentSlide.fragments));
      var replays := options.runLastState && |allContainers| > 0 && IsNavigationBack(current, previous) && |markers| > 0;
      && (replays ==> armed == currentSlide.AllIframes() && step == JsMax(IndicesOf(markers)))
      && (!replays ==> armed == [] && step == None)
    ensures previousSlide.Some? && !options.keepIframe ==>
      && previousSlide.value.foreground == NonVizFrames(old(previousSlide.value.foreground))
      && previousSlide.value.background == NonVizFrames(old(previousSlide.value.background))
    ensures previousSlide.Some? && options.keepIframe ==> unchanged(previousSlide.value)
  {
    var iframeStyles, iframeConfigs;
    allContainers, slideFragmentSteps, iframeStyles, iframeConfigs, armed, step :=
      HandleSlideVisualizations(currentSlide, slide, innerContainers, options, current, previous);
    Teardown(previousSlide, options.keepIframe);
  }
}
