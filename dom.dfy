/**
 * The parts of the document the plugin reads and changes: fragments with their
 * class lists and `data-fragment-index`, the iframes with the tables the
 * plugin attaches to them, and the slides that hold both.
 */
module Dom {
  import opened Base
  import opened Steps

  const FragmentClass := "fragment"
  const StepClass := "visualizationStep"
  const VisibleClass := "visible"
  const VizClass := "iframe-visualization"

  // ---------------------------------------------------------------------
  // Class names
  // ---------------------------------------------------------------------

  /** The `className` of an element whose class attribute lists `tokens`, one space apart. */
  function Join(tokens: seq<string>): string
  {
    if |tokens| == 0 then ""
    else if |tokens| == 1 then tokens[0]
    else Join(tokens[..|tokens| - 1]) + " " + tokens[|tokens| - 1]
  }

  /** Every class token occurs in the class name. */
  lemma {:induction false} JoinContainsToken(tokens: seq<string>, k: nat)
    requires k < |tokens|
    ensures Contains(Join(tokens), tokens[k])
  {
    var t := tokens[k];
    assert OccursAt(t, t, 0);
    if |tokens| == 1 {
    } else if k == |tokens| - 1 {
      var init := Join(tokens[..|tokens| - 1]);
      ContainsInConcat(init + " ", t, "", t);
      assert init + " " + t + "" == Join(tokens);
    } else {
      var init := tokens[..|tokens| - 1];
      assert init[k] == t;
      JoinContainsToken(init, k);
      ContainsInConcat("", Join(init), " " + tokens[|tokens| - 1], t);
      assert "" + Join(init) + (" " + tokens[|tokens| - 1]) == Join(tokens);
    }
  }

  lemma ContainsToken(tokens: seq<string>, t: string)
    requires t in tokens
    ensures Contains(Join(tokens), t)
  {
    var k :| 0 <= k < |tokens| && tokens[k] == t;
    JoinContainsToken(tokens, k);
  }

  // ---------------------------------------------------------------------
  // Fragments and the visualizationStep spans
  // ---------------------------------------------------------------------

  /** An element of a slide: its class tokens and its parsed `data-fragment-index`
      (None when the attribute is missing or not a number, where `parseInt` gives NaN). */
  datatype Fragment = Fragment(classes: seq<string>, index: Option<int>)

  function ClassName(f: Fragment): string
  {
    Join(f.classes)
  }

  /** Matched by the selector `.fragment`. */
  predicate IsFragment(f: Fragment)
  {
    FragmentClass in f.classes
  }

  /** Matched by the selector `.fragment.visualizationStep`: a step marker span. */
  predicate IsMarker(f: Fragment)
  {
    FragmentClass in f.classes && StepClass in f.classes
  }

  /** The marker spans, in document order. */
  function Markers(fs: seq<Fragment>): seq<Fragment>
  {
    if |fs| == 0 then []
    else Markers(fs[..|fs| - 1]) + (if IsMarker(fs[|fs| - 1]) then [fs[|fs| - 1]] else [])
  }

  /** Everything on the slide that is not a marker span, in document order. */
  function Others(fs: seq<Fragment>): seq<Fragment>
  {
    if |fs| == 0 then []
    else Others(fs[..|fs| - 1]) + (if IsMarker(fs[|fs| - 1]) then [] else [fs[|fs| - 1]])
  }

  /** The span the plugin appends: class `fragment visualizationStep`, with
      `visible` added when the slide is reached by navigating back. */
  function NewSpan(markVisible: bool): Fragment
  {
    Fragment(if markVisible then [FragmentClass, StepClass, VisibleClass] else [FragmentClass, StepClass], None)
  }

  /** The appended span is a marker, visible exactly when asked. */
  lemma NewSpanIsMarker(markVisible: bool)
    ensures IsMarker(NewSpan(markVisible))
    ensures NewSpan(markVisible).index == None
    ensures VisibleClass in NewSpan(markVisible).classes <==> markVisible
  {
    assert NewSpan(markVisible).classes[0] == FragmentClass;
    assert NewSpan(markVisible).classes[1] == StepClass;
    if !markVisible {
      assert VisibleClass != FragmentClass && VisibleClass != StepClass;
    }
  }

  /** Every marker span is one, and there are no more of them than elements. */
  lemma {:induction false} MarkersAreMarkers(fs: seq<Fragment>)
    ensures |Markers(fs)| <= |fs|
    ensures forall i | 0 <= i < |Markers(fs)| :: IsMarker(Markers(fs)[i])
    ensures forall i | 0 <= i < |Others(fs)| :: !IsMarker(Others(fs)[i])
  {
    if |fs| > 0 {
      MarkersAreMarkers(fs[..|fs| - 1]);
    }
  }

  /** `k` new spans. */
  function Spans(k: nat, markVisible: bool): seq<Fragment>
  {
    if k == 0 then [] else Spans(k - 1, markVisible) + [NewSpan(markVisible)]
  }

  lemma {:induction false} SpansAt(k: nat, markVisible: bool)
    ensures |Spans(k, markVisible)| == k
    ensures forall i | 0 <= i < k :: Spans(k, markVisible)[i] == NewSpan(markVisible)
  {
    if k > 0 {
      SpansAt(k - 1, markVisible);
    }
  }

  /** How many spans are missing for `s` markers. */
  function Missing(fs: seq<Fragment>, s: nat): nat
  {
    if |Markers(fs)| < s then s - |Markers(fs)| else 0
  }

  /** The slide's elements after the missing spans are appended. */
  function WithSpans(fs: seq<Fragment>, s: nat, markVisible: bool): seq<Fragment>
  {
    fs + Spans(Missing(fs, s), markVisible)
  }

  /** A marker of rank `r` among the markers gets `vals[r]` as index when `r < n`. */
  function LabelAt(f: Fragment, r: int, vals: seq<int>, n: nat): Fragment
    requires n <= |vals|
  {
    if IsMarker(f) && 0 <= r < n then f.(index := Some(vals[r])) else f
  }

  /** Every element of `b`, labelled by its rank among the markers. */
  function Labelled(b: seq<Fragment>, vals: seq<int>, n: nat): seq<Fragment>
    requires n <= |vals|
  {
    seq(|b|, p requires 0 <= p < |b| => LabelAt(b[p], |Markers(b[..p])|, vals, n))
  }

  /** The markers `ms`, the first `n` of them labelled with `vals`. */
  function Relabel(ms: seq<Fragment>, vals: seq<int>, n: nat): seq<Fragment>
    requires n <= |vals|
  {
    seq(|ms|, i requires 0 <= i < |ms| => LabelAt(ms[i], i, vals, n))
  }

  /** The slide's elements after the span write-back of the load handler: the
      missing spans appended, then the first `|vals|` markers carrying `vals`. */
  function WrittenBack(fs: seq<Fragment>, vals: seq<int>, markVisible: bool): seq<Fragment>
  {
    Labelled(WithSpans(fs, |vals|, markVisible), vals, |vals|)
  }

  // Facts about markers of prefixes

  lemma MarkersStep(b: seq<Fragment>, p: nat)
    requires p < |b|
    ensures Markers(b[..p + 1]) == Markers(b[..p]) + (if IsMarker(b[p]) then [b[p]] else [])
    ensures Others(b[..p + 1]) == Others(b[..p]) + (if IsMarker(b[p]) then [] else [b[p]])
  {
    assert b[..p + 1][..p] == b[..p];
  }

  lemma {:induction false} MarkersMonotone(b: seq<Fragment>, p: nat, q: nat)
    requires p <= q <= |b|
    ensures |Markers(b[..p])| <= |Markers(b[..q])|
    decreases q - p
  {
    if p < q {
      MarkersStep(b, q - 1);
      MarkersMonotone(b, p, q - 1);
    }
  }

  /** Two different markers never share a rank. */
  lemma RankInjective(b: seq<Fragment>, p: nat, q: nat)
    requires p < |b| && q < |b| && p != q
    requires IsMarker(b[p]) && IsMarker(b[q])
    ensures |Markers(b[..p])| != |Markers(b[..q])|
  {
    if p < q {
      MarkersStep(b, p);
      MarkersMonotone(b, p + 1, q);
    } else {
      MarkersStep(b, q);
      MarkersMonotone(b, q + 1, p);
    }
  }

  /** `slide.querySelectorAll('.fragment.visualizationStep')`, as positions. */
  function MarkerPositions(fs: seq<Fragment>): (r: seq<nat>)
    ensures |r| == |Markers(fs)|
    ensures forall i | 0 <= i < |r| :: r[i] < |fs|
  {
    if |fs| == 0 then []
    else MarkerPositions(fs[..|fs| - 1]) + (if IsMarker(fs[|fs| - 1]) then [|fs| - 1] else [])
  }

  /** Position `i` of the list is that of the marker of rank `i`. */
  lemma {:induction false} MarkerPositionsRank(fs: seq<Fragment>, i: nat)
    requires i < |MarkerPositions(fs)|
    ensures IsMarker(fs[MarkerPositions(fs)[i]])
    ensures |Markers(fs[..MarkerPositions(fs)[i]])| == i
  {
    var init := fs[..|fs| - 1];
    var rest := MarkerPositions(init);
    if i < |rest| {
      MarkerPositionsRank(init, i);
      assert fs[..rest[i]] == init[..rest[i]];
    } else {
      assert fs[..|fs| - 1] == init;
    }
  }

  lemma MarkersSnoc(a: seq<Fragment>, x: Fragment)
    ensures Markers(a + [x]) == Markers(a) + (if IsMarker(x) then [x] else [])
    ensures Others(a + [x]) == Others(a) + (if IsMarker(x) then [] else [x])
  {
    assert (a + [x])[..|a|] == a;
  }

  lemma {:induction false} MarkersConcat(a: seq<Fragment>, b: seq<Fragment>)
    ensures Markers(a + b) == Markers(a) + Markers(b)
    ensures Others(a + b) == Others(a) + Others(b)
  {
    if |b| == 0 {
      assert a + b == a;
    } else {
      var init := b[..|b| - 1];
      var y := b[|b| - 1];
      MarkersConcat(a, init);
      assert b == init + [y];
      assert a + b == (a + init) + [y];
      MarkersSnoc(a + init, y);
      MarkersSnoc(init, y);
    }
  }

  lemma MarkersOfSpans(k: nat, markVisible: bool)
    ensures Markers(Spans(k, markVisible)) == Spans(k, markVisible)
    ensures Others(Spans(k, markVisible)) == []
  {
    SpansAt(k, markVisible);
    NewSpanIsMarker(markVisible);
    OnlyMarkers(Spans(k, markVisible));
  }

  /** A list of markers is its own marker list. */
  lemma {:induction false} OnlyMarkers(s: seq<Fragment>)
    requires forall i | 0 <= i < |s| :: IsMarker(s[i])
    ensures Markers(s) == s
    ensures Others(s) == []
  {
    AllMarkersKept(s);
    NoOthers(s);
  }

  lemma {:induction false} AllMarkersKept(s: seq<Fragment>)
    requires forall i | 0 <= i < |s| :: IsMarker(s[i])
    ensures Markers(s) == s
  {
    if |s| > 0 {
      var init := s[..|s| - 1];
      assert forall i | 0 <= i < |init| :: init[i] == s[i];
      AllMarkersKept(init);
      assert s == init + [s[|s| - 1]];
    }
  }

  lemma {:induction false} NoOthers(s: seq<Fragment>)
    requires forall i | 0 <= i < |s| :: IsMarker(s[i])
    ensures Others(s) == []
  {
    if |s| > 0 {
      var init := s[..|s| - 1];
      assert forall i | 0 <= i < |init| :: init[i] == s[i];
      NoOthers(init);
    }
  }

  lemma MarkersOfNewSpans(fs: seq<Fragment>, k: nat, markVisible: bool)
    ensures Markers(fs + Spans(k, markVisible)) == Markers(fs) + Spans(k, markVisible)
    ensures Others(fs + Spans(k, markVisible)) == Others(fs)
  {
    MarkersConcat(fs, Spans(k, markVisible));
    MarkersOfSpans(k, markVisible);
  }

  lemma RelabelAppend(ms: seq<Fragment>, x: Fragment, vals: seq<int>, n: nat)
    requires n <= |vals|
    ensures Relabel(ms + [x], vals, n) == Relabel(ms, vals, n) + [LabelAt(x, |ms|, vals, n)]
  {
  }

  lemma LabelledInit(b: seq<Fragment>, vals: seq<int>, n: nat)
    requires n <= |vals| && |b| > 0
    ensures Labelled(b, vals, n)
      == Labelled(b[..|b| - 1], vals, n) + [LabelAt(b[|b| - 1], |Markers(b[..|b| - 1])|, vals, n)]
  {
    var init := b[..|b| - 1];
    assert forall p | 0 <= p < |init| :: init[..p] == b[..p];
  }

  /** The markers of a labelled list are the markers of the list, relabelled. */
  lemma {:induction false} MarkersOfLabelled(b: seq<Fragment>, vals: seq<int>, n: nat)
    requires n <= |vals|
    ensures Markers(Labelled(b, vals, n)) == Relabel(Markers(b), vals, n)
    ensures Others(Labelled(b, vals, n)) == Others(b)
  {
    if |b| > 0 {
      var init := b[..|b| - 1];
      var x := b[|b| - 1];
      var y := LabelAt(x, |Markers(init)|, vals, n);
      LabelledInit(b, vals, n);
      MarkersOfLabelled(init, vals, n);
      var l := Labelled(init, vals, n) + [y];
      assert l[..|l| - 1] == Labelled(init, vals, n) && l[|l| - 1] == y;
      assert IsMarker(y) == IsMarker(x);
      if IsMarker(x) {
        RelabelAppend(Markers(init), x, vals, n);
      }
    }
  }

  /** The markers after the write-back: the old markers, then the new spans, the
      first `|vals|` of them carrying `vals` in order. */
  lemma MarkersAfterWriteBack(fs: seq<Fragment>, vals: seq<int>, markVisible: bool)
    ensures Markers(WrittenBack(fs, vals, markVisible))
      == Relabel(Markers(fs) + Spans(Missing(fs, |vals|), markVisible), vals, |vals|)
    ensures Others(WrittenBack(fs, vals, markVisible)) == Others(fs)
  {
    MarkersOfNewSpans(fs, Missing(fs, |vals|), markVisible);
    MarkersOfLabelled(WithSpans(fs, |vals|, markVisible), vals, |vals|);
  }

  /** The markers before labelling: the old ones, then `Missing` new spans. */
  lemma MarkersWithSpans(fs: seq<Fragment>, s: nat, markVisible: bool)
    ensures var all := Markers(fs) + Spans(Missing(fs, s), markVisible);
      && |all| == Max2(|Markers(fs)|, s)
      && (forall i | 0 <= i < |all| :: IsMarker(all[i]))
      && (forall i | 0 <= i < |Markers(fs)| :: all[i] == Markers(fs)[i])
      && (forall i | |Markers(fs)| <= i < |all| :: all[i] == NewSpan(markVisible))
  {
    MarkersAreMarkers(fs);
    SpansAt(Missing(fs, s), markVisible);
    NewSpanIsMarker(markVisible);
  }

  /** The span write-back never removes a span: afterwards there are
      `max(existing, s)` markers; marker `i < s` carries `vals[i]`; later markers are
      unchanged; the spans it adds carry `visible` exactly when `markVisible`; and
      nothing but markers changes. */
  lemma WriteBackContract(fs: seq<Fragment>, vals: seq<int>, markVisible: bool)
    ensures var after := Markers(WrittenBack(fs, vals, markVisible));
      && |after| == Max2(|Markers(fs)|, |vals|)
      && (forall i | 0 <= i < |vals| :: after[i].index == Some(vals[i]))
      && (forall i | 0 <= i < |Markers(fs)| :: after[i].classes == Markers(fs)[i].classes)
      && (forall i | |vals| <= i < |Markers(fs)| :: after[i] == Markers(fs)[i])
      && (forall i | |Markers(fs)| <= i < |after| :: (VisibleClass in after[i].classes <==> markVisible))
    ensures Others(WrittenBack(fs, vals, markVisible)) == Others(fs)
  {
    MarkersAfterWriteBack(fs, vals, markVisible);
    WriteBackIndices(fs, vals, markVisible);
    WriteBackClasses(fs, vals, markVisible);
    WriteBackKeepsRest(fs, vals, markVisible);
  }

  lemma WriteBackIndices(fs: seq<Fragment>, vals: seq<int>, markVisible: bool)
    ensures var after := Markers(WrittenBack(fs, vals, markVisible));
      && |after| == Max2(|Markers(fs)|, |vals|)
      && (forall i | 0 <= i < |vals| :: after[i].index == Some(vals[i]))
  {
    var all := Markers(fs) + Spans(Missing(fs, |vals|), markVisible);
    var after := Relabel(all, vals, |vals|);
    MarkersAfterWriteBack(fs, vals, markVisible);
    MarkersWithSpans(fs, |vals|, markVisible);
    forall i | 0 <= i < |vals|
      ensures after[i].index == Some(vals[i])
    {
      assert after[i] == LabelAt(all[i], i, vals, |vals|);
    }
  }

  lemma WriteBackClasses(fs: seq<Fragment>, vals: seq<int>, markVisible: bool)
    ensures var after := Markers(WrittenBack(fs, vals, markVisible));
      && |after| == Max2(|Markers(fs)|, |vals|)
      && (forall i | 0 <= i < |Markers(fs)| :: after[i].classes == Markers(fs)[i].classes)
      && (forall i | |Markers(fs)| <= i < |after| :: (VisibleClass in after[i].classes <==> markVisible))
  {
    var all := Markers(fs) + Spans(Missing(fs, |vals|), markVisible);
    var after := Relabel(all, vals, |vals|);
    MarkersAfterWriteBack(fs, vals, markVisible);
    MarkersWithSpans(fs, |vals|, markVisible);
    NewSpanIsMarker(markVisible);
    forall i | 0 <= i < |after|
      ensures after[i].classes == all[i].classes
    {
      assert after[i] == LabelAt(all[i], i, vals, |vals|);
    }
  }

  lemma WriteBackKeepsRest(fs: seq<Fragment>, vals: seq<int>, markVisible: bool)
    ensures var after := Markers(WrittenBack(fs, vals, markVisible));
      && |after| == Max2(|Markers(fs)|, |vals|)
      && (forall i | |vals| <= i < |Markers(fs)| :: after[i] == Markers(fs)[i])
  {
    var all := Markers(fs) + Spans(Missing(fs, |vals|), markVisible);
    var after := Relabel(all, vals, |vals|);
    MarkersAfterWriteBack(fs, vals, markVisible);
    MarkersWithSpans(fs, |vals|, markVisible);
    forall i | |vals| <= i < |Markers(fs)|
      ensures after[i] == Markers(fs)[i]
    {
      assert after[i] == LabelAt(all[i], i, vals, |vals|);
    }
  }

  function Max2(a: int, b: int): int
  {
    if a >= b then a else b
  }

  // ---------------------------------------------------------------------
  // Iframes and slides
  // ---------------------------------------------------------------------

  /** An iframe. Its document's `_transitions` is fixed; the plugin sets
      `transitionSteps` and `transitionOnSlideChange` on it. */
  class Frame {
    const classes: seq<string>
    const transitions: Option<seq<Step>>
    var table: Option<ActionTable>
    var onSlideChange: Option<Step>

    constructor(classes: seq<string>, transitions: Option<seq<Step>>)
      ensures this.classes == classes && this.transitions == transitions
      ensures table == None && onSlideChange == None
    {
      this.classes := classes;
      this.transitions := transitions;
      table := None;
      onSlideChange := None;
    }
  }

  /** `className.includes("iframe-visualization")`: how the plugin recognises its iframes. */
  predicate IsViz(f: Frame)
  {
    Contains(Join(f.classes), VizClass)
  }

  /** Matched by the selector `.iframe-visualization`. */
  predicate HasVizClass(f: Frame)
  {
    VizClass in f.classes
  }

  lemma VizClassIsViz(f: Frame)
    requires HasVizClass(f)
    ensures IsViz(f)
  {
    ContainsToken(f.classes, VizClass);
  }

  /** The iframes of a list that the plugin recognises, in order. */
  function VizFrames(frames: seq<Frame>): (r: seq<Frame>)
    ensures |r| <= |frames|
    ensures forall f | f in r :: f in frames && IsViz(f)
    ensures forall f | f in frames && IsViz(f) :: f in r
  {
    if |frames| == 0 then []
    else
      var init := frames[..|frames| - 1];
      var last := frames[|frames| - 1];
      assert forall f | f in frames :: f in init || f == last;
      VizFrames(init) + (if IsViz(last) then [last] else [])
  }

  /** The iframes of a list the plugin does not recognise, in order. */
  function NonVizFrames(frames: seq<Frame>): (r: seq<Frame>)
    ensures |r| <= |frames|
    ensures forall f | f in r :: f in frames && !IsViz(f)
    ensures forall f | f in frames && !IsViz(f) :: f in r
  {
    if |frames| == 0 then []
    else
      var init := frames[..|frames| - 1];
      var last := frames[|frames| - 1];
      assert forall f | f in frames :: f in init || f == last;
      NonVizFrames(init) + (if IsViz(last) then [] else [last])
  }

  /** The frames of `s` that are not in `gone`, in order. */
  function Drop(s: seq<Frame>, gone: seq<Frame>): seq<Frame>
  {
    if |s| == 0 then []
    else Drop(s[..|s| - 1], gone) + (if s[|s| - 1] in gone then [] else [s[|s| - 1]])
  }

  lemma {:induction false} DropMore(s: seq<Frame>, gone: seq<Frame>, f: Frame)
    ensures Drop(Drop(s, gone), [f]) == Drop(s, gone + [f])
  {
    if |s| > 0 {
      var init := s[..|s| - 1];
      var last := s[|s| - 1];
      DropMore(init, gone, f);
      if last !in gone {
        var d := Drop(init, gone) + [last];
        assert d[..|d| - 1] == Drop(init, gone) && d[|d| - 1] == last;
        assert Drop(s, gone) == d;
        assert Drop(d, [f]) == Drop(Drop(init, gone), [f]) + (if last == f then [] else [last]);
      } else {
        assert Drop(s, gone) == Drop(init, gone);
        assert last in gone + [f];
      }
      assert Drop(s, gone + [f]) == Drop(init, gone + [f]) + (if last in gone + [f] then [] else [last]);
    }
  }

  /** Dropping exactly the recognised iframes leaves the others. */
  lemma {:induction false} DropViz(s: seq<Frame>, gone: seq<Frame>)
    requires forall f | f in s :: (f in gone <==> IsViz(f))
    ensures Drop(s, gone) == NonVizFrames(s)
  {
    if |s| > 0 {
      var init := s[..|s| - 1];
      assert forall f | f in init :: f in s;
      DropViz(init, gone);
    }
  }

  /** The position of the first frame matched by `.iframe-visualization`, if any. */
  function FirstVizClass(s: seq<Frame>): (k: int)
    ensures -1 <= k < |s|
    ensures k == -1 <==> forall i | 0 <= i < |s| :: !HasVizClass(s[i])
    ensures k >= 0 ==> HasVizClass(s[k]) && forall i | 0 <= i < k :: !HasVizClass(s[i])
  {
    if |s| == 0 then -1
    else if HasVizClass(s[0]) then 0
    else
      var k := FirstVizClass(s[1..]);
      assert forall i | 1 <= i < |s| :: s[i] == s[1..][i - 1];
      if k == -1 then -1 else k + 1
  }

  /** `querySelector(".iframe-visualization")` followed by removing what it found. */
  function RemoveFirstVizClass(s: seq<Frame>): (r: seq<Frame>)
    ensures FirstVizClass(s) == -1 ==> r == s
    ensures FirstVizClass(s) >= 0 ==> r == s[..FirstVizClass(s)] + s[FirstVizClass(s) + 1..]
  {
    var k := FirstVizClass(s);
    if k == -1 then s else s[..k] + s[k + 1..]
  }

  /** A slide (a `section`): the elements it contains, its foreground iframes
      and those of its background. */
  class Slide {
    const h: int
    const v: int
    var fragments: seq<Fragment>
    var foreground: seq<Frame>
    var background: seq<Frame>

    constructor(h: int, v: int, fragments: seq<Fragment>, foreground: seq<Frame>, background: seq<Frame>)
      ensures this.h == h && this.v == v
      ensures this.fragments == fragments && this.foreground == foreground && this.background == background
    {
      this.h := h;
      this.v := v;
      this.fragments := fragments;
      this.foreground := foreground;
      this.background := background;
    }

    /** `getAllIframes`: the plugin's iframes of the slide, foreground first. */
    function AllIframes(): seq<Frame>
      reads this
    {
      VizFrames(foreground) + VizFrames(background)
    }

    /** The span write-back of the load handler (demo lines 413-431, older
        variant lines 376-388): append marker spans until there are enough,
        then give the first `|spansToCreate|` markers their indices. */
    method WriteBackMarkers(spansToCreate: seq<int>, markVisible: bool)
      modifies this
      ensures fragments == WrittenBack(old(fragments), spansToCreate, markVisible)
      ensures foreground == old(foreground) && background == old(background)
    {
      var elements := fragments;
      var fragmentSpans := MarkerPositions(elements);
      if |fragmentSpans| < |spansToCreate| {
        var nSpansToCreate := |spansToCreate| - |fragmentSpans|;
        for i := 0 to nSpansToCreate
          invariant elements == fragments + Spans(i, markVisible)
          invariant unchanged(this)
        {
          elements := elements + [NewSpan(markVisible)];
        }
      } else {
        assert elements == fragments + Spans(0, markVisible);
      }
      ghost var base := elements;
      assert base == WithSpans(fragments, |spansToCreate|, markVisible);
      fragmentSpans := MarkerPositions(elements);
      assert |fragmentSpans| >= |spansToCreate| by {
        MarkersOfNewSpans(fragments, Missing(fragments, |spansToCreate|), markVisible);
        SpansAt(Missing(fragments, |spansToCreate|), markVisible);
      }
      for i := 0 to |spansToCreate|
        invariant elements == LabelPositions(base, fragmentSpans, spansToCreate, i)
        invariant unchanged(this)
      {
        elements := elements[fragmentSpans[i] := elements[fragmentSpans[i]].(index := Some(spansToCreate[i]))];
      }
      LabelPositionsCorrect(base, spansToCreate, |spansToCreate|);
      LabelledDone(elements, base, spansToCreate);
      fragments := elements;
    }

    /** The teardown of the older variant (lines 69-83): every recognised iframe
        of the slide, foreground or background, is removed; no other iframe is. */
    method RemoveVizFrames()
      modifies this
      ensures foreground == NonVizFrames(old(foreground))
      ensures background == NonVizFrames(old(background))
      ensures fragments == old(fragments)
    {
      var allIframes := AllIframes();
      ghost var fg, bg := foreground, background;
      DropNone(fg, allIframes);
      DropNone(bg, allIframes);
      for i := 0 to |allIframes|
        invariant foreground == Drop(fg, allIframes[..i])
        invariant background == Drop(bg, allIframes[..i])
        invariant fragments == old(fragments)
      {
        DropNext(fg, allIframes, i);
        DropNext(bg, allIframes, i);
        foreground := Drop(foreground, [allIframes[i]]);
        background := Drop(background, [allIframes[i]]);
      }
      DropAllViz(fg, bg, allIframes);
    }
  }

  /** After `i` rounds of the labelling loop, the first `i` markers are labelled. */
  predicate LabelledUpTo(cur: seq<Fragment>, base: seq<Fragment>, vals: seq<int>, i: nat)
  {
    && i <= |vals|
    && |cur| == |base|
    && forall p {:trigger cur[p]} | 0 <= p < |base| :: cur[p] == LabelAt(base[p], |Markers(base[..p])|, vals, i)
  }

  /** The elements after the first `i` rounds of the labelling loop over the
      marker positions `ps`. */
  function LabelPositions(b: seq<Fragment>, ps: seq<nat>, vals: seq<int>, i: nat): (r: seq<Fragment>)
    requires i <= |ps| && i <= |vals|
    requires forall k | 0 <= k < |ps| :: ps[k] < |b|
    ensures |r| == |b|
  {
    if i == 0 then b
    else
      var prev := LabelPositions(b, ps, vals, i - 1);
      prev[ps[i - 1] := prev[ps[i - 1]].(index := Some(vals[i - 1]))]
  }

  /** Labelling the marker positions one by one labels markers by rank. */
  lemma {:induction false} LabelPositionsCorrect(b: seq<Fragment>, vals: seq<int>, i: nat)
    requires i <= |vals| && i <= |Markers(b)|
    ensures LabelledUpTo(LabelPositions(b, MarkerPositions(b), vals, i), b, vals, i)
  {
    var ps := MarkerPositions(b);
    if i == 0 {
      LabelledStart(b, vals);
    } else {
      var prev := LabelPositions(b, ps, vals, i - 1);
      LabelPositionsCorrect(b, vals, i - 1);
      MarkerPositionsRank(b, i - 1);
      LabelStep(prev, b, vals, i - 1, ps[i - 1]);
      assert LabelPositions(b, ps, vals, i) == prev[ps[i - 1] := prev[ps[i - 1]].(index := Some(vals[i - 1]))];
    }
  }

  lemma LabelledStart(b: seq<Fragment>, vals: seq<int>)
    ensures LabelledUpTo(b, b, vals, 0)
  {
  }

  lemma LabelledDone(cur: seq<Fragment>, base: seq<Fragment>, vals: seq<int>)
    requires LabelledUpTo(cur, base, vals, |vals|)
    ensures cur == Labelled(base, vals, |vals|)
  {
  }

  lemma LabelStep(cur: seq<Fragment>, base: seq<Fragment>, vals: seq<int>, i: nat, p: nat)
    requires LabelledUpTo(cur, base, vals, i) && i < |vals|
    requires p < |base| && IsMarker(base[p]) && |Markers(base[..p])| == i
    ensures LabelledUpTo(cur[p := cur[p].(index := Some(vals[i]))], base, vals, i + 1)
  {
    forall q | 0 <= q < |base| && q != p && IsMarker(base[q])
      ensures |Markers(base[..q])| != i
    {
      RankInjective(base, p, q);
    }
  }

  lemma {:induction false} NoneDropped(s: seq<Frame>)
    ensures Drop(s, []) == s
  {
    if |s| > 0 {
      NoneDropped(s[..|s| - 1]);
    }
  }

  /** Before the removal loop nothing is dropped. */
  lemma DropNone(s: seq<Frame>, all: seq<Frame>)
    ensures Drop(s, all[..0]) == s
  {
    assert all[..0] == [];
    NoneDropped(s);
  }

  /** One round of the removal loop drops one more iframe. */
  lemma DropNext(s: seq<Frame>, all: seq<Frame>, i: nat)
    requires i < |all|
    ensures Drop(Drop(s, all[..i]), [all[i]]) == Drop(s, all[..i + 1])
  {
    DropMore(s, all[..i], all[i]);
    assert all[..i + 1] == all[..i] + [all[i]];
  }

  /** Dropping all recognised iframes of both lists leaves the others of each. */
  lemma DropAllViz(fg: seq<Frame>, bg: seq<Frame>, all: seq<Frame>)
    requires all == VizFrames(fg) + VizFrames(bg)
    ensures Drop(fg, all[..|all|]) == NonVizFrames(fg)
    ensures Drop(bg, all[..|all|]) == NonVizFrames(bg)
  {
    assert all[..|all|] == all;
    DropViz(fg, all);
    DropViz(bg, all);
  }
}
