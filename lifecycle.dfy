/**
 * The background lifecycle of the current plugin: which background slides
 * hold a live visualization iframe after a slide change or an overview
 * toggle (`updateBackgroundSlides`, `clearBackgrounds`), and the JavaScript
 * arithmetic it depends on.
 */
module Lifecycle {
  import opened Base
  import opened Steps
  import opened Dom

  // ---------------------------------------------------------------------
  // JavaScript arithmetic
  // ---------------------------------------------------------------------

  function Abs(x: int): nat
  {
    if x < 0 then -x else x
  }

  /** JavaScript `/` followed by truncation toward zero, for a non-zero divisor. */
  function JsQuot(a: int, b: int): int
    requires b != 0
  {
    var q := Abs(a) / Abs(b);
    if (a < 0) == (b < 0) then q else -q
  }

  /** JavaScript `%`: the remainder of truncating division, with the sign of
      the dividend (Dafny's `%` is Euclidean and never negative). */
  function JsRem(a: int, b: int): (r: int)
    requires b != 0
    ensures Abs(r) < Abs(b)
    ensures a >= 0 ==> r >= 0
    ensures a < 0 ==> r <= 0
  {
    var r := Abs(a) % Abs(b);
    if a < 0 then -r else r
  }

  /** The truncated quotient and remainder recompose the dividend. */
  lemma JsDivision(a: int, b: int)
    requires b != 0
    ensures a == b * JsQuot(a, b) + JsRem(a, b)
    ensures Abs(JsRem(a, b)) == Abs(a) % Abs(b)
  {
    var q, r := Abs(a) / Abs(b), Abs(a) % Abs(b);
    assert Abs(a) == Abs(b) * q + r;
    if a < 0 && b < 0 {
      assert Abs(a) == -a && Abs(b) == -b;
    } else if a < 0 {
      assert Abs(a) == -a && Abs(b) == b;
      assert a == b * (-q) - r;
    } else if b < 0 {
      assert Abs(a) == a && Abs(b) == -b;
      assert a == b * (-q) + r;
    }
  }

  /** Where the two remainders differ: a negative dividend. */
  lemma JsRemNotEuclidean()
    ensures JsRem(-1, 3) == -1 && -1 % 3 == 2
  {
  }

  // ---------------------------------------------------------------------
  // Distance and the materialise decision
  // ---------------------------------------------------------------------

  /** The view distance: 10 while the overview is shown, otherwise the configured one. */
  function ViewDistance(isOverView: bool, configViewDistance: int): int
  {
    if isOverView then 10 else configViewDistance
  }

  /** How far a background slide at column `h` is from the event's column
      (`event.indexh || 0`). Under `loop` the difference is taken modulo
      `horizontalSlidesLength - viewDistance` with JavaScript's remainder; a zero
      divisor gives NaN, which `|| 0` turns into 0. */
  function Distance(indexh: Option<int>, h: int, loop: bool, horizontalSlidesLength: int, viewDistance: int): (d: nat)
    ensures var delta := (if indexh.Some? then indexh.value else 0) - h;
      && (!loop ==> d == Abs(delta))
      && (loop && horizontalSlidesLength == viewDistance ==> d == 0)
      && (loop && horizontalSlidesLength != viewDistance ==>
            d == Abs(delta) % Abs(horizontalSlidesLength - viewDistance)
            && d < Abs(horizontalSlidesLength - viewDistance))
  {
    var delta := (if indexh.Some? then indexh.value else 0) - h;
    if !loop then Abs(delta)
    else if horizontalSlidesLength - viewDistance == 0 then 0
    else
      JsDivision(delta, horizontalSlidesLength - viewDistance);
      Abs(JsRem(delta, horizontalSlidesLength - viewDistance))
  }

  /** The distance does not depend on which of the two columns is the current one. */
  lemma DistanceSymmetric(a: int, b: int, loop: bool, n: int, vd: int)
    ensures Distance(Some(a), b, loop, n, vd) == Distance(Some(b), a, loop, n, vd)
  {
    assert Abs(a - b) == Abs(b - a);
  }

  /** A background slide gets its iframe when it is within the view distance
      and preloaded, or when it is the event's own column. */
  predicate ShouldMaterialize(distance: nat, viewDistance: int, preload: bool)
  {
    (distance < viewDistance && preload) || distance == 0
  }

  /** The background of the slide being navigated to is always materialised,
      preloaded or not, looped or not. */
  lemma CurrentColumnMaterializes(h: int, loop: bool, n: int, vd: int, preload: bool)
    ensures ShouldMaterialize(Distance(Some(h), h, loop, n, vd), vd, preload)
  {
  }

  /** A slide that is not preloaded materialises only at distance 0. */
  lemma NoPreloadOnlyHere(distance: nat, vd: int)
    ensures ShouldMaterialize(distance, vd, false) <==> distance == 0
  {
  }

  // ---------------------------------------------------------------------
  // Background slides
  // ---------------------------------------------------------------------

  /** An entry of the plugin's `backgroundSlides`: the slide, whether it has
      `data-preload`, and the `_transitions` of the visualization its
      iframe loads. */
  datatype BackgroundSlide = BackgroundSlide(slide: Slide, preload: bool, content: Option<seq<Step>>)

  function SlidesOf(bs: seq<BackgroundSlide>): set<Slide>
  {
    set b | b in bs :: b.slide
  }

  /** The decision `updateBackgroundSlides` takes for one background slide. */
  predicate Materializes(b: BackgroundSlide, indexh: Option<int>, isOverView: bool, configViewDistance: int,
                         loop: bool, horizontalSlidesLength: int)
  {
    var vd := ViewDistance(isOverView, configViewDistance);
    ShouldMaterialize(Distance(indexh, b.slide.h, loop, horizontalSlidesLength, vd), vd, b.preload)
  }

  /** The state of a slide after `updateBackgroundSlides`, given its iframes
      before (`fg`, `bg`): when it materialises and has no iframe yet (neither
      on the slide nor on its background), a new `iframe-visualization` loading
      its visualization is its only background iframe; when it materialises
      with an iframe present, nothing changes; otherwise its first
      `.iframe-visualization` background iframe is removed. The slide's own
      iframes and fragments never change. */
  predicate UpdatedBackground(b: BackgroundSlide, materialize: bool, fg: seq<Frame>, bg: seq<Frame>,
                              fragments: seq<Fragment>)
    reads b.slide
  {
    && b.slide.foreground == fg
    && b.slide.fragments == fragments
    && (materialize && fg == [] && bg == [] ==>
          && |b.slide.background| == 1
          && b.slide.background[0].classes == [VizClass]
          && b.slide.background[0].transitions == b.content)
    && (materialize && !(fg == [] && bg == []) ==> b.slide.background == bg)
    && (!materialize ==> b.slide.background == RemoveFirstVizClass(bg))
  }

  /** `updateBackgroundSlides`. Nothing happens before the plugin has
      collected its background slides (`backgroundSlides` is `None`). The entries
      are keyed by slide, so no slide occurs twice. */
  method UpdateBackgroundSlides(backgroundSlides: Option<seq<BackgroundSlide>>, indexh: Option<int>,
                                isOverView: bool, configViewDistance: int, loop: bool,
                                horizontalSlidesLength: int)
    requires backgroundSlides.Some? ==>
      forall i, j | 0 <= i < j < |backgroundSlides.value| ::
        backgroundSlides.value[i].slide != backgroundSlides.value[j].slide
    modifies if backgroundSlides.Some? then SlidesOf(backgroundSlides.value) else {}
    ensures backgroundSlides.Some? ==>
      forall i | 0 <= i < |backgroundSlides.value| ::
        var b := backgroundSlides.value[i];
        UpdatedBackground(b, Materializes(b, indexh, isOverView, configViewDistance, loop, horizontalSlidesLength),
          old(b.slide.foreground), old(b.slide.background), old(b.slide.fragments))
  {
    if backgroundSlides.None? {
      return;
    }
    var bs := backgroundSlides.value;
    ghost var decisions := seq(|bs|, j requires 0 <= j < |bs| =>
      Materializes(bs[j], indexh, isOverView, configViewDistance, loop, horizontalSlidesLength));
    for i := 0 to |bs|
      invariant forall j | 0 <= j < i ::
        UpdatedBackground(bs[j], decisions[j], old(bs[j].slide.foreground), old(bs[j].slide.background),
          old(bs[j].slide.fragments))
      invariant forall j | i <= j < |bs| :: unchanged(bs[j].slide)
    {
      var b := bs[i];
      var viewDistance := ViewDistance(isOverView, configViewDistance);
      var distanceX := Distance(indexh, b.slide.h, loop, horizontalSlidesLength, viewDistance);
      assert decisions[i] == ((distanceX < viewDistance && b.preload) || distanceX == 0);
      assert forall j | 0 <= j < |bs| && j != i :: bs[j].slide != b.slide;
      UpdateBackgroundSlide(b, (distanceX < viewDistance && b.preload) || distanceX == 0);
    }
  }

  /** The body of the loop of `updateBackgroundSlides`, for one slide. */
  method UpdateBackgroundSlide(b: BackgroundSlide, materialize: bool)
    modifies b.slide
    ensures UpdatedBackground(b, materialize, old(b.slide.foreground), old(b.slide.background), old(b.slide.fragments))
    ensures materialize && old(b.slide.foreground) == [] && old(b.slide.background) == [] ==>
      fresh(b.slide.background[0])
  {
    if materialize {
      if b.slide.foreground == [] && b.slide.background == [] {
        var iframe := new Frame([VizClass], b.content);
        b.slide.background := [iframe];
      }
    } else {
      b.slide.background := RemoveFirstVizClass(b.slide.background);
    }
  }

  /** `clearBackgrounds`: every background slide's content is emptied. */
  method ClearBackgrounds(backgroundSlides: Option<seq<BackgroundSlide>>)
    modifies if backgroundSlides.Some? then SlidesOf(backgroundSlides.value) else {}
    ensures backgroundSlides.Some? ==>
      forall i | 0 <= i < |backgroundSlides.value| ::
        && backgroundSlides.value[i].slide.background == []
        && backgroundSlides.value[i].slide.foreground == old(backgroundSlides.value[i].slide.foreground)
        && backgroundSlides.value[i].slide.fragments == old(backgroundSlides.value[i].slide.fragments)
  {
    if backgroundSlides.None? {
      return;
    }
    var bs := backgroundSlides.value;
    for i := 0 to |bs|
      invariant forall j | 0 <= j < i :: bs[j].slide.background == []
      invariant forall j | 0 <= j < |bs| ::
        && bs[j].slide.foreground == old(bs[j].slide.foreground)
        && bs[j].slide.fragments == old(bs[j].slide.fragments)
    {
      bs[i].slide.background := [];
    }
  }
}
