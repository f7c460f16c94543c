/**
 * The iframe's inline style and attributes: the default style merged with the
 * container's `data-style` (`Object.assign`), its serialisation into one
 * `key:value;` string, and the attribute objects of the created iframe.
 * JavaScript objects keep their non-numeric keys in insertion order (keys
 * that look like array indices would come first, in ascending order; style
 * property names never do), so an object is a list of entries with distinct
 * keys.
 */
module Styles {
  import opened Base
  import opened Dom

  type Entries = seq<(string, string)>

  // ---------------------------------------------------------------------
  // Objects as ordered entries
  // ---------------------------------------------------------------------

  /** `Object.keys(o)`. */
  function Keys(o: Entries): seq<string>
  {
    if |o| == 0 then [] else [o[0].0] + Keys(o[1..])
  }

  /** `o[k]`: the value of the first entry with key `k`. */
  function Get(o: Entries, k: string): Option<string>
  {
    if |o| == 0 then None
    else if o[0].0 == k then Some(o[0].1)
    else Get(o[1..], k)
  }

  /** The value the last entry with key `k` gives, if any. */
  function GetLast(o: Entries, k: string): Option<string>
  {
    if |o| == 0 then None
    else
      var rest := GetLast(o[1..], k);
      if rest.Some? then rest else if o[0].0 == k then Some(o[0].1) else None
  }

  /** `o[k] = v`: an existing key keeps its place and takes the new value, a
      new key goes last. */
  function Put(o: Entries, k: string, v: string): Entries
  {
    if |o| == 0 then [(k, v)]
    else if o[0].0 == k then [(k, v)] + o[1..]
    else [o[0]] + Put(o[1..], k, v)
  }

  /** `Object.assign(target, source)`: every entry of `source` put in turn. */
  function Assign(target: Entries, source: Entries): Entries
    decreases |source|
  {
    if |source| == 0 then target else Assign(Put(target, source[0].0, source[0].1), source[1..])
  }

  lemma {:induction false} KeysOf(o: Entries)
    ensures |Keys(o)| == |o|
    ensures forall i | 0 <= i < |o| :: Keys(o)[i] == o[i].0
    ensures forall k :: Get(o, k).Some? <==> k in Keys(o)
  {
    if |o| > 0 {
      KeysOf(o[1..]);
    }
  }

  /** Writing one key sets it, leaves every other key's value, and adds the
      key at the end only when it was new. */
  lemma {:induction false} PutSpec(o: Entries, k: string, v: string)
    ensures Get(Put(o, k, v), k) == Some(v)
    ensures forall k' | k' != k :: Get(Put(o, k, v), k') == Get(o, k')
    ensures k in Keys(o) ==> Keys(Put(o, k, v)) == Keys(o)
    ensures k !in Keys(o) ==> Keys(Put(o, k, v)) == Keys(o) + [k]
  {
    if |o| > 0 && o[0].0 != k {
      PutSpec(o[1..], k, v);
      assert Put(o, k, v)[1..] == Put(o[1..], k, v);
      assert Keys(o) == [o[0].0] + Keys(o[1..]);
    } else if |o| > 0 {
      assert Put(o, k, v)[1..] == o[1..];
    }
  }

  lemma PutNoDuplicates(o: Entries, k: string, v: string)
    requires NoDuplicates(Keys(o))
    ensures NoDuplicates(Keys(Put(o, k, v)))
  {
    PutSpec(o, k, v);
  }

  /** After `Object.assign` each key holds the source's value for it (the
      last one given) when the source has it and the target's value
      otherwise; the target's keys keep their places at the front, and keys
      stay distinct. */
  lemma {:induction false} AssignSpec(target: Entries, source: Entries)
    decreases |source|
    ensures forall k :: (Get(Assign(target, source), k)
      == if GetLast(source, k).Some? then GetLast(source, k) else Get(target, k))
    ensures |Keys(target)| <= |Keys(Assign(target, source))|
    ensures Keys(Assign(target, source))[..|Keys(target)|] == Keys(target)
    ensures NoDuplicates(Keys(target)) ==> NoDuplicates(Keys(Assign(target, source)))
  {
    if |source| > 0 {
      var (k, v) := source[0];
      var t' := Put(target, k, v);
      PutSpec(target, k, v);
      AssignSpec(t', source[1..]);
      if NoDuplicates(Keys(target)) {
        PutNoDuplicates(target, k, v);
      }
      var r := Assign(target, source);
      assert r == Assign(t', source[1..]);
      assert Keys(r)[..|Keys(target)|] == Keys(t')[..|Keys(t')|][..|Keys(target)|];
    }
  }

  // ---------------------------------------------------------------------
  // The style object
  // ---------------------------------------------------------------------

  /** The default style of the current plugin (lines 257-265); numbers are
      stored as the strings `String(value)` gives. */
  const DemoDefaultStyle: Entries := [("margin", "0px"), ("width", "100vw"), ("height", "100vh"),
    ("max-width", "100%"), ("max-height", "100%"), ("z-index", "1"), ("border", "0")]

  /** The default style of the older variant (lines 151-158): the same without `border`. */
  const LegacyDefaultStyle: Entries := [("margin", "0px"), ("width", "100vw"), ("height", "100vh"),
    ("max-width", "100%"), ("max-height", "100%"), ("z-index", "1")]

  lemma DefaultStyles()
    ensures DemoDefaultStyle == LegacyDefaultStyle + [("border", "0")]
    ensures NoDuplicates(Keys(DemoDefaultStyle)) && NoDuplicates(Keys(LegacyDefaultStyle))
  {
    KeysOf(DemoDefaultStyle);
    KeysOf(LegacyDefaultStyle);
  }

  /** The loop over the regular-expression matches of `data-style`
      (`inputtedStyle[m[1]] = m[2]`); the matches are the input. */
  method InputtedStyle(matches: seq<(string, string)>) returns (inputtedStyle: Entries)
    ensures inputtedStyle == Assign([], matches)
  {
    inputtedStyle := [];
    var i := 0;
    while i < |matches|
      invariant 0 <= i <= |matches|
      invariant Assign(inputtedStyle, matches[i..]) == Assign([], matches)
    {
      assert matches[i..][1..] == matches[i + 1..];
      inputtedStyle := Put(inputtedStyle, matches[i].0, matches[i].1);
      i := i + 1;
    }
  }

  /** `Object.assign(defaultStyle, inputtedStyle)`. */
  function IframeStyle(defaults: Entries, inputted: Entries): Entries
  {
    Assign(defaults, inputted)
  }

  /** The user's style wins on every key it sets, the defaults hold for the
      others, the default keys come first in their own order and no key is
      listed twice. */
  lemma IframeStyleSpec(defaults: Entries, inputted: Entries, k: string)
    requires NoDuplicates(Keys(defaults))
    ensures GetLast(inputted, k).Some? ==> Get(IframeStyle(defaults, inputted), k) == GetLast(inputted, k)
    ensures GetLast(inputted, k).None? ==> Get(IframeStyle(defaults, inputted), k) == Get(defaults, k)
    ensures |Keys(defaults)| <= |Keys(IframeStyle(defaults, inputted))|
    ensures Keys(IframeStyle(defaults, inputted))[..|Keys(defaults)|] == Keys(defaults)
    ensures NoDuplicates(Keys(IframeStyle(defaults, inputted)))
  {
    AssignSpec(defaults, inputted);
  }

  /** A user style that only sets the width keeps the current plugin's border. */
  lemma UserWidthKeepsBorder()
    ensures Get(IframeStyle(DemoDefaultStyle, [("width", "50%")]), "width") == Some("50%")
    ensures Get(IframeStyle(DemoDefaultStyle, [("width", "50%")]), "border") == Some("0")
  {
    DefaultStyles();
    IframeStyleSpec(DemoDefaultStyle, [("width", "50%")], "width");
    IframeStyleSpec(DemoDefaultStyle, [("width", "50%")], "border");
    GetAt(DemoDefaultStyle, 6);
  }

  // ---------------------------------------------------------------------
  // Serialisation
  // ---------------------------------------------------------------------

  /** The characters of JavaScript's `\s`. */
  predicate IsSpace(c: char)
  {
    c == ' ' || c == '\t' || c == '\n' || c == '\U{000B}' || c == '\U{000C}' || c == '\r'
    || c == '\U{00A0}' || c == '\U{1680}' || ('\U{2000}' <= c <= '\U{200A}')
    || c == '\U{2028}' || c == '\U{2029}' || c == '\U{202F}' || c == '\U{205F}'
    || c == '\U{3000}' || c == '\U{FEFF}'
  }

  /** Where the first whitespace character is, or -1. */
  function FirstSpace(s: string): (k: int)
    ensures -1 <= k < |s|
  {
    if |s| == 0 then -1
    else if IsSpace(s[0]) then 0
    else
      var k := FirstSpace(s[1..]);
      if k == -1 then -1 else k + 1
  }

  lemma {:induction false} FirstSpaceSpec(s: string)
    ensures FirstSpace(s) == -1 ==> forall i | 0 <= i < |s| :: !IsSpace(s[i])
    ensures FirstSpace(s) >= 0 ==> IsSpace(s[FirstSpace(s)]) && forall i | 0 <= i < FirstSpace(s) :: !IsSpace(s[i])
  {
    if |s| > 0 && !IsSpace(s[0]) {
      FirstSpaceSpec(s[1..]);
      assert forall i | 1 <= i < |s| :: s[i] == s[1..][i - 1];
    }
  }

  /** The end of the whitespace run that starts at `i`. */
  function RunEnd(s: string, i: nat): (j: nat)
    requires i <= |s|
    ensures i <= j <= |s|
    decreases |s| - i
  {
    if i < |s| && IsSpace(s[i]) then RunEnd(s, i + 1) else i
  }

  lemma {:induction false} RunEndSpec(s: string, i: nat)
    requires i <= |s|
    ensures forall p | i <= p < RunEnd(s, i) :: IsSpace(s[p])
    ensures RunEnd(s, i) < |s| ==> !IsSpace(s[RunEnd(s, i)])
    decreases |s| - i
  {
    if i < |s| && IsSpace(s[i]) {
      RunEndSpec(s, i + 1);
    }
  }

  /** `String(value).replace(/\s+/, " ")`: without the `g` flag only the
      first run of whitespace becomes one space. */
  function CollapseFirstRun(s: string): string
  {
    if |s| == 0 then s
    else if IsSpace(s[0]) then " " + s[RunEnd(s, 0)..]
    else [s[0]] + CollapseFirstRun(s[1..])
  }

  /** The same, written as the search the regular expression performs: the
      text before the first whitespace character, one space, and the text
      after the run that starts there. */
  lemma {:induction false} CollapseFirstRunSpec(s: string)
    ensures FirstSpace(s) == -1 ==> CollapseFirstRun(s) == s
    ensures FirstSpace(s) >= 0 ==>
      CollapseFirstRun(s) == s[..FirstSpace(s)] + " " + s[RunEnd(s, FirstSpace(s))..]
  {
    if |s| > 0 && !IsSpace(s[0]) {
      CollapseFirstRunSpec(s[1..]);
      CollapseAfterOther(s);
    } else if |s| > 0 {
      CollapseAtSpace(s);
    }
  }

  /** The inductive step: a leading non-whitespace character is kept in front. */
  lemma CollapseAfterOther(s: string)
    requires |s| > 0 && !IsSpace(s[0])
    requires var t := s[1..];
      && (FirstSpace(t) == -1 ==> CollapseFirstRun(t) == t)
      && (FirstSpace(t) >= 0 ==> CollapseFirstRun(t) == t[..FirstSpace(t)] + " " + t[RunEnd(t, FirstSpace(t))..])
    ensures FirstSpace(s) == -1 ==> CollapseFirstRun(s) == s
    ensures FirstSpace(s) >= 0 ==>
      CollapseFirstRun(s) == s[..FirstSpace(s)] + " " + s[RunEnd(s, FirstSpace(s))..]
  {
    var t := s[1..];
    var k := FirstSpace(t);
    assert CollapseFirstRun(s) == [s[0]] + CollapseFirstRun(t);
    if k == -1 {
      assert [s[0]] + t == s;
    } else {
      CollapseLater(s, k, CollapseFirstRun(t));
    }
  }

  lemma CollapseLater(s: string, k: nat, c: string)
    requires |s| > 0 && !IsSpace(s[0]) && k < |s| - 1 && FirstSpace(s[1..]) == k
    requires c == s[1..][..k] + " " + s[1..][RunEnd(s[1..], k)..]
    ensures FirstSpace(s) == k + 1
    ensures [s[0]] + c == s[..k + 1] + " " + s[RunEnd(s, k + 1)..]
  {
    RunEndShift(s, k + 1);
    ConsCollapsed(s, k, RunEnd(s[1..], k), c);
  }

  /** A string that starts with whitespace collapses its leading run. */
  lemma CollapseAtSpace(s: string)
    requires |s| > 0 && IsSpace(s[0])
    ensures FirstSpace(s) == 0
    ensures CollapseFirstRun(s) == s[..0] + " " + s[RunEnd(s, 0)..]
  {
    assert s[..0] + " " == " ";
  }

  /** Putting the first character back in front of a collapsed tail. */
  lemma ConsCollapsed(s: string, k: nat, j: nat, c: string)
    requires |s| > 0 && k <= j <= |s| - 1
    requires c == s[1..][..k] + " " + s[1..][j..]
    ensures [s[0]] + c == s[..k + 1] + " " + s[j + 1..]
  {
    var t := s[1..];
    assert s[..k + 1] == [s[0]] + t[..k];
    assert s[j + 1..] == t[j..];
  }

  /** The run that starts at `i` in `s` is the one at `i - 1` in `s[1..]`. */
  lemma {:induction false} RunEndShift(s: string, i: nat)
    requires 1 <= i <= |s|
    ensures RunEnd(s, i) == RunEnd(s[1..], i - 1) + 1
    decreases |s| - i
  {
    if i < |s| {
      assert s[i] == s[1..][i - 1];
      if IsSpace(s[i]) {
        RunEndShift(s, i + 1);
      }
    }
  }

  /** The first run is one space afterwards, so collapsing again changes nothing. */
  lemma {:induction false} CollapseIdempotent(s: string)
    ensures CollapseFirstRun(CollapseFirstRun(s)) == CollapseFirstRun(s)
  {
    if |s| > 0 {
      var r := CollapseFirstRun(s);
      if IsSpace(s[0]) {
        var j := RunEnd(s, 0);
        RunEndSpec(s, 0);
        assert r == " " + s[j..];
        assert RunEnd(r, 1) == 1 by {
          if 1 < |r| {
            assert r[1] == s[j];
          }
        }
        assert RunEnd(r, 0) == 1;
        assert r[1..] == s[j..];
      } else {
        CollapseIdempotent(s[1..]);
        assert r == [s[0]] + CollapseFirstRun(s[1..]);
        assert r[1..] == CollapseFirstRun(s[1..]);
      }
    }
  }

  /** Only the first run is collapsed: a later run stays as it is. */
  lemma CollapseOnlyFirst()
    ensures CollapseFirstRun("a  b  c") == "a b  c"
  {
    var s := "a  b  c";
    var t := s[1..];
    assert t == "  b  c";
    assert IsSpace(t[0]) && IsSpace(t[1]) && !IsSpace(t[2]);
    assert RunEnd(t, 2) == 2;
    assert RunEnd(t, 0) == 2;
    assert CollapseFirstRun(t) == " " + t[2..];
    assert t[2..] == "b  c";
  }

  /** The `reduce` of lines 302-303: `key:value;` for every entry, in key order. */
  function Serialize(o: Entries): string
  {
    if |o| == 0 then "" else Serialize(o[..|o| - 1]) + Declaration(o[|o| - 1])
  }

  function Declaration(e: (string, string)): string
  {
    e.0 + ":" + CollapseFirstRun(e.1) + ";"
  }

  /** The style string is the declarations of the entries laid end to end:
      serialising two objects' entries one after the other concatenates the strings. */
  lemma {:induction false} SerializeConcat(a: Entries, b: Entries)
    ensures Serialize(a + b) == Serialize(a) + Serialize(b)
  {
    if |b| == 0 {
      assert a + b == a;
    } else {
      var init := b[..|b| - 1];
      SerializeConcat(a, init);
      assert (a + b)[..|a + b| - 1] == a + init;
      assert (a + b)[|a + b| - 1] == b[|b| - 1];
      assert Serialize(b) == Serialize(init) + Declaration(b[|b| - 1]);
    }
  }

  /** One entry serialises to its declaration. */
  lemma SerializeOne(e: (string, string))
    ensures Serialize([e]) == Declaration(e)
  {
    assert [e][..0] == [];
  }

  // ---------------------------------------------------------------------
  // Container and iframe attributes
  // ---------------------------------------------------------------------

  /** `data-scroll ? data-scroll : "yes"`: an absent or empty attribute means "yes". */
  function Scrolling(dataScroll: Option<string>): (r: string)
    ensures dataScroll.Some? && dataScroll.value != "" ==> r == dataScroll.value
    ensures dataScroll.None? || dataScroll.value == "" ==> r == "yes"
  {
    if dataScroll.Some? && dataScroll.value != "" then dataScroll.value else "yes"
  }

  /** The container's overflow (demo line 292, older variant line 311):
      an unset overflow becomes `hidden` unless `data-overflow-shown` is true
      (the attribute as `JSON.parse` gives it). */
  function ContainerOverflow(overflow: string, overflowShown: Option<bool>): (r: string)
    ensures overflow != "" ==> r == overflow
    ensures overflow == "" ==> (r == "hidden" <==> !(overflowShown == Some(true)))
    ensures overflow == "" && overflowShown == Some(true) ==> r == ""
  {
    if overflow == "" && !(overflowShown.Some? && overflowShown.value) then "hidden" else overflow
  }

  /** Setting the overflow a second time changes nothing. */
  lemma ContainerOverflowStable(overflow: string, overflowShown: Option<bool>)
    ensures ContainerOverflow(ContainerOverflow(overflow, overflowShown), overflowShown)
      == ContainerOverflow(overflow, overflowShown)
  {
  }

  const Sandbox := "allow-popups allow-scripts allow-forms allow-same-origin"

  /** The attribute object of an iframe of the current plugin (lines 306-337):
      the base attributes, then the source, preload and background ones
      assigned over them. */
  function DemoIframeConfig(styles: string, scrolling: string, filePath: string, onCurrentSlide: bool,
                            preload: bool, isBackground: bool): Entries
  {
    Assign(BaseAttributes(styles, scrolling),
      SrcAttributes(filePath, onCurrentSlide) + PreloadAttributes(preload) + BackgroundAttributes(isBackground))
  }

  function BaseAttributes(styles: string, scrolling: string): Entries
  {
    [("class", VizClass), ("sandbox", Sandbox), ("style", styles), ("scrolling", scrolling)]
  }

  /** On the current slide the file loads at once (`src`); elsewhere it is
      left to the host's lazy loading (`data-src`). */
  function SrcAttributes(filePath: string, onCurrentSlide: bool): Entries
  {
    if onCurrentSlide then [("src", filePath), ("data-lazy-loaded", "")] else [("data-src", filePath)]
  }

  function PreloadAttributes(preload: bool): Entries
  {
    if preload then [("data-preload", "true")] else []
  }

  function BackgroundAttributes(isBackground: bool): Entries
  {
    if isBackground then
      [("allowfullscreen", ""), ("mozallowfullscreen", ""), ("webkitallowfullscreen", ""),
       ("width", "100%"), ("height", "100%")]
    else []
  }

  lemma {:induction false} GetLastConcat(a: Entries, b: Entries, k: string)
    ensures GetLast(a + b, k) == if GetLast(b, k).Some? then GetLast(b, k) else GetLast(a, k)
  {
    if |a| == 0 {
      assert a + b == b;
    } else {
      GetLastConcat(a[1..], b, k);
      assert (a + b)[1..] == a[1..] + b;
    }
  }

  /** Lookups in a list whose keys are known entry by entry. */
  lemma {:induction false} GetAt(o: Entries, i: nat)
    requires i < |o| && forall j | 0 <= j < i :: o[j].0 != o[i].0
    ensures Get(o, o[i].0) == Some(o[i].1)
  {
    if i > 0 {
      GetAt(o[1..], i - 1);
    }
  }

  lemma {:induction false} GetAbsent(o: Entries, k: string)
    requires forall j | 0 <= j < |o| :: o[j].0 != k
    ensures Get(o, k) == None && GetLast(o, k) == None
  {
    if |o| > 0 {
      GetAbsent(o[1..], k);
    }
  }

  lemma {:induction false} GetLastAt(o: Entries, i: nat)
    requires i < |o| && forall j | i < j < |o| :: o[j].0 != o[i].0
    ensures GetLast(o, o[i].0) == Some(o[i].1)
  {
    if i > 0 {
      GetLastAt(o[1..], i - 1);
    } else {
      GetAbsent(o[1..], o[0].0);
    }
  }

  /** With distinct keys the first and the last entry for a key are the same. */
  lemma {:induction false} GetLastDistinct(o: Entries, k: string)
    requires NoDuplicates(Keys(o))
    ensures GetLast(o, k) == Get(o, k)
  {
    if |o| > 0 {
      KeysOf(o);
      KeysOf(o[1..]);
      if o[0].0 == k {
        assert forall j | 0 <= j < |o[1..]| :: Keys(o)[j + 1] == o[1..][j].0;
        GetAbsent(o[1..], k);
      } else {
        assert forall i | 0 <= i < |Keys(o[1..])| :: Keys(o[1..])[i] == Keys(o)[i + 1];
        GetLastDistinct(o[1..], k);
      }
    }
  }

  /** The object built from a list of matches answers, for each key, the last match's value. */
  lemma FromMatches(matches: Entries, k: string)
    ensures Get(Assign([], matches), k) == GetLast(matches, k)
    ensures GetLast(Assign([], matches), k) == GetLast(matches, k)
    ensures NoDuplicates(Keys(Assign([], matches)))
  {
    AssignSpec([], matches);
    GetLastDistinct(Assign([], matches), k);
  }

  /** What the assigned attributes say about the class, the style and the file. */
  lemma ExtraLookup(filePath: string, onCurrentSlide: bool, preload: bool, isBackground: bool, k: string)
    requires k == "class" || k == "style" || k == "src" || k == "data-src"
    ensures GetLast(SrcAttributes(filePath, onCurrentSlide) + PreloadAttributes(preload)
        + BackgroundAttributes(isBackground), k)
      == if (k == "src" && onCurrentSlide) || (k == "data-src" && !onCurrentSlide) then Some(filePath) else None
  {
    var src, pre, bg := SrcAttributes(filePath, onCurrentSlide), PreloadAttributes(preload),
      BackgroundAttributes(isBackground);
    GetLastConcat(src + pre, bg, k);
    GetLastConcat(src, pre, k);
    GetAbsent(bg, k);
    GetAbsent(pre, k);
    if (k == "src" && onCurrentSlide) || (k == "data-src" && !onCurrentSlide) {
      GetLastAt(src, 0);
    } else {
      GetAbsent(src, k);
    }
  }

  /** The iframe carries the class the plugin recognises and its style
      string, and names the file either as `src` on the current slide or as
      `data-src` elsewhere, never both. */
  lemma DemoIframeConfigSpec(styles: string, scrolling: string, filePath: string, onCurrentSlide: bool,
                             preload: bool, isBackground: bool)
    ensures var c := DemoIframeConfig(styles, scrolling, filePath, onCurrentSlide, preload, isBackground);
      && Get(c, "class") == Some(VizClass)
      && Get(c, "style") == Some(styles)
      && (onCurrentSlide ==> Get(c, "src") == Some(filePath) && Get(c, "data-src") == None)
      && (!onCurrentSlide ==> Get(c, "data-src") == Some(filePath) && Get(c, "src") == None)
  {
    ConfigLookup(styles, scrolling, filePath, onCurrentSlide, preload, isBackground, "class");
    ConfigLookup(styles, scrolling, filePath, onCurrentSlide, preload, isBackground, "style");
    ConfigLookup(styles, scrolling, filePath, onCurrentSlide, preload, isBackground, "src");
    ConfigLookup(styles, scrolling, filePath, onCurrentSlide, preload, isBackground, "data-src");
  }

  lemma ConfigLookup(styles: string, scrolling: string, filePath: string, onCurrentSlide: bool,
                     preload: bool, isBackground: bool, k: string)
    requires k == "class" || k == "style" || k == "src" || k == "data-src"
    ensures Get(DemoIframeConfig(styles, scrolling, filePath, onCurrentSlide, preload, isBackground), k)
      == if k == "class" then Some(VizClass)
         else if k == "style" then Some(styles)
         else if (k == "src" && onCurrentSlide) || (k == "data-src" && !onCurrentSlide) then Some(filePath)
         else None
  {
    var base := BaseAttributes(styles, scrolling);
    var extra := SrcAttributes(filePath, onCurrentSlide) + PreloadAttributes(preload) + BackgroundAttributes(isBackground);
    AssignSpec(base, extra);
    ExtraLookup(filePath, onCurrentSlide, preload, isBackground, k);
    if k == "class" {
      GetAt(base, 0);
    } else if k == "style" {
      GetAt(base, 2);
    } else {
      GetAbsent(base, k);
    }
  }

  /** The attribute object of an iframe of the older variant (lines 324-329). */
  function LegacyIframeConfig(styles: string, filePath: string): (c: Entries)
  {
    [("class", VizClass), ("sandbox", Sandbox), ("src", filePath), ("style", styles)]
  }

  lemma LegacyIframeConfigSpec(styles: string, filePath: string)
    ensures var c := LegacyIframeConfig(styles, filePath);
      && Get(c, "class") == Some(VizClass)
      && Get(c, "src") == Some(filePath)
      && Get(c, "style") == Some(styles)
      && Get(c, "data-src") == None
      && NoDuplicates(Keys(c))
  {
    var c := LegacyIframeConfig(styles, filePath);
    KeysOf(c);
    GetAt(c, 0);
    GetAt(c, 2);
    GetAt(c, 3);
    GetAbsent(c, "data-src");
  }
}
