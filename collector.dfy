/**
 * `getUniqueFragmentIndices`: the distinct `data-fragment-index` values of
 * the authored fragments of a slide, in the order they first occur, and the
 * filters the two variants use to leave the plugin's own marker spans out.
 */
module Collector {
  import opened Base
  import opened Dom
  import opened Playback

  // ---------------------------------------------------------------------
  // Which fragments count as authored
  // ---------------------------------------------------------------------

  /** The elements of `fs` that `keep` accepts, in document order. */
  function Filter(fs: seq<Fragment>, keep: Fragment -> bool): seq<Fragment>
  {
    if |fs| == 0 then []
    else Filter(fs[..|fs| - 1], keep) + (if keep(fs[|fs| - 1]) then [fs[|fs| - 1]] else [])
  }

  /** The filtered list holds exactly the accepted elements. */
  lemma {:induction false} FilterMembers(fs: seq<Fragment>, keep: Fragment -> bool)
    ensures |Filter(fs, keep)| <= |fs|
    ensures forall f :: f in Filter(fs, keep) <==> f in fs && keep(f)
  {
    if |fs| > 0 {
      var init := fs[..|fs| - 1];
      FilterMembers(init, keep);
      assert fs == init + [fs[|fs| - 1]];
    }
  }

  /** The current plugin's filter as written (line 246):
      `!d.getAttribute("class").split().includes("visualizationStep")`.
      `split()` without a separator yields the whole attribute as one item, so
      the test compares the whole class attribute with `visualizationStep`. */
  predicate DemoKeepsAsWritten(f: Fragment)
  {
    StepClass !in [ClassName(f)]
  }

  /** No `.fragment` element has the class attribute `visualizationStep`, so
      the filter as written never removes anything, marker spans included. */
  lemma DemoFilterRemovesNothing(f: Fragment)
    requires IsFragment(f)
    ensures DemoKeepsAsWritten(f)
  {
    assert !Contains(StepClass, FragmentClass) by {
      forall i | 0 <= i <= |StepClass| - |FragmentClass| ensures !OccursAt(StepClass, FragmentClass, i) {
        assert StepClass[i] != 'f';
      }
    }
    ContainsToken(f.classes, FragmentClass);
  }

  /** A marker span created by the write-back survives the filter as written. */
  lemma DemoFilterKeepsMarkers(markVisible: bool)
    ensures DemoKeepsAsWritten(NewSpan(markVisible))
  {
    NewSpanIsMarker(markVisible);
    DemoFilterRemovesNothing(NewSpan(markVisible));
  }

  /** The filter the comment of line 245 describes: a fragment is authored
      unless `visualizationStep` is one of its class tokens. This is the
      corrected filter of the current plugin; `GetUniqueFragmentIndices`
      takes it as its `keep` argument. */
  predicate Authored(f: Fragment)
  {
    StepClass !in f.classes
  }

  /** Among `.fragment` elements the authored ones are exactly those that
      are not marker spans. */
  lemma {:induction false} AuthoredAreOthers(fs: seq<Fragment>)
    ensures Filter(Filter(fs, IsFragment), Authored) == Filter(Others(fs), IsFragment)
  {
    if |fs| > 0 {
      var init := fs[..|fs| - 1];
      var last := fs[|fs| - 1];
      AuthoredAreOthers(init);
      var a := Filter(init, IsFragment);
      if IsFragment(last) {
        assert Filter(fs, IsFragment) == a + [last];
        assert (a + [last])[..|a|] == a;
      } else {
        assert Filter(fs, IsFragment) == a;
      }
      var o := Others(init);
      if !IsMarker(last) {
        assert Others(fs) == o + [last];
        assert (o + [last])[..|o|] == o;
      } else {
        assert Others(fs) == o;
      }
    }
  }

  /** The write-back leaves the authored fragments alone, so collecting them
      again after a load gives the same list. */
  lemma AuthoredAfterWriteBack(fs: seq<Fragment>, vals: seq<int>, markVisible: bool)
    ensures Filter(Filter(WrittenBack(fs, vals, markVisible), IsFragment), Authored)
      == Filter(Filter(fs, IsFragment), Authored)
  {
    WriteBackContract(fs, vals, markVisible);
    AuthoredAreOthers(fs);
    AuthoredAreOthers(WrittenBack(fs, vals, markVisible));
  }

  /** The older variant's filter (line 182): the class name must not contain
      `visualizationStep` anywhere. */
  predicate LegacyKeeps(f: Fragment)
  {
    !Contains(ClassName(f), StepClass)
  }

  /** The older filter removes every marker span, and also some fragments whose
      class merely contains the word. */
  lemma LegacyKeepsOnlyAuthored(f: Fragment)
    ensures LegacyKeeps(f) ==> Authored(f)
    ensures var g := Fragment([FragmentClass, "visualizationSteps"], None);
      Authored(g) && !LegacyKeeps(g)
  {
    if !Authored(f) {
      ContainsToken(f.classes, StepClass);
    }
    var g := Fragment([FragmentClass, "visualizationSteps"], None);
    assert g.classes[..1] == [FragmentClass];
    assert Join(g.classes[..1]) == FragmentClass;
    assert |g.classes| == 2;
    assert ClassName(g) == Join(g.classes[..1]) + " " + g.classes[1];
    assert ClassName(g) == FragmentClass + " " + "visualizationSteps";
    assert OccursAt("visualizationSteps", StepClass, 0);
    ContainsInConcat(FragmentClass + " ", "visualizationSteps", "", StepClass);
    assert FragmentClass + " " + "visualizationSteps" + "" == ClassName(g);
  }

  // ---------------------------------------------------------------------
  // Distinct values in first-occurrence order
  // ---------------------------------------------------------------------

  /** `[...new Set(xs)]`: the distinct values, each where it first occurs (a
      `Set` treats every NaN as the same value, as `None == None`). */
  function Dedupe<T(==)>(xs: seq<T>): seq<T>
  {
    if |xs| == 0 then []
    else
      var init := xs[..|xs| - 1];
      Dedupe(init) + (if xs[|xs| - 1] in init then [] else [xs[|xs| - 1]])
  }

  /** The position of the first occurrence of `x`. */
  function FirstIndex<T(==)>(xs: seq<T>, x: T): (k: nat)
    requires x in xs
    ensures k < |xs| && xs[k] == x
    ensures forall j | 0 <= j < k :: xs[j] != x
  {
    if xs[0] == x then 0 else 1 + FirstIndex(xs[1..], x)
  }

  lemma FirstIndexPrefix<T>(xs: seq<T>, n: nat, x: T)
    requires n <= |xs| && x in xs[..n]
    ensures FirstIndex(xs, x) == FirstIndex(xs[..n], x)
  {
    var k := FirstIndex(xs[..n], x);
    assert xs[k] == x;
    assert forall j | 0 <= j < k :: xs[j] == xs[..n][j];
  }

  /** The deduplicated list holds every value once, no other value, and the
      values in the order of their first occurrence. */
  lemma {:induction false} DedupeSpec<T>(xs: seq<T>)
    ensures NoDuplicates(Dedupe(xs))
    ensures Elements(Dedupe(xs)) == Elements(xs)
    ensures forall i, j | 0 <= i < j < |Dedupe(xs)| ::
      Dedupe(xs)[i] in xs && Dedupe(xs)[j] in xs && FirstIndex(xs, Dedupe(xs)[i]) < FirstIndex(xs, Dedupe(xs)[j])
  {
    if |xs| > 0 {
      var init := xs[..|xs| - 1];
      var last := xs[|xs| - 1];
      var d := Dedupe(init);
      DedupeSpec(init);
      assert Elements(xs) == Elements(init) + {last} by {
        assert xs == init + [last];
      }
      forall x | x in init ensures FirstIndex(xs, x) == FirstIndex(init, x) && FirstIndex(init, x) < |init| {
        FirstIndexPrefix(xs, |xs| - 1, x);
      }
      if last !in init {
        var r := d + [last];
        assert Dedupe(xs) == r;
        assert forall i | 0 <= i < |d| :: d[i] in Elements(init);
        assert FirstIndex(xs, last) == |xs| - 1 by {
          assert forall j | 0 <= j < |xs| - 1 :: xs[j] != last by {
            assert forall j | 0 <= j < |xs| - 1 :: xs[j] == init[j];
          }
        }
        forall i, j | 0 <= i < j < |r|
          ensures r[i] in xs && r[j] in xs && FirstIndex(xs, r[i]) < FirstIndex(xs, r[j])
        {
          assert r[i] == d[i] && r[i] in init;
          if j < |d| {
            assert r[j] == d[j] && r[j] in init;
          }
        }
      } else {
        assert Dedupe(xs) == d;
        forall i | 0 <= i < |d| ensures d[i] in init {
          assert d[i] in Elements(init);
        }
      }
    }
  }

  /** Fragments that share an index, or that all lack one, count once. */
  lemma DedupeCountsOnce()
    ensures Dedupe([Some(1), None, Some(1), None]) == [Some(1), None]
  {
    var xs := [Some(1), None, Some(1), None];
    assert xs[..1][..0] == [];
    assert Dedupe(xs[..1]) == [Some(1)];
    assert xs[..2][..1] == xs[..1];
    assert Dedupe(xs[..2]) == [Some(1), None];
    assert xs[..3][..2] == xs[..2];
    assert Some(1) in xs[..2];
    assert Dedupe(xs[..3]) == [Some(1), None];
    assert None in xs[..3];
  }

  /** `getUniqueFragmentIndices` with the filter `keep`: the `.fragment`
      elements of the slide that pass it, their parsed indices collected in a
      loop, then deduplicated. */
  method GetUniqueFragmentIndices(elements: seq<Fragment>, keep: Fragment -> bool)
    returns (fragmentIndices: seq<Option<int>>)
    ensures fragmentIndices == Dedupe(IndicesOf(Filter(Filter(elements, IsFragment), keep)))
  {
    var slideFragments := Filter(Filter(elements, IsFragment), keep);
    fragmentIndices := [];
    for i := 0 to |slideFragments|
      invariant fragmentIndices == IndicesOf(slideFragments[..i])
    {
      fragmentIndices := fragmentIndices + [slideFragments[i].index];
    }
    assert slideFragments[..|slideFragments|] == slideFragments;
    fragmentIndices := Dedupe(fragmentIndices);
  }
}
