/**
 * The fragment-index reconciler shared by both variants of the plugin
 * (`generateVisualizationStepsIndices`): local step indices per
 * visualization, their sorted union, the remapping of overflow indices onto
 * new slide fragment indices, and one action table per visualization.
 */
module Reconciler {
  import opened Base
  import opened Steps

  // ---------------------------------------------------------------------
  // Local indices of one visualization's steps
  // ---------------------------------------------------------------------

  /** The `index` of the steps with `index >= 0`, in declared order. */
  function ExplicitIndices(steps: seq<Step>): (e: seq<int>)
    ensures |e| <= |steps|
    ensures forall k | k in e :: k >= 0
  {
    if |steps| == 0 then []
    else
      var rest := ExplicitIndices(steps[..|steps| - 1]);
      match steps[|steps| - 1].index
      case At(n) => if n >= 0 then rest + [n] else rest
      case _ => rest
  }

  /** Where the indices of the steps without an explicit index start. */
  function StartIndex(e: seq<int>): int
  {
    if |e| == 0 then 0 else Max(e) + 1
  }

  /** The local index list of one visualization: its explicit indices, then
      one consecutive index per remaining step. Entry `j` belongs to step `j`. */
  function LocalIndices(steps: seq<Step>): (r: seq<int>)
    ensures |r| == |steps|
    ensures forall k | 0 <= k < |r| :: r[k] >= 0
    ensures r[..|ExplicitIndices(steps)|] == ExplicitIndices(steps)
    ensures forall a, b | 0 <= a < |ExplicitIndices(steps)| <= b < |r| :: r[a] < r[b]
    ensures forall b | |ExplicitIndices(steps)| <= b < |r| ::
      r[b] == StartIndex(ExplicitIndices(steps)) + b - |ExplicitIndices(steps)|
  {
    var e := ExplicitIndices(steps);
    var r := e + Range(StartIndex(e), |steps| - |e|);
    assert forall a | 0 <= a < |e| :: r[a] in e;
    r
  }

  /** The push loop that appends the missing indices (lines 482-492). */
  method AssignLocalIndices(steps: seq<Step>) returns (indices: seq<int>)
    ensures indices == LocalIndices(steps)
  {
    var nSteps := |steps|;
    indices := ExplicitIndices(steps);
    ghost var e := indices;
    if |indices| < nSteps {
      var nToAdd := nSteps - |indices|;
      var start := if |indices| == 0 then 0 else Max(indices) + 1;
      for i := 0 to nToAdd
        invariant indices == e + Range(start, i)
      {
        indices := indices + [i + start];
      }
    }
  }

  function AllLocalIndices(allSteps: seq<seq<Step>>): (r: seq<seq<int>>)
    ensures |r| == |allSteps|
    ensures forall i | 0 <= i < |r| :: r[i] == LocalIndices(allSteps[i])
  {
    seq(|allSteps|, i requires 0 <= i < |allSteps| => LocalIndices(allSteps[i]))
  }

  // ---------------------------------------------------------------------
  // The union of all visualization indices and its remapping
  // ---------------------------------------------------------------------

  /** Every index occurring in some list. */
  function UnionOf(lists: seq<seq<int>>): set<int>
  {
    if |lists| == 0 then {} else UnionOf(lists[..|lists| - 1]) + Elements(lists[|lists| - 1])
  }

  /** The visualization indices below the number of authored fragment indices. */
  function Kept(u: set<int>, m: int): set<int>
  {
    set d | d in u && d < m
  }

  /** The overflow indices: those with no authored fragment index. */
  function Overflow(u: set<int>, m: int): set<int>
  {
    set d | d in u && d >= m
  }

  function OverflowBelow(u: set<int>, m: int, d: int): set<int>
  {
    set e | e in u && m <= e < d
  }

  /** The slide fragment index a visualization index `d` is mapped to when the
      slide has `m` distinct authored indices: an index below `m` maps to
      itself; the overflow index with `k` overflow indices below it maps to `m + k`. */
  function Remap(u: set<int>, m: int, d: int): int
  {
    if d < m then d else m + |OverflowBelow(u, m, d)|
  }

  /** The remapping keeps the order of the visualization indices, so distinct
      indices never share a slide fragment index. */
  lemma RemapMonotone(u: set<int>, m: int, d1: int, d2: int)
    requires d1 in u && d2 in u && d1 < d2
    ensures Remap(u, m, d1) < Remap(u, m, d2)
  {
    if d1 >= m {
      ProperSubsetCard(OverflowBelow(u, m, d1), OverflowBelow(u, m, d2), d1);
    }
  }

  /** An overflow index lands in `[m, m + K)`, K being the number of overflow indices. */
  lemma RemapOverflowBounds(u: set<int>, m: int, d: int)
    requires d in u && d >= m
    ensures m <= Remap(u, m, d) < m + |Overflow(u, m)|
  {
    ProperSubsetCard(OverflowBelow(u, m, d), Overflow(u, m), d);
  }

  /** The slide fragment indices of a list of visualization indices. */
  function RemappedKeys(indices: seq<int>, u: set<int>, m: int): (r: seq<int>)
    ensures |r| == |indices|
    ensures forall j | 0 <= j < |r| :: r[j] == Remap(u, m, indices[j])
  {
    seq(|indices|, j requires 0 <= j < |indices| => Remap(u, m, indices[j]))
  }

  /** A strictly increasing list with `x` added at its place. */
  function InsertSorted(s: seq<int>, x: int): seq<int>
  {
    if |s| == 0 then [x]
    else if x < s[0] then [x] + s
    else if x == s[0] then s
    else [s[0]] + InsertSorted(s[1..], x)
  }

  lemma {:induction false} InsertSortedElements(s: seq<int>, x: int)
    ensures Elements(InsertSorted(s, x)) == Elements(s) + {x}
  {
    if |s| == 0 {
    } else if x < s[0] {
      ElementsCons(x, s);
    } else if x == s[0] {
      assert s[0] in Elements(s);
    } else {
      InsertSortedElements(s[1..], x);
      ElementsCons(s[0], s[1..]);
      ElementsCons(s[0], InsertSorted(s[1..], x));
      assert s == [s[0]] + s[1..];
    }
  }

  lemma {:induction false} InsertSortedIncreasing(s: seq<int>, x: int)
    requires StrictlyIncreasing(s)
    ensures StrictlyIncreasing(InsertSorted(s, x))
  {
    if |s| == 0 {
    } else if x < s[0] {
      HeadBelow(s);
      assert forall k | 0 <= k < |s| :: s[k] in Elements(s);
      ConsIncreasing(x, s);
    } else if x == s[0] {
    } else {
      var tail := InsertSorted(s[1..], x);
      InsertSortedIncreasing(s[1..], x);
      InsertSortedElements(s[1..], x);
      HeadBelow(s);
      assert forall k | 0 <= k < |tail| :: tail[k] in Elements(tail);
      ConsIncreasing(s[0], tail);
    }
  }

  /** A head below every element of an increasing list keeps it increasing. */
  lemma ConsIncreasing(h: int, t: seq<int>)
    requires StrictlyIncreasing(t)
    requires forall k | 0 <= k < |t| :: h < t[k]
    ensures StrictlyIncreasing([h] + t)
  {
    var r := [h] + t;
    assert forall k | 0 < k < |r| :: r[k] == t[k - 1];
  }

  /** `[...new Set([].concat(...lists))].sort((a, b) => a - b)` (lines 496-497):
      every index once, ascending. The set-then-sort is done by inserting each
      index into a sorted list; by `SortedUnique` the result is the same list. */
  method SortedUnion(lists: seq<seq<int>>) returns (u: seq<int>)
    ensures StrictlyIncreasing(u)
    ensures Elements(u) == UnionOf(lists)
  {
    u := [];
    for i := 0 to |lists|
      invariant StrictlyIncreasing(u)
      invariant Elements(u) == UnionOf(lists[..i])
    {
      var list := lists[i];
      for j := 0 to |list|
        invariant StrictlyIncreasing(u)
        invariant Elements(u) == UnionOf(lists[..i]) + Elements(list[..j])
      {
        assert Elements(list[..j + 1]) == Elements(list[..j]) + {list[j]} by {
          assert list[..j + 1] == list[..j] + [list[j]];
        }
        InsertSortedIncreasing(u, list[j]);
        InsertSortedElements(u, list[j]);
        u := InsertSorted(u, list[j]);
      }
      assert lists[..i + 1][..i] == lists[..i];
      assert list[..|list|] == list;
    }
    assert lists[..|lists|] == lists;
  }

  /** `extraIndex.reduce(...)`: how many list entries are `>= m`. */
  function CountAtLeast(s: seq<int>, m: int): nat
  {
    if |s| == 0 then 0
    else CountAtLeast(s[..|s| - 1], m) + (if s[|s| - 1] >= m then 1 else 0)
  }

  lemma {:induction false} CountAtLeastPrefix(s: seq<int>, m: int, p: nat)
    requires p <= |s|
    ensures CountAtLeast(s[..p], m) <= CountAtLeast(s, m)
    decreases |s| - p
  {
    if p < |s| {
      CountAtLeastPrefix(s[..|s| - 1], m, p);
      assert s[..|s| - 1][..p] == s[..p];
    } else {
      assert s[..p] == s;
    }
  }

  /** In a strictly increasing list, the overflow indices below `s[p]` are the
      overflow indices of `s[..p]`. */
  lemma OverflowBelowPrefix(s: seq<int>, m: int, p: nat)
    requires StrictlyIncreasing(s) && p < |s|
    ensures OverflowBelow(Elements(s), m, s[p]) == Overflow(Elements(s[..p]), m)
  {
    forall e | e in OverflowBelow(Elements(s), m, s[p]) ensures e in Elements(s[..p]) {
      var q :| 0 <= q < |s| && s[q] == e;
      assert q < p;
      assert s[..p][q] == e;
    }
  }

  lemma PrefixElements(u: seq<int>, p: nat)
    requires p < |u|
    ensures Elements(u[..p + 1]) == Elements(u[..p]) + {u[p]}
  {
    assert u[..p + 1] == u[..p] + [u[p]];
  }

  lemma NotInPrefix(u: seq<int>, p: nat)
    requires StrictlyIncreasing(u) && p < |u|
    ensures u[p] !in Elements(u[..p])
  {
    assert forall q | 0 <= q < p :: u[..p][q] == u[q] && u[q] < u[p];
  }

  lemma CountStep(u: seq<int>, m: int, p: nat)
    requires p < |u|
    ensures CountAtLeast(u[..p + 1], m) == CountAtLeast(u[..p], m) + (if u[p] >= m then 1 else 0)
    ensures CountAtLeast(u[..p + 1], m) <= CountAtLeast(u, m)
  {
    assert u[..p + 1][..p] == u[..p];
    CountAtLeastPrefix(u, m, p + 1);
  }

  lemma OverflowStep(e: set<int>, d: int, m: int)
    ensures Overflow(e + {d}, m) == Overflow(e, m) + (if d >= m then {d} else {})
    ensures Kept(e + {d}, m) == Kept(e, m) + (if d < m then {d} else {})
  {
  }

  lemma RemapAt(u: seq<int>, m: int, p: nat)
    requires StrictlyIncreasing(u) && p < |u|
    ensures Remap(Elements(u), m, u[p]) == if u[p] < m then u[p] else m + |Overflow(Elements(u[..p]), m)|
  {
    OverflowBelowPrefix(u, m, p);
  }

  lemma IntervalStep(lo: int, hi: int)
    requires lo <= hi
    ensures Interval(lo, hi + 1) == Interval(lo, hi) + {hi}
  {
  }

  /** `u.map(d => hash[d])`. */
  function Lookup(hash: map<int, int>, u: seq<int>): (r: seq<int>)
    requires forall p | 0 <= p < |u| :: u[p] in hash
    ensures |r| == |u| && forall p | 0 <= p < |u| :: r[p] == hash[u[p]]
  {
    seq(|u|, p requires 0 <= p < |u| => hash[u[p]])
  }

  /** The state of the hash table loop after the first `p` indices of `u`. */
  predicate HashSoFar(u: seq<int>, m: int, hash: map<int, int>, count: int, p: nat)
    requires p <= |u|
  {
    && hash.Keys == Elements(u[..p])
    && count == CountAtLeast(u[..p], m) == |Overflow(Elements(u[..p]), m)|
    && (forall d | d in hash :: hash[d] == Remap(Elements(u), m, d))
  }

  lemma OverflowCountStep(u: seq<int>, m: int, p: nat)
    requires StrictlyIncreasing(u) && p < |u|
    ensures |Overflow(Elements(u[..p + 1]), m)| == |Overflow(Elements(u[..p]), m)| + (if u[p] >= m then 1 else 0)
  {
    PrefixElements(u, p);
    NotInPrefix(u, p);
    var o := Overflow(Elements(u[..p]), m);
    OverflowStep(Elements(u[..p]), u[p], m);
    if u[p] >= m {
      assert u[p] !in o;
      assert |o + {u[p]}| == |o| + 1;
    }
  }

  /** One iteration of the hash table loop, on an overflow index. */
  lemma HashStepOverflow(u: seq<int>, m: int, hash: map<int, int>, count: int, p: nat)
    requires StrictlyIncreasing(u) && p < |u| && u[p] > m - 1
    requires HashSoFar(u, m, hash, count, p)
    ensures HashSoFar(u, m, hash[u[p] := m + count], count + 1, p + 1)
    ensures count < CountAtLeast(u, m)
  {
    var h := hash[u[p] := m + count];
    assert h.Keys == Elements(u[..p + 1]) by {
      PrefixElements(u, p);
    }
    assert count + 1 == CountAtLeast(u[..p + 1], m) == |Overflow(Elements(u[..p + 1]), m)| by {
      CountStep(u, m, p);
      OverflowCountStep(u, m, p);
    }
    assert count < CountAtLeast(u, m) by {
      CountStep(u, m, p);
    }
    forall d | d in h ensures h[d] == Remap(Elements(u), m, d) {
      if d == u[p] {
        RemapAt(u, m, p);
      }
    }
  }

  /** One iteration of the hash table loop, on an index with an authored fragment. */
  lemma HashStepKept(u: seq<int>, m: int, hash: map<int, int>, count: int, p: nat)
    requires StrictlyIncreasing(u) && p < |u| && u[p] <= m - 1
    requires HashSoFar(u, m, hash, count, p)
    ensures HashSoFar(u, m, hash[u[p] := u[p]], count, p + 1)
  {
    var h := hash[u[p] := u[p]];
    assert h.Keys == Elements(u[..p + 1]) by {
      PrefixElements(u, p);
    }
    assert count == CountAtLeast(u[..p + 1], m) == |Overflow(Elements(u[..p + 1]), m)| by {
      CountStep(u, m, p);
      OverflowCountStep(u, m, p);
    }
  }

  lemma HashStart(u: seq<int>, m: int)
    ensures HashSoFar(u, m, map[], 0, 0)
  {
    assert u[..0] == [];
  }

  lemma HashDone(u: seq<int>, m: int, hash: map<int, int>, count: int)
    requires HashSoFar(u, m, hash, count, |u|)
    ensures hash.Keys == Elements(u)
    ensures forall d | d in hash :: hash[d] == Remap(Elements(u), m, d)
  {
    assert u[..|u|] == u;
  }

  /** The hash table of lines 513-523, with `fragmentIndexToCreate` of lines 500-511:
      each visualization index to its slide fragment index. */
  method BuildHashTable(u: seq<int>, nSlideFragmentSteps: nat) returns (hash: map<int, int>)
    requires StrictlyIncreasing(u)
    ensures hash.Keys == Elements(u)
    ensures forall d | d in hash :: hash[d] == Remap(Elements(u), nSlideFragmentSteps, d)
  {
    var m: int := nSlideFragmentSteps;
    var extraSteps := CountAtLeast(u, m);
    var fragmentIndexToCreate := if extraSteps == 0 then [] else Range(m, extraSteps);
    hash := map[];
    var count := 0;
    HashStart(u, m);
    for p := 0 to |u|
      invariant HashSoFar(u, m, hash, count, p)
    {
      if u[p] > m - 1 {
        HashStepOverflow(u, m, hash, count, p);
        hash := hash[u[p] := fragmentIndexToCreate[count]];
        count := count + 1;
      } else {
        HashStepKept(u, m, hash, count, p);
        hash := hash[u[p] := u[p]];
      }
    }
    HashDone(u, m, hash, count);
  }

  /** The slide fragment indices and the remapping of a list of visualization
      index lists, as both variants compute them (lines 496-526). */
  method RemapIndices(lists: seq<seq<int>>, nSlideFragmentSteps: nat)
    returns (hash: map<int, int>, markers: seq<int>)
    ensures hash.Keys == UnionOf(lists)
    ensures forall d | d in hash :: hash[d] == Remap(UnionOf(lists), nSlideFragmentSteps, d)
    ensures StrictlyIncreasing(markers)
    ensures |markers| == |UnionOf(lists)|
    ensures Elements(markers) == MarkerSet(UnionOf(lists), nSlideFragmentSteps)
  {
    var u := SortedUnion(lists);
    hash := BuildHashTable(u, nSlideFragmentSteps);
    assert forall p | 0 <= p < |u| :: u[p] in Elements(u);
    markers := Lookup(hash, u);
    MarkersOfHash(u, nSlideFragmentSteps, hash, markers);
  }

  /** The slide fragment indices after remapping: the kept indices, then one
      new index per overflow index, from `m` on with no gap. */
  function MarkerSet(u: set<int>, m: int): set<int>
  {
    Kept(u, m) + Interval(m, m + |Overflow(u, m)|)
  }

  /** The marker list is increasing, and it is exactly the kept indices followed
      by one new slide fragment index per overflow index, with no gap. */
  lemma MarkersOfHash(u: seq<int>, m: int, hash: map<int, int>, markers: seq<int>)
    requires StrictlyIncreasing(u)
    requires hash.Keys == Elements(u)
    requires forall d | d in hash :: hash[d] == Remap(Elements(u), m, d)
    requires |markers| == |u| && forall p | 0 <= p < |u| :: markers[p] == hash[u[p]]
    ensures StrictlyIncreasing(markers)
    ensures |markers| == |Elements(u)|
    ensures Elements(markers) == MarkerSet(Elements(u), m)
  {
    var all := Elements(u);
    forall p, q | 0 <= p < q < |markers| ensures markers[p] < markers[q] {
      assert u[p] < u[q];
      assert u[p] in all && u[q] in all;
      RemapMonotone(all, m, u[p], u[q]);
    }
    StrictCard(u);
    StrictCard(markers);
    var k := |Overflow(all, m)|;
    var target := Kept(all, m) + Interval(m, m + k);
    forall x | x in Elements(markers) ensures x in target {
      var p :| 0 <= p < |markers| && markers[p] == x;
      assert u[p] in all;
      if u[p] >= m {
        RemapOverflowBounds(all, m, u[p]);
      }
    }
    PartitionCard(all, m);
    IntervalCard(m, k);
    assert Kept(all, m) * Interval(m, m + k) == {};
    EqualBySubsetCard(Elements(markers), target);
  }

  /** Every index is either kept or overflow. */
  lemma PartitionCard(u: set<int>, m: int)
    ensures |u| == |Kept(u, m)| + |Overflow(u, m)|
  {
    assert u == Kept(u, m) + Overflow(u, m);
    assert Kept(u, m) * Overflow(u, m) == {};
  }

  lemma IntervalCard(lo: int, n: nat)
    ensures |Interval(lo, lo + n)| == n
  {
    var r := Range(lo, n);
    assert StrictlyIncreasing(r);
    StrictCard(r);
    assert Interval(lo, lo + n) == Elements(r);
  }

  lemma EqualBySubsetCard(a: set<int>, b: set<int>)
    requires a <= b && |a| == |b|
    ensures a == b
  {
    assert b == a + (b - a);
    assert a * (b - a) == {};
    assert |b - a| == 0;
    forall x | x in b ensures x in a {
      assert x !in b - a;
    }
  }

  // ---------------------------------------------------------------------
  // Action tables
  // ---------------------------------------------------------------------

  /** No position of `keys` after `j` and before `n` holds the key at position `j`. */
  predicate LastBefore(keys: seq<int>, j: int, n: int)
    requires 0 <= j < n <= |keys|
  {
    forall j' | j < j' < n :: keys[j'] != keys[j]
  }

  /** `t` is the table that stores `Entry(steps, j)` under `keys[j]` for every
      `j < n`, a later step overwriting an earlier one with the same key. */
  predicate TableUpTo(t: ActionTable, steps: seq<Step>, keys: seq<int>, n: nat)
    requires n <= |keys| <= |steps|
  {
    && t.Keys == (set j | 0 <= j < n :: keys[j])
    && forall j | 0 <= j < n && LastBefore(keys, j, n) :: t[keys[j]] == Entry(steps, j)
  }

  predicate IsActionTable(t: ActionTable, steps: seq<Step>, keys: seq<int>)
    requires |keys| <= |steps|
  {
    TableUpTo(t, steps, keys, |keys|)
  }

  /** One more position adds its key to the key set. */
  lemma KeySetStep(keys: seq<int>, j: nat)
    requires j < |keys|
    ensures (set j0 | 0 <= j0 < j + 1 :: keys[j0]) == (set j0 | 0 <= j0 < j :: keys[j0]) + {keys[j]}
  {
  }

  /** Storing the entry of step `j` extends a table for the first `j` keys to the first `j + 1`. */
  lemma TableStep(t: ActionTable, steps: seq<Step>, keys: seq<int>, j: nat)
    requires j < |keys| <= |steps|
    requires TableUpTo(t, steps, keys, j)
    ensures TableUpTo(t[keys[j] := Entry(steps, j)], steps, keys, j + 1)
  {
    KeySetStep(keys, j);
    assert forall j0 | 0 <= j0 < j :: keys[j0] in t;
    EntriesStep(t, steps, keys, j);
  }

  /** The entries part of `TableStep`: only the key just stored changes. */
  lemma EntriesStep(t: ActionTable, steps: seq<Step>, keys: seq<int>, j: nat)
    requires j < |keys| <= |steps|
    requires forall j0 | 0 <= j0 < j :: keys[j0] in t
    requires forall j0 | 0 <= j0 < j && LastBefore(keys, j0, j) :: t[keys[j0]] == Entry(steps, j0)
    ensures forall j0 | 0 <= j0 < j + 1 && LastBefore(keys, j0, j + 1) ::
      t[keys[j] := Entry(steps, j)][keys[j0]] == Entry(steps, j0)
  {
    forall j0 | 0 <= j0 < j + 1 && LastBefore(keys, j0, j + 1)
      ensures t[keys[j] := Entry(steps, j)][keys[j0]] == Entry(steps, j0)
    {
      if j0 < j {
        assert LastBefore(keys, j0, j);
      }
    }
  }

  function Min(a: int, b: int): int
  {
    if a <= b then a else b
  }

  /** The loop of lines 536-541: step `j` is stored under the slide fragment
      index of `indices[j]`. (In JavaScript a step past the end of `indices`
      lands under the key "undefined", which no numeric lookup reaches; that
      write is not modelled.) */
  method BuildActionTable(steps: seq<Step>, indices: seq<int>, hash: map<int, int>)
    returns (t: ActionTable)
    requires forall j | 0 <= j < |indices| :: indices[j] in hash
    ensures var n := Min(|indices|, |steps|);
      IsActionTable(t, steps, seq(n, j requires 0 <= j < n => hash[indices[j]]))
  {
    ghost var n := Min(|indices|, |steps|);
    ghost var keys := seq(n, j requires 0 <= j < n => hash[indices[j]]);
    t := map[];
    for j := 0 to |steps|
      invariant TableUpTo(t, steps, keys, Min(j, n))
    {
      if j < |indices| {
        TableStep(t, steps, keys, j);
        t := t[hash[indices[j]] := Entry(steps, j)];
      }
    }
  }

  /** What the table stores for a visualization index: the entry of the last
      step whose local index is `d`. */
  lemma TableLookup(t: ActionTable, steps: seq<Step>, indices: seq<int>, u: set<int>, m: int, j: nat)
    requires |indices| <= |steps| && Elements(indices) <= u
    requires IsActionTable(t, steps, RemappedKeys(indices, u, m))
    requires j < |indices| && forall j' | j < j' < |indices| :: indices[j'] != indices[j]
    ensures Remap(u, m, indices[j]) in t
    ensures t[Remap(u, m, indices[j])] == Entry(steps, j)
  {
    var keys := RemappedKeys(indices, u, m);
    forall j' | j < j' < |keys| ensures keys[j'] != keys[j] {
      assert indices[j'] in u && indices[j] in u;
      if indices[j'] < indices[j] {
        RemapMonotone(u, m, indices[j'], indices[j]);
      } else {
        RemapMonotone(u, m, indices[j], indices[j']);
      }
    }
  }

  // ---------------------------------------------------------------------
  // The whole reconciler
  // ---------------------------------------------------------------------

  /** Every index of one of the lists is in their union. */
  lemma {:induction false} UnionContains(lists: seq<seq<int>>, i: nat)
    requires i < |lists|
    ensures Elements(lists[i]) <= UnionOf(lists)
  {
    if i < |lists| - 1 {
      UnionContains(lists[..|lists| - 1], i);
    }
  }

  /** `generateVisualizationStepsIndices` of the current plugin: the action
      table of every visualization, in order, and the slide fragment indices
      the marker spans must carry. Table `i` stores step `j` of visualization
      `i` under the remapped local index of step `j`. */
  method GenerateVisualizationStepsIndices(allVisualizationSteps: seq<seq<Step>>, nSlideFragmentSteps: nat)
    returns (tables: seq<ActionTable>, spansToCreate: seq<int>)
    ensures |tables| == |allVisualizationSteps|
    ensures forall i | 0 <= i < |tables| ::
      IsActionTable(tables[i], allVisualizationSteps[i],
        RemappedKeys(LocalIndices(allVisualizationSteps[i]), UnionOf(AllLocalIndices(allVisualizationSteps)),
          nSlideFragmentSteps))
    ensures StrictlyIncreasing(spansToCreate)
    ensures |spansToCreate| == |UnionOf(AllLocalIndices(allVisualizationSteps))|
    ensures Elements(spansToCreate) == MarkerSet(UnionOf(AllLocalIndices(allVisualizationSteps)), nSlideFragmentSteps)
  {
    var allVisualizationIndices := AssignAllLocalIndices(allVisualizationSteps);
    var hash;
    hash, spansToCreate := RemapIndices(allVisualizationIndices, nSlideFragmentSteps);
    tables := BuildActionTables(allVisualizationSteps, allVisualizationIndices, hash, nSlideFragmentSteps);
  }

  /** The first loop of the reconciler (lines 482-493 of the current plugin). */
  method AssignAllLocalIndices(allVisualizationSteps: seq<seq<Step>>) returns (allVisualizationIndices: seq<seq<int>>)
    ensures allVisualizationIndices == AllLocalIndices(allVisualizationSteps)
  {
    allVisualizationIndices := [];
    for i := 0 to |allVisualizationSteps|
      invariant |allVisualizationIndices| == i
      invariant forall k | 0 <= k < i :: allVisualizationIndices[k] == LocalIndices(allVisualizationSteps[k])
    {
      var visualizationIndices := AssignLocalIndices(allVisualizationSteps[i]);
      allVisualizationIndices := allVisualizationIndices + [visualizationIndices];
    }
  }

  /** The last loop of the reconciler: one table per visualization, its
      steps paired with the index list at the same position. */
  method BuildActionTables(allVisualizationSteps: seq<seq<Step>>, allVisualizationIndices: seq<seq<int>>,
                           hash: map<int, int>, m: nat)
    returns (tables: seq<ActionTable>)
    requires |allVisualizationIndices| == |allVisualizationSteps|
    requires forall i | 0 <= i < |allVisualizationSteps| ::
      |allVisualizationIndices[i]| == |allVisualizationSteps[i]|
    requires hash.Keys == UnionOf(allVisualizationIndices)
    requires forall d | d in hash :: hash[d] == Remap(UnionOf(allVisualizationIndices), m, d)
    ensures |tables| == |allVisualizationSteps|
    ensures forall i | 0 <= i < |tables| ::
      IsActionTable(tables[i], allVisualizationSteps[i],
        RemappedKeys(allVisualizationIndices[i], UnionOf(allVisualizationIndices), m))
  {
    tables := [];
    for i := 0 to |allVisualizationSteps|
      invariant |tables| == i
      invariant forall k | 0 <= k < i ::
        IsActionTable(tables[k], allVisualizationSteps[k],
          RemappedKeys(allVisualizationIndices[k], UnionOf(allVisualizationIndices), m))
    {
      var t := BuildOneTable(allVisualizationSteps[i], allVisualizationIndices, i, hash, m);
      tables := tables + [t];
    }
  }

  method BuildOneTable(steps: seq<Step>, lists: seq<seq<int>>, i: nat, hash: map<int, int>, m: nat)
    returns (t: ActionTable)
    requires i < |lists| && |lists[i]| == |steps|
    requires hash.Keys == UnionOf(lists)
    requires forall d | d in hash :: hash[d] == Remap(UnionOf(lists), m, d)
    ensures IsActionTable(t, steps, RemappedKeys(lists[i], UnionOf(lists), m))
  {
    var indices := lists[i];
    UnionContains(lists, i);
    assert forall j | 0 <= j < |indices| :: indices[j] in Elements(indices);
    t := BuildActionTable(steps, indices, hash);
    ghost var n := Min(|indices|, |steps|);
    ghost var keys := seq(n, j requires 0 <= j < n => hash[indices[j]]);
    assert IsActionTable(t, steps, keys);
    assert keys == RemappedKeys(indices, UnionOf(lists), m);
  }

  /** What the reconciler promises for the step lists `lists` of a slide with
      `m` authored indices: table `i` stores the steps of list `i` under their
      remapped local indices, and the marker indices are increasing and
      exactly the kept indices and one new index per overflow index. */
  predicate Reconciled(lists: seq<seq<Step>>, m: nat, tables: seq<ActionTable>, spansToCreate: seq<int>)
  {
    var u := UnionOf(AllLocalIndices(lists));
    && |tables| == |lists|
    && (forall i | 0 <= i < |tables| :: IsActionTable(tables[i], lists[i], RemappedKeys(LocalIndices(lists[i]), u, m)))
    && StrictlyIncreasing(spansToCreate)
    && Elements(spansToCreate) == MarkerSet(u, m)
  }
}
