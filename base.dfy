/** Small value types and facts about sequences and sets of integers used by every other module. */
module Base {

  /** The JavaScript `undefined`/`null` versus a present value. */
  datatype Option<T> = None | Some(value: T)

  /** A JavaScript action id: firing an action appends its id to a trace. */
  type Trace = seq<int>

  function Elements<T>(s: seq<T>): set<T>
  {
    set x | x in s
  }

  predicate StrictlyIncreasing(s: seq<int>)
  {
    forall i, j | 0 <= i < j < |s| :: s[i] < s[j]
  }

  predicate NoDuplicates<T(==)>(s: seq<T>)
  {
    forall i, j | 0 <= i < j < |s| :: s[i] != s[j]
  }

  /** `[start, start + 1, ..., start + n - 1]`. */
  function Range(start: int, n: nat): (r: seq<int>)
    ensures |r| == n
    ensures forall i | 0 <= i < n :: r[i] == start + i
  {
    seq(n, i => start + i)
  }

  /** The integers `lo <= k < hi`. */
  function Interval(lo: int, hi: int): (r: set<int>)
    ensures forall k :: k in r <==> lo <= k < hi
  {
    var s := Range(lo, if lo <= hi then hi - lo else 0);
    forall k | lo <= k < hi ensures k in Elements(s) {
      assert s[k - lo] == k;
    }
    Elements(s)
  }

  /** `Math.max.apply(null, s)` on a non-empty list. */
  function Max(s: seq<int>): (m: int)
    requires |s| > 0
    ensures m in s
    ensures forall x | x in s :: x <= m
  {
    if |s| == 1 then s[0]
    else
      var rest := Max(s[1..]);
      assert forall x | x in s :: x == s[0] || x in s[1..];
      if s[0] >= rest then s[0] else rest
  }

  /** JavaScript `String.prototype.includes`: `t` occurs in `s` as a contiguous block. */
  predicate Contains(s: string, t: string)
  {
    exists i | 0 <= i <= |s| - |t| :: OccursAt(s, t, i)
  }

  predicate OccursAt(s: string, t: string, i: int)
  {
    0 <= i && i + |t| <= |s| && s[i..i + |t|] == t
  }

  lemma ContainsInConcat(a: string, b: string, c: string, t: string)
    requires Contains(b, t)
    ensures Contains(a + b + c, t)
  {
    var i :| 0 <= i <= |b| - |t| && OccursAt(b, t, i);
    var s := a + b + c;
    assert s[|a| + i..|a| + i + |t|] == b[i..i + |t|];
    assert OccursAt(s, t, |a| + i);
  }

  /** What one part of a concatenation contains, the concatenation contains. */
  lemma ContainsInAppend(a: string, b: string, t: string)
    requires Contains(a, t) || Contains(b, t)
    ensures Contains(a + b, t)
  {
    var s := a + b;
    if Contains(b, t) {
      var i :| 0 <= i <= |b| - |t| && OccursAt(b, t, i);
      assert s[|a| + i..|a| + i + |t|] == b[i..i + |t|];
      assert OccursAt(s, t, |a| + i);
    } else {
      var i :| 0 <= i <= |a| - |t| && OccursAt(a, t, i);
      assert s[i..i + |t|] == a[i..i + |t|];
      assert OccursAt(s, t, i);
    }
  }

  /** A strictly increasing list has as many elements as its length. */
  lemma {:induction false} StrictCard(s: seq<int>)
    requires StrictlyIncreasing(s)
    ensures |Elements(s)| == |s|
  {
    if |s| > 0 {
      var init := s[..|s| - 1];
      StrictCard(init);
      assert Elements(s) == Elements(init) + {s[|s| - 1]};
      assert s[|s| - 1] !in Elements(init);
    }
  }

  /** The first element of a strictly increasing list is below all the others. */
  lemma HeadBelow(s: seq<int>)
    requires StrictlyIncreasing(s) && |s| > 0
    ensures forall x | x in Elements(s[1..]) :: s[0] < x
    ensures forall x | x in Elements(s) :: s[0] <= x
  {
    forall x | x in Elements(s) ensures s[0] <= x && (x in Elements(s[1..]) ==> s[0] < x) {
      var i :| 0 <= i < |s| && s[i] == x;
      if i > 0 {
        assert s[0] < s[i];
      }
      if x in Elements(s[1..]) {
        var k :| 0 <= k < |s| - 1 && s[1..][k] == x;
        assert s[0] < s[k + 1];
      }
    }
  }

  lemma ElementsCons<T>(h: T, t: seq<T>)
    ensures Elements([h] + t) == {h} + Elements(t)
  {
    assert forall k | 0 <= k < |t| :: ([h] + t)[k + 1] == t[k];
  }

  /** A strictly increasing list is determined by its set of elements. */
  lemma {:induction false} SortedUnique(a: seq<int>, b: seq<int>)
    requires StrictlyIncreasing(a) && StrictlyIncreasing(b)
    requires Elements(a) == Elements(b)
    ensures a == b
  {
    if |a| == 0 {
      StrictCard(b);
    } else {
      assert |b| > 0 by {
        assert a[0] in Elements(b);
      }
      assert a[0] == b[0] by {
        HeadBelow(a);
        HeadBelow(b);
        assert a[0] in Elements(b) && b[0] in Elements(a);
      }
      assert Elements(a[1..]) == Elements(b[1..]) by {
        HeadBelow(a);
        HeadBelow(b);
        ElementsCons(a[0], a[1..]);
        ElementsCons(b[0], b[1..]);
        assert a == [a[0]] + a[1..] && b == [b[0]] + b[1..];
      }
      SortedUnique(a[1..], b[1..]);
      assert a == [a[0]] + a[1..] && b == [b[0]] + b[1..];
    }
  }

  /** A subset of a finite set is no larger than the set. */
  lemma {:induction false} SubsetCard<T>(a: set<T>, b: set<T>)
    requires a <= b
    ensures |a| <= |b|
    decreases |a|
  {
    if a != {} {
      var x :| x in a;
      SubsetCard(a - {x}, b - {x});
    }
  }

  /** A subset that misses an element of the larger set is strictly smaller. */
  lemma ProperSubsetCard<T>(a: set<T>, b: set<T>, x: T)
    requires a <= b && x in b && x !in a
    ensures |a| < |b|
  {
    SubsetCard(a, b - {x});
  }
}
