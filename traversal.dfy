/**
  Target resolution of the Enter handler: the registered keys are sorted the way
  `Array.prototype.sort` sorts without a comparator (by their string forms, section
  23.1.3.30 of ECMA-262), then the forward step takes a POSITION in that array from
  `findIndex`, and the backward step takes `Math.max` (section 21.3.2.24 of ECMA-262)
  of the keys below the current one. Both copies of the hook share this code.
 */
module Traversal {
  import opened Wrappers

  // ---------------------------------------------------------------------------
  // String forms of integer keys (Number::toString for integers below 10^21 in
  // magnitude; from there JavaScript prints exponent form, which is not modelled)
  // ---------------------------------------------------------------------------

  /** The decimal digit character for `d`. */
  function DigitChar(d: nat): (c: char)
    requires d < 10
    ensures '0' <= c <= '9'
    ensures c as int - '0' as int == d
  {
    ('0' as int + d) as char
  }

  /** The decimal digits of `n`, most significant first, without leading zeros. */
  function Digits(n: nat): (s: string)
    ensures |s| >= 1
    ensures (|s| == 1) == (n < 10)
    ensures forall i :: 0 <= i < |s| ==> '0' <= s[i] <= '9'
  {
    if n < 10 then [DigitChar(n)] else Digits(n / 10) + [DigitChar(n % 10)]
  }

  /**
    The string a key is compared by: a minus sign for negative keys, then its digits.
    This is what JavaScript prints only for keys below 10^21 in magnitude.
   */
  function KeyString(k: int): (s: string)
    ensures |s| >= 1
    ensures (s[0] == '-') == (k < 0)
  {
    if k < 0 then "-" + Digits(-k) else Digits(k)
  }

  lemma {:induction false} DigitsInjective(a: nat, b: nat)
    requires Digits(a) == Digits(b)
    ensures a == b
  {
    if a >= 10 && b >= 10 {
      var sa, sb := Digits(a), Digits(b);
      assert sa == Digits(a / 10) + [DigitChar(a % 10)];
      assert sb == Digits(b / 10) + [DigitChar(b % 10)];
      assert Digits(a / 10) == sa[..|sa| - 1];
      assert Digits(b / 10) == sb[..|sb| - 1];
      assert DigitChar(a % 10) == sa[|sa| - 1];
      assert DigitChar(b % 10) == sb[|sb| - 1];
      DigitsInjective(a / 10, b / 10);
    } else if a < 10 && b < 10 {
      assert DigitChar(a) == Digits(a)[0];
      assert DigitChar(b) == Digits(b)[0];
    }
  }

  /** Distinct keys have distinct string forms. */
  lemma KeyStringInjective(a: int, b: int)
    requires KeyString(a) == KeyString(b)
    ensures a == b
  {
    if a < 0 && b < 0 {
      assert Digits(-a) == KeyString(a)[1..];
      assert Digits(-b) == KeyString(b)[1..];
      DigitsInjective(-a, -b);
    } else if a >= 0 && b >= 0 {
      DigitsInjective(a, b);
    }
  }

  // ---------------------------------------------------------------------------
  // Lexicographic order of strings by code unit (IsLessThan on two strings)
  // ---------------------------------------------------------------------------

  /** `a` sorts before `b`: a proper prefix is smaller, otherwise the first differing character decides. */
  predicate LexLess(a: string, b: string)
  {
    if |a| == 0 then |b| != 0
    else if |b| == 0 then false
    else if a[0] != b[0] then a[0] < b[0]
    else LexLess(a[1..], b[1..])
  }

  lemma {:induction false} LexIrreflexive(a: string)
    ensures !LexLess(a, a)
  {
    if |a| != 0 {
      LexIrreflexive(a[1..]);
    }
  }

  lemma {:induction false} LexTransitive(a: string, b: string, c: string)
    requires LexLess(a, b) && LexLess(b, c)
    ensures LexLess(a, c)
  {
    if |a| != 0 && |b| != 0 && |c| != 0 && a[0] == b[0] && b[0] == c[0] {
      LexTransitive(a[1..], b[1..], c[1..]);
    }
  }

  lemma {:induction false} LexTotal(a: string, b: string)
    requires a != b
    ensures LexLess(a, b) || LexLess(b, a)
  {
    if |a| != 0 && |b| != 0 && a[0] == b[0] {
      assert a == [a[0]] + a[1..];
      assert b == [b[0]] + b[1..];
      LexTotal(a[1..], b[1..]);
    }
  }

  // ---------------------------------------------------------------------------
  // The order the comparator-less sort puts keys in
  // ---------------------------------------------------------------------------

  /** Key `a` sorts strictly before key `b`: the default comparator. */
  predicate KeyLess(a: int, b: int)
  {
    LexLess(KeyString(a), KeyString(b))
  }

  /** The string order on keys is irreflexive, transitive and total on distinct keys. */
  lemma KeyOrderFacts(a: int, b: int, c: int)
    ensures !KeyLess(a, a)
    ensures KeyLess(a, b) && KeyLess(b, c) ==> KeyLess(a, c)
    ensures a != b ==> KeyLess(a, b) || KeyLess(b, a)
  {
    LexIrreflexive(KeyString(a));
    if KeyLess(a, b) && KeyLess(b, c) {
      LexTransitive(KeyString(a), KeyString(b), KeyString(c));
    }
    if a != b {
      if KeyString(a) == KeyString(b) {
        KeyStringInjective(a, b);
      }
      LexTotal(KeyString(a), KeyString(b));
    }
  }

  /** `less` is a strict total order on keys, as a consistent comparator is. */
  ghost predicate StrictTotalOrder(less: (int, int) -> bool)
  {
    && (forall a :: !less(a, a))
    && (forall a, b, c :: less(a, b) && less(b, c) ==> less(a, c))
    && (forall a, b :: a != b ==> less(a, b) || less(b, a))
  }

  /** The default comparator is a strict total order. */
  lemma KeyLessIsStrictTotalOrder()
    ensures StrictTotalOrder(KeyLess)
  {
    forall a, b, c
      ensures !KeyLess(a, a)
      ensures KeyLess(a, b) && KeyLess(b, c) ==> KeyLess(a, c)
      ensures a != b ==> KeyLess(a, b) || KeyLess(b, a)
    {
      KeyOrderFacts(a, b, c);
    }
  }

  /** `a` comes before `b` or is `b`. */
  predicate Precedes(less: (int, int) -> bool, a: int, b: int)
  {
    a == b || less(a, b)
  }

  /** `s` is in the order `less` sorts it in. */
  predicate SortedBy(s: seq<int>, less: (int, int) -> bool)
  {
    forall i, j :: 0 <= i < j < |s| ==> Precedes(less, s[i], s[j])
  }

  /** `s` is in the order the comparator-less sort produces. */
  predicate SortedByString(s: seq<int>)
  {
    SortedBy(s, KeyLess)
  }

  /** No key occurs twice (the keys of a Map). */
  predicate Distinct(s: seq<int>)
  {
    forall i, j :: 0 <= i < j < |s| ==> s[i] != s[j]
  }

  lemma HeadBound(h: int, t: seq<int>, x: int, r: seq<int>, less: (int, int) -> bool)
    requires forall j :: 0 <= j < |t| ==> Precedes(less, h, t[j])
    requires Precedes(less, h, x)
    requires multiset(r) == multiset(t) + multiset{x}
    ensures forall j :: 0 <= j < |r| ==> Precedes(less, h, r[j])
  {
    forall j | 0 <= j < |r|
      ensures Precedes(less, h, r[j])
    {
      assert r[j] in multiset(r);
      if r[j] != x {
        assert r[j] in multiset(t);
        var k :| 0 <= k < |t| && t[k] == r[j];
      }
    }
  }

  lemma SortedTail(s: seq<int>, less: (int, int) -> bool)
    requires SortedBy(s, less) && s != []
    ensures SortedBy(s[1..], less)
  {
    forall i, j | 0 <= i < j < |s| - 1
      ensures Precedes(less, s[1..][i], s[1..][j])
    {
      assert s[1..][i] == s[i + 1] && s[1..][j] == s[j + 1];
    }
  }

  /** Inserts `x` in front of the first key it does not sort after. */
  function Insert(x: int, s: seq<int>, less: (int, int) -> bool): (r: seq<int>)
    ensures multiset(r) == multiset(s) + multiset{x}
  {
    if s == [] then [x]
    else if less(s[0], x) then
      assert s == [s[0]] + s[1..];
      [s[0]] + Insert(x, s[1..], less)
    else [x] + s
  }

  /** `s.sort(less)`, as an insertion sort. */
  function SortWith(s: seq<int>, less: (int, int) -> bool): (r: seq<int>)
    ensures multiset(r) == multiset(s)
  {
    if s == [] then []
    else
      assert s == [s[0]] + s[1..];
      Insert(s[0], SortWith(s[1..], less), less)
  }

  /**
    The array `[...keys].sort()`: the keys in the order of their string forms
    (SortKeysSorted). For distinct keys the result is unique (SortedUnique), whatever
    algorithm the engine uses.
   */
  function SortKeys(s: seq<int>): (r: seq<int>)
    ensures multiset(r) == multiset(s)
  {
    SortWith(s, KeyLess)
  }

  /** Inserting into a sorted array keeps it sorted. */
  lemma {:induction false} InsertSorted(x: int, s: seq<int>, less: (int, int) -> bool)
    requires StrictTotalOrder(less) && SortedBy(s, less)
    ensures SortedBy(Insert(x, s, less), less)
  {
    if s != [] {
      if less(s[0], x) {
        SortedTail(s, less);
        InsertSorted(x, s[1..], less);
        var tail := Insert(x, s[1..], less);
        assert s == [s[0]] + s[1..];
        HeadBound(s[0], s[1..], x, tail, less);
        assert Insert(x, s, less) == [s[0]] + tail;
      } else {
        assert Precedes(less, x, s[0]);
        forall j | 0 <= j < |s|
          ensures Precedes(less, x, s[j])
        {
          if j > 0 {
            assert Precedes(less, s[0], s[j]);
          }
        }
      }
    }
  }

  /** Insertion sort under a strict total order sorts. */
  lemma {:induction false} SortWithSorted(s: seq<int>, less: (int, int) -> bool)
    requires StrictTotalOrder(less)
    ensures SortedBy(SortWith(s, less), less)
  {
    if s != [] {
      SortWithSorted(s[1..], less);
      InsertSorted(s[0], SortWith(s[1..], less), less);
    }
  }

  /** The sorted array is in string order. */
  lemma SortKeysSorted(s: seq<int>)
    ensures SortedByString(SortKeys(s))
  {
    KeyLessIsStrictTotalOrder();
    SortWithSorted(s, KeyLess);
  }

  lemma SortedHeadIsLeast(s: seq<int>, x: int, less: (int, int) -> bool)
    requires SortedBy(s, less) && x in s
    ensures Precedes(less, s[0], x)
  {
    var k :| 0 <= k < |s| && s[k] == x;
    if k > 0 {
      assert Precedes(less, s[0], s[k]);
    }
  }

  lemma SameTails(r: seq<int>, t: seq<int>)
    requires r != [] && t != [] && r[0] == t[0]
    requires multiset(r) == multiset(t)
    ensures multiset(r[1..]) == multiset(t[1..])
  {
    assert r == [r[0]] + r[1..];
    assert t == [t[0]] + t[1..];
    assert multiset(r) == multiset{r[0]} + multiset(r[1..]);
    assert multiset(t) == multiset{t[0]} + multiset(t[1..]);
    assert multiset(r[1..]) == multiset(r) - multiset{r[0]};
    assert multiset(t[1..]) == multiset(t) - multiset{t[0]};
  }

  /** Two arrays sorted by the same strict total order and holding the same keys are the same array. */
  lemma {:induction false} SortedUnique(r: seq<int>, t: seq<int>, less: (int, int) -> bool)
    requires StrictTotalOrder(less)
    requires SortedBy(r, less) && SortedBy(t, less)
    requires multiset(r) == multiset(t)
    ensures r == t
  {
    assert |r| == |multiset(r)| == |multiset(t)| == |t|;
    if r != [] {
      assert r[0] in multiset(t);
      SortedHeadIsLeast(t, r[0], less);
      assert t[0] in multiset(r);
      SortedHeadIsLeast(r, t[0], less);
      assert r[0] == t[0];
      SameTails(r, t);
      SortedTail(r, less);
      SortedTail(t, less);
      SortedUnique(r[1..], t[1..], less);
    }
  }

  /** Any array in string order holding the registered keys is the sorted array. */
  lemma SortKeysUnique(order: seq<int>, t: seq<int>)
    requires SortedByString(t) && multiset(t) == multiset(order)
    ensures SortKeys(order) == t
  {
    SortKeysSorted(order);
    KeyLessIsStrictTotalOrder();
    SortedUnique(SortKeys(order), t, KeyLess);
  }

  /** Sorting depends only on which keys there are, not on the order they were inserted in. */
  lemma SortIgnoresInsertionOrder(a: seq<int>, b: seq<int>)
    requires multiset(a) == multiset(b)
    ensures SortKeys(a) == SortKeys(b)
  {
    SortKeysSorted(b);
    SortKeysUnique(a, SortKeys(b));
  }

  /** In a duplicate-free array every key occurs once or not at all. */
  lemma {:induction false} DistinctCount(s: seq<int>, x: int)
    requires Distinct(s)
    ensures multiset(s)[x] == if x in s then 1 else 0
  {
    if s != [] {
      assert s == [s[0]] + s[1..];
      assert Distinct(s[1..]);
      assert s[0] !in s[1..];
      DistinctCount(s[1..], x);
    }
  }

  /** Two duplicate-free arrays with the same members hold the same multiset of keys. */
  lemma SameMembers(a: seq<int>, b: seq<int>)
    requires Distinct(a) && Distinct(b)
    requires forall k :: k in a <==> k in b
    ensures multiset(a) == multiset(b)
  {
    forall x
      ensures multiset(a)[x] == multiset(b)[x]
    {
      DistinctCount(a, x);
      DistinctCount(b, x);
    }
  }

  /** Sorting keeps exactly the registered keys. */
  lemma SortKeysMembers(s: seq<int>)
    ensures forall x :: x in SortKeys(s) <==> x in s
  {
    var r := SortKeys(s);
    forall x
      ensures x in r <==> x in s
    {
      assert x in r <==> x in multiset(r);
      assert x in s <==> x in multiset(s);
    }
  }

  // ---------------------------------------------------------------------------
  // findIndex, filter and Math.max
  // ---------------------------------------------------------------------------

  /** `s.findIndex((e) => e > index)`: the first position holding a key above `index`, or -1. */
  function FindIndex(s: seq<int>, index: int): (p: int)
    ensures -1 <= p < |s|
    ensures p == -1 <==> forall j :: 0 <= j < |s| ==> s[j] <= index
    ensures p >= 0 ==> s[p] > index && forall j :: 0 <= j < p ==> s[j] <= index
  {
    if s == [] then -1
    else if s[0] > index then 0
    else
      var q := FindIndex(s[1..], index);
      if q == -1 then -1 else q + 1
  }

  /** `s.filter((e) => e < index)`. */
  function Below(s: seq<int>, index: int): (r: seq<int>)
    ensures |r| <= |s|
    ensures forall x :: x in r <==> x in s && x < index
  {
    if s == [] then []
    else (if s[0] < index then [s[0]] else []) + Below(s[1..], index)
  }

  /** `Math.max(...s)`; None stands for -Infinity, the value for an empty list. */
  function MaxOf(s: seq<int>): (m: Option<int>)
    ensures m.None? <==> s == []
    ensures m.Some? ==> m.value in s && forall x :: x in s ==> x <= m.value
  {
    if s == [] then None
    else
      assert forall x :: x in s ==> x == s[0] || x in s[1..];
      match MaxOf(s[1..])
      case None => Some(s[0])
      case Some(t) => Some(if s[0] >= t then s[0] else t)
  }

  // ---------------------------------------------------------------------------
  // The handler's nextIndex and the key it looks up
  // ---------------------------------------------------------------------------

  /**
    The value the handler gives `nextIndex` for keys inserted in the order `order`:
    with shift, the largest key below `index` (None is -Infinity); without, the position
    in the sorted array of the first key above `index`, or -1.
   */
  function NextIndex(order: seq<int>, index: int, shift: bool): Option<int>
  {
    var sorted := SortKeys(order);
    if shift then MaxOf(Below(sorted, index)) else Some(FindIndex(sorted, index))
  }

  /** The map key the handler looks up: `nextIndex` unless it is -1; -Infinity is no key at all. */
  function Target(order: seq<int>, index: int, shift: bool): Option<int>
  {
    match NextIndex(order, index, shift)
    case None => None
    case Some(v) => if v == -1 then None else Some(v)
  }

  // ---------------------------------------------------------------------------
  // The traversal rule a reader expects, for comparison
  // ---------------------------------------------------------------------------

  /** `k` is the smallest registered key above `index`. */
  predicate IsNextAbove(order: seq<int>, index: int, k: int)
  {
    k in order && k > index && forall j :: j in order && j > index ==> k <= j
  }

  /** `k` is the largest registered key below `index`. */
  predicate IsPrevBelow(order: seq<int>, index: int, k: int)
  {
    k in order && k < index && forall j :: j in order && j < index ==> j <= k
  }

  /**
    Backward: the handler looks up the largest key below `index`, except that it
    looks up nothing when there is none (-Infinity) or when that key is -1 (the sentinel).
   */
  lemma BackwardTarget(order: seq<int>, index: int)
    ensures Target(order, index, true).Some? ==>
      IsPrevBelow(order, index, Target(order, index, true).value) && Target(order, index, true).value != -1
    ensures Target(order, index, true).None? <==>
      (forall j :: j in order ==> j >= index) || IsPrevBelow(order, index, -1)
  {
    SortKeysMembers(order);
  }

  /**
    Forward: the handler looks up nothing exactly when no key lies above `index`;
    otherwise it looks up a position of the sorted array, the first one holding a key above `index`.
   */
  lemma ForwardTarget(order: seq<int>, index: int)
    ensures Target(order, index, false).None? <==> forall j :: j in order ==> j <= index
    ensures Target(order, index, false).Some? ==>
      var p := Target(order, index, false).value;
      0 <= p < |order| && SortKeys(order)[p] > index &&
      forall j :: 0 <= j < p ==> SortKeys(order)[j] <= index
  {
    SortKeysMembers(order);
    var s := SortKeys(order);
    assert |s| == |multiset(s)| == |multiset(order)| == |order|;
    if forall j :: j in order ==> j <= index {
      forall j | 0 <= j < |s|
        ensures s[j] <= index
      {
        assert s[j] in s;
      }
    }
    if forall j :: 0 <= j < |s| ==> s[j] <= index {
      forall j | j in order
        ensures j <= index
      {
        assert j in s;
      }
    }
  }

  /** `lo, lo + 1, ..., hi - 1`. */
  function Interval(lo: int, hi: int): (r: seq<int>)
    requires lo <= hi
    ensures |r| == hi - lo && forall i :: 0 <= i < |r| ==> r[i] == lo + i
  {
    seq(hi - lo, i => lo + i)
  }

  /** Single-digit keys sort as numbers do. */
  lemma SingleDigitOrder(a: int, b: int)
    requires 0 <= a < b < 10
    ensures KeyLess(a, b)
  {
    assert KeyString(a) == [DigitChar(a)];
    assert KeyString(b) == [DigitChar(b)];
  }

  /** An array whose neighbours are in order is in order. */
  lemma {:induction false} ChainSorted(s: seq<int>, less: (int, int) -> bool)
    requires StrictTotalOrder(less)
    requires forall i :: 0 <= i < |s| - 1 ==> less(s[i], s[i + 1])
    ensures SortedBy(s, less)
  {
    if |s| > 1 {
      ChainSorted(s[1..], less);
      forall j | 1 <= j < |s|
        ensures Precedes(less, s[0], s[j])
      {
        assert Precedes(less, s[1], s[j]) by {
          assert s[1..][0] == s[1];
          if j > 1 {
            assert s[1..][j - 1] == s[j];
          }
        }
      }
    }
  }

  /** Joining two sorted arrays whose boundary is in order gives a sorted array. */
  lemma AppendSorted(a: seq<int>, b: seq<int>, less: (int, int) -> bool)
    requires StrictTotalOrder(less)
    requires SortedBy(a, less) && SortedBy(b, less) && a != [] && b != []
    requires less(a[|a| - 1], b[0])
    ensures SortedBy(a + b, less)
  {
    var s := a + b;
    forall i, j | 0 <= i < |a| <= j < |s|
      ensures Precedes(less, s[i], s[j])
    {
      assert Precedes(less, a[i], a[|a| - 1]) by {
        if i < |a| - 1 {
          assert Precedes(less, a[i], a[|a| - 1]);
        }
      }
      assert Precedes(less, b[0], b[j - |a|]) by {
        if j > |a| {
          assert Precedes(less, b[0], b[j - |a|]);
        }
      }
    }
    forall i, j | 0 <= i < j < |a|
      ensures Precedes(less, s[i], s[j])
    {
      assert s[i] == a[i] && s[j] == a[j];
    }
    forall i, j | |a| <= i < j < |s|
      ensures Precedes(less, s[i], s[j])
    {
      assert s[i] == b[i - |a|] && s[j] == b[j - |a|];
    }
  }

  /**
    With the keys exactly 0..n-1 and n at most 10, position and key coincide, so
    forward traversal reaches `index + 1`, the key a reader expects.
   */
  lemma ForwardContiguous(order: seq<int>, n: nat, index: int)
    requires Distinct(order) && forall k :: k in order <==> 0 <= k < n
    requires n <= 10 && 0 <= index
    ensures Target(order, index, false) == if index + 1 < n then Some(index + 1) else None
    ensures index + 1 < n ==> IsNextAbove(order, index, index + 1)
  {
    var r := Interval(0, n);
    assert Distinct(r);
    assert forall k :: k in r <==> 0 <= k < n by {
      forall k | 0 <= k < n
        ensures k in r
      {
        assert r[k] == k;
      }
    }
    SameMembers(order, r);
    forall i | 0 <= i < n - 1
      ensures KeyLess(r[i], r[i + 1])
    {
      SingleDigitOrder(i, i + 1);
    }
    KeyLessIsStrictTotalOrder();
    ChainSorted(r, KeyLess);
    SortKeysUnique(order, r);
    var p := FindIndex(r, index);
    if index + 1 < n {
      assert r[index + 1] > index;
    }
  }

  /**
    Keys {0, 1, 3}, forward from 1: the first key above 1 is 3, at position 2, so the
    handler looks up key 2, which is not registered; the key a reader expects is 3.
   */
  lemma SkippedKeyForward(order: seq<int>)
    requires Distinct(order) && forall k :: k in order <==> k == 0 || k == 1 || k == 3
    ensures Target(order, 1, false) == Some(2)
    ensures 2 !in order && IsNextAbove(order, 1, 3)
  {
    var t := [0, 1, 3];
    ThreeKeysSorted();
    SameMembers(order, t);
    SortKeysUnique(order, t);
    assert t[2] > 1;
  }

  /** The array 0, 1, 3 is in string order and holds each of its keys once. */
  lemma ThreeKeysSorted()
    ensures SortedByString([0, 1, 3]) && Distinct([0, 1, 3])
  {
    SingleDigitOrder(0, 1);
    SingleDigitOrder(1, 3);
    KeyLessIsStrictTotalOrder();
    ChainSorted([0, 1, 3], KeyLess);
  }

  /** 10 sorts before 11, and 11 before 2: a longer string with a smaller first digit comes first. */
  lemma TwoDigitOrder()
    ensures KeyLess(1, 10) && KeyLess(10, 11) && KeyLess(11, 2)
  {
    assert KeyString(1) == ['1'] && KeyString(2) == ['2'];
    assert KeyString(10) == ['1', '0'] by {
      assert Digits(10) == Digits(1) + [DigitChar(0)];
    }
    assert KeyString(11) == ['1', '1'] by {
      assert Digits(11) == Digits(1) + [DigitChar(1)];
    }
  }

  /** The array 0, 1, 10, 11, 2, ..., 9 is in string order. */
  lemma TwelveKeysSorted()
    ensures SortedByString([0, 1, 10, 11] + Interval(2, 10))
  {
    var low, digits := [0, 1, 10, 11], Interval(2, 10);
    KeyLessIsStrictTotalOrder();
    TwoDigitOrder();
    SingleDigitOrder(0, 1);
    ChainSorted(low, KeyLess);
    forall i | 0 <= i < |digits| - 1
      ensures KeyLess(digits[i], digits[i + 1])
    {
      SingleDigitOrder(i + 2, i + 3);
    }
    ChainSorted(digits, KeyLess);
    AppendSorted(low, digits, KeyLess);
  }

  /** The array 0, 1, 10, 11, 2, ..., 9 holds each of 0..11 once. */
  lemma TwelveKeysMembers()
    ensures Distinct([0, 1, 10, 11] + Interval(2, 10))
    ensures forall k :: k in [0, 1, 10, 11] + Interval(2, 10) <==> 0 <= k < 12
  {
    var digits := Interval(2, 10);
    var t := [0, 1, 10, 11] + digits;
    assert forall k :: k in t <==> 0 <= k < 12 by {
      forall k | 2 <= k < 10
        ensures k in digits
      {
        assert digits[k - 2] == k;
      }
    }
    assert Distinct(t) by {
      forall i, j | 0 <= i < j < |t|
        ensures t[i] != t[j]
      {
        if 4 <= i {
          assert t[i] == digits[i - 4] && t[j] == digits[j - 4];
        }
      }
    }
  }

  /**
    Keys 0..11: the sorted array is 0, 1, 10, 11, 2, ..., 9, so forward from 9 the
    first key above 9 is 10, at position 2, and the handler looks up key 2.
   */
  lemma TwelveKeysForward(order: seq<int>)
    requires Distinct(order) && forall k :: k in order <==> 0 <= k < 12
    ensures Target(order, 9, false) == Some(2)
    ensures IsNextAbove(order, 9, 10)
  {
    var t := [0, 1, 10, 11] + Interval(2, 10);
    assert SortKeys(order) == t by {
      TwelveKeysSorted();
      TwelveKeysMembers();
      SameMembers(order, t);
      SortKeysUnique(order, t);
    }
    assert t[0] == 0 && t[1] == 1 && t[2] == 10;
    assert FindIndex(t, 9) == 2;
  }
}
