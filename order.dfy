/** The order Array.prototype.sort uses when no comparator is given: strings
    compared by their UTF-16 code units, a proper prefix first. Sort is
    modelled by insertion sort, which yields the one sorted arrangement of
    its input. */
module Order {

  /** The UTF-16 code units of one character. */
  function CodeUnits(c: char): (r: seq<int>)
    ensures |r| == 1 || |r| == 2
  {
    var v := c as int;
    if v < 0x1_0000 then [v]
    else [0xD800 + (v - 0x1_0000) / 0x400, 0xDC00 + (v - 0x1_0000) % 0x400]
  }

  /** The UTF-16 encoding of a string. */
  function Utf16(s: string): seq<int> {
    if s == [] then [] else CodeUnits(s[0]) + Utf16(s[1..])
  }

  /** Lexicographic order on code unit sequences. */
  predicate LexLe(a: seq<int>, b: seq<int>)
    decreases |a|
  {
    a == [] || (b != [] && (a[0] < b[0] || (a[0] == b[0] && LexLe(a[1..], b[1..]))))
  }

  /** x <= y for JavaScript strings. */
  predicate NameLe(a: string, b: string) {
    LexLe(Utf16(a), Utf16(b))
  }

  predicate Sorted(s: seq<string>) {
    forall i, j :: 0 <= i < j < |s| ==> NameLe(s[i], s[j])
  }

  predicate StrictlySorted(s: seq<string>) {
    forall i, j :: 0 <= i < j < |s| ==> NameLe(s[i], s[j]) && s[i] != s[j]
  }

  // ---------------------------------------------------------------------
  // LexLe is a total order

  lemma {:induction false} LexTotal(a: seq<int>, b: seq<int>)
    ensures LexLe(a, b) || LexLe(b, a)
    decreases |a|
  {
    if a != [] && b != [] && a[0] == b[0] {
      LexTotal(a[1..], b[1..]);
    }
  }

  lemma {:induction false} LexReflexive(a: seq<int>)
    ensures LexLe(a, a)
    decreases |a|
  {
    if a != [] {
      LexReflexive(a[1..]);
    }
  }

  lemma {:induction false} LexTransitive(a: seq<int>, b: seq<int>, c: seq<int>)
    requires LexLe(a, b) && LexLe(b, c)
    ensures LexLe(a, c)
    decreases |a|
  {
    if a != [] && a[0] == b[0] && b[0] == c[0] {
      LexTransitive(a[1..], b[1..], c[1..]);
    }
  }

  lemma {:induction false} LexAntisymmetric(a: seq<int>, b: seq<int>)
    requires LexLe(a, b) && LexLe(b, a)
    ensures a == b
    decreases |a|
  {
    if a != [] {
      LexAntisymmetric(a[1..], b[1..]);
      assert a == [a[0]] + a[1..] && b == [b[0]] + b[1..];
    }
  }

  // ---------------------------------------------------------------------
  // UTF-16 is injective, so NameLe is antisymmetric

  /** A one-unit character is outside the surrogate range; the first unit of
      a two-unit character is a high surrogate. */
  lemma FirstUnit(c: char)
    ensures |CodeUnits(c)| == 1 <==> !(0xD800 <= CodeUnits(c)[0] < 0xE000)
  {
  }

  lemma CodeUnitsInjective(c: char, d: char, rc: seq<int>, rd: seq<int>)
    requires CodeUnits(c) + rc == CodeUnits(d) + rd
    ensures c == d && rc == rd
  {
    var uc, ud := CodeUnits(c), CodeUnits(d);
    assert uc[0] == (uc + rc)[0] == (ud + rd)[0] == ud[0];
    FirstUnit(c);
    FirstUnit(d);
    if |uc| == 2 {
      assert uc[1] == (uc + rc)[1] == (ud + rd)[1] == ud[1];
      var v, w := c as int - 0x1_0000, d as int - 0x1_0000;
      assert v / 0x400 == w / 0x400 && v % 0x400 == w % 0x400;
      assert v == 0x400 * (v / 0x400) + v % 0x400;
      assert w == 0x400 * (w / 0x400) + w % 0x400;
    }
    assert c as int == d as int;
    assert rc == (uc + rc)[|uc|..] == (ud + rd)[|ud|..] == rd;
  }

  lemma {:induction false} Utf16Injective(a: string, b: string)
    requires Utf16(a) == Utf16(b)
    ensures a == b
    decreases |a|
  {
    if a != [] {
      assert b != [];
      CodeUnitsInjective(a[0], b[0], Utf16(a[1..]), Utf16(b[1..]));
      Utf16Injective(a[1..], b[1..]);
      assert a == [a[0]] + a[1..] && b == [b[0]] + b[1..];
    }
  }

  /** Any two strings compare one way or the other. */
  lemma NameTotal(a: string, b: string)
    ensures NameLe(a, b) || NameLe(b, a)
  {
    LexTotal(Utf16(a), Utf16(b));
  }

  lemma NameReflexive(a: string)
    ensures NameLe(a, a)
  {
    LexReflexive(Utf16(a));
  }

  lemma NameTransitive(a: string, b: string, c: string)
    requires NameLe(a, b) && NameLe(b, c)
    ensures NameLe(a, c)
  {
    LexTransitive(Utf16(a), Utf16(b), Utf16(c));
  }

  /** Distinct strings never compare equal. */
  lemma NameAntisymmetric(a: string, b: string)
    requires NameLe(a, b) && NameLe(b, a)
    ensures a == b
  {
    LexAntisymmetric(Utf16(a), Utf16(b));
    Utf16Injective(a, b);
  }

  // ---------------------------------------------------------------------
  // Sorting

  /** x is no greater than any element of s. */
  predicate LowerBound(x: string, s: seq<string>) {
    forall j :: 0 <= j < |s| ==> NameLe(x, s[j])
  }

  lemma LowerBoundPermutation(x: string, s: seq<string>, t: seq<string>)
    requires LowerBound(x, s) && multiset(s) == multiset(t)
    ensures LowerBound(x, t)
  {
    forall j | 0 <= j < |t| ensures NameLe(x, t[j]) {
      assert t[j] in multiset(s);
      var i :| 0 <= i < |s| && s[i] == t[j];
    }
  }

  lemma LowerBoundOfSorted(x: string, s: seq<string>)
    requires Sorted(s) && s != [] && NameLe(x, s[0])
    ensures LowerBound(x, s)
  {
    forall j | 0 < j < |s| ensures NameLe(x, s[j]) {
      NameTransitive(x, s[0], s[j]);
    }
  }

  lemma ConsSorted(x: string, s: seq<string>)
    requires Sorted(s) && LowerBound(x, s)
    ensures Sorted([x] + s)
  {
  }

  function Insert(x: string, s: seq<string>): (r: seq<string>)
    requires Sorted(s)
    ensures Sorted(r)
    ensures multiset(r) == multiset(s) + multiset{x}
  {
    if s == [] then [x]
    else if NameLe(x, s[0]) then
      LowerBoundOfSorted(x, s);
      ConsSorted(x, s);
      [x] + s
    else
      var t := Insert(x, s[1..]);
      InsertBehind(x, s, t);
      [s[0]] + t
  }

  /** Putting the head back in front of the tail with x inserted. */
  lemma InsertBehind(x: string, s: seq<string>, t: seq<string>)
    requires Sorted(s) && s != [] && !NameLe(x, s[0])
    requires Sorted(t) && multiset(t) == multiset(s[1..]) + multiset{x}
    ensures Sorted([s[0]] + t)
    ensures multiset([s[0]] + t) == multiset(s) + multiset{x}
  {
    NameTotal(x, s[0]);
    assert LowerBound(s[0], s[1..] + [x]);
    LowerBoundPermutation(s[0], s[1..] + [x], t);
    ConsSorted(s[0], t);
    assert s == [s[0]] + s[1..];
  }

  /** Array.prototype.sort() on strings. */
  function Sort(s: seq<string>): (r: seq<string>)
    ensures Sorted(r)
    ensures multiset(r) == multiset(s)
  {
    if s == [] then []
    else
      assert s == [s[0]] + s[1..];
      Insert(s[0], Sort(s[1..]))
  }

  /** The head of a sorted sequence is no greater than any of its elements. */
  lemma HeadIsLeast(a: seq<string>, x: string)
    requires Sorted(a) && x in multiset(a)
    ensures NameLe(a[0], x)
  {
    var i :| 0 <= i < |a| && a[i] == x;
    if i == 0 { NameReflexive(x); }
  }

  lemma Tail(a: seq<string>)
    requires a != []
    ensures multiset(a[1..]) == multiset(a) - multiset{a[0]}
  {
    assert a == [a[0]] + a[1..];
  }

  /** A sorted arrangement is determined by its elements: any two sorted
      sequences with the same elements are equal. */
  lemma {:induction false} SortedUnique(a: seq<string>, b: seq<string>)
    requires Sorted(a) && Sorted(b) && multiset(a) == multiset(b)
    ensures a == b
    decreases |a|
  {
    if a != [] {
      assert |b| == |multiset(b)| == |multiset(a)| == |a|;
      HeadIsLeast(b, a[0]);
      HeadIsLeast(a, b[0]);
      NameAntisymmetric(a[0], b[0]);
      Tail(a);
      Tail(b);
      SortedUnique(a[1..], b[1..]);
      assert a == [a[0]] + a[1..] && b == [b[0]] + b[1..];
    }
  }

  /** Sorting a sequence without repeated elements orders it strictly. */
  lemma SortedDistinctIsStrict(s: seq<string>)
    requires Sorted(s)
    requires forall i, j :: 0 <= i < j < |s| ==> s[i] != s[j]
    ensures StrictlySorted(s)
  {
  }

  // ---------------------------------------------------------------------
  // Sorting a set of names

  /** A prefix one longer is the prefix followed by the next element. */
  lemma PrefixSnoc(s: seq<string>, i: nat)
    requires i < |s|
    ensures s[..i + 1] == s[..i] + [s[i]]
  {
  }

  /** No element occurs twice. */
  predicate Distinct(s: seq<string>) {
    forall i, j :: 0 <= i < j < |s| ==> s[i] != s[j]
  }

  /** The elements of a finite set, each once, in no particular order. */
  ghost function Enumerate(s: set<string>): (r: seq<string>)
    ensures Distinct(r)
    ensures forall x :: x in r <==> x in s
  {
    if s == {} then []
    else
      var x :| x in s;
      var rest := Enumerate(s - {x});
      assert x !in rest;
      [x] + rest
  }

  /** In a sequence without repeats each element occurs exactly once. */
  lemma {:induction false} DistinctCount(s: seq<string>, x: string)
    requires Distinct(s)
    ensures multiset(s)[x] == if x in s then 1 else 0
    decreases |s|
  {
    if s != [] {
      DistinctCount(s[1..], x);
      assert s == [s[0]] + s[1..];
    }
  }

  /** Two sequences without repeats holding the same elements are
      permutations of each other. */
  lemma SameElementsSameMultiset(a: seq<string>, b: seq<string>)
    requires Distinct(a) && Distinct(b)
    requires forall x :: x in a <==> x in b
    ensures multiset(a) == multiset(b)
  {
    forall x ensures multiset(a)[x] == multiset(b)[x] {
      DistinctCount(a, x);
      DistinctCount(b, x);
    }
  }

  lemma RepeatCounts(s: seq<string>, i: int, j: int)
    requires 0 <= i < j < |s| && s[i] == s[j]
    ensures multiset(s)[s[i]] >= 2
  {
    assert s == s[..j] + s[j..];
    assert s[i] in s[..j];
    assert s[j] in s[j..];
  }

  /** A permutation of a sequence without repeats has none either. */
  lemma PermutationDistinct(a: seq<string>, b: seq<string>)
    requires Distinct(a) && multiset(a) == multiset(b)
    ensures Distinct(b)
  {
    forall i, j | 0 <= i < j < |b| ensures b[i] != b[j] {
      if b[i] == b[j] {
        RepeatCounts(b, i, j);
        DistinctCount(a, b[i]);
      }
    }
  }

  /** The elements of a set in ascending order, each once. */
  ghost function SortedElements(s: set<string>): (r: seq<string>)
    ensures StrictlySorted(r)
    ensures forall x :: x in r <==> x in s
  {
    var e := Enumerate(s);
    var r := Sort(e);
    PermutationDistinct(e, r);
    SortedDistinctIsStrict(r);
    assert forall x :: x in r <==> x in multiset(e);
    r
  }

  /** The sorted result does not depend on the order the elements came in:
      sorting any repeat-free enumeration of a set gives its sorted elements. */
  lemma SortIgnoresOrder(a: seq<string>, s: set<string>)
    requires Distinct(a)
    requires forall x :: x in a <==> x in s
    ensures Sort(a) == SortedElements(s)
  {
    SameElementsSameMultiset(a, Enumerate(s));
    SortedUnique(Sort(a), Sort(Enumerate(s)));
  }
}
