/**
 * The string operations the article aggregate and the search clauses rely on:
 * `String.toUpperCase` and `String.equalsIgnoreCase` restricted to ASCII
 * letters, the natural order `sorted()` uses, and a sort by that order.
 * Strings are sequences of Unicode code points; Java's are UTF-16 code
 * units, so above U+FFFF the order and the length differ from Java's.
 */
module Strings {

  /** Upper-cases 'a'..'z' and leaves every other character alone. */
  function UpperChar(c: char): (u: char)
    ensures !('a' <= u <= 'z')
    ensures u == c || u as int == c as int - 32
  {
    if 'a' <= c <= 'z' then (c as int - 32) as char else c
  }

  /** No lower-case ASCII letter occurs in `s`. */
  predicate IsUpper(s: string) {
    forall i :: 0 <= i < |s| ==> !('a' <= s[i] <= 'z')
  }

  /** `s.toUpperCase()` on ASCII text: the same length, each character upper-cased. */
  function Upper(s: string): (r: string)
    ensures |r| == |s| && IsUpper(r)
    ensures forall i :: 0 <= i < |s| ==> r[i] == UpperChar(s[i])
  {
    seq(|s|, i requires 0 <= i < |s| => UpperChar(s[i]))
  }

  /** Upper-casing a string that is already upper-case changes nothing. */
  lemma UpperFixesUpper(s: string)
    requires IsUpper(s)
    ensures Upper(s) == s
  {
    assert forall i :: 0 <= i < |s| ==> Upper(s)[i] == s[i];
  }

  /** `a.equalsIgnoreCase(b)` on ASCII text: equal length and equal after upper-casing each pair. */
  predicate EqualsIgnoreCase(a: string, b: string) {
    |a| == |b| && forall i :: 0 <= i < |a| ==> UpperChar(a[i]) == UpperChar(b[i])
  }

  /** Case-insensitive equality is equality of the upper-cased forms. */
  lemma EqualsIgnoreCaseIff(a: string, b: string)
    ensures EqualsIgnoreCase(a, b) <==> Upper(a) == Upper(b)
  {
    if Upper(a) == Upper(b) {
      assert forall i :: 0 <= i < |a| ==> UpperChar(a[i]) == Upper(a)[i] == Upper(b)[i] == UpperChar(b[i]);
    }
  }

  // ---------------------------------------------------------------------------
  // Lexicographic order, as String.compareTo defines it: the first differing
  // character decides, and a proper prefix comes first. Characters here are
  // code points, so this agrees with compareTo on text within U+0000..U+FFFF.
  // ---------------------------------------------------------------------------

  predicate Le(a: string, b: string) {
    if |a| == 0 then true
    else if |b| == 0 then false
    else if a[0] < b[0] then true
    else if b[0] < a[0] then false
    else Le(a[1..], b[1..])
  }

  lemma {:induction false} LeReflexive(a: string)
    ensures Le(a, a)
  {
    if |a| > 0 {
      LeReflexive(a[1..]);
    }
  }

  lemma {:induction false} LeTotal(a: string, b: string)
    ensures Le(a, b) || Le(b, a)
  {
    if |a| > 0 && |b| > 0 && a[0] == b[0] {
      LeTotal(a[1..], b[1..]);
    }
  }

  lemma {:induction false} LeAntisymmetric(a: string, b: string)
    requires Le(a, b) && Le(b, a)
    ensures a == b
  {
    if |a| > 0 && |b| > 0 {
      LeAntisymmetric(a[1..], b[1..]);
      assert a == [a[0]] + a[1..];
      assert b == [b[0]] + b[1..];
    }
  }

  lemma {:induction false} LeTransitive(a: string, b: string, c: string)
    requires Le(a, b) && Le(b, c)
    ensures Le(a, c)
  {
    if |a| > 0 && |b| > 0 && |c| > 0 && a[0] == b[0] && b[0] == c[0] {
      LeTransitive(a[1..], b[1..], c[1..]);
    }
  }

  /** `Le` is a total order: the comparison `sorted()` needs. */
  lemma LeIsTotalOrder()
    ensures forall a :: Le(a, a)
    ensures forall a, b :: Le(a, b) || Le(b, a)
    ensures forall a, b :: Le(a, b) && Le(b, a) ==> a == b
    ensures forall a, b, c :: Le(a, b) && Le(b, c) ==> Le(a, c)
  {
    forall a ensures Le(a, a) { LeReflexive(a); }
    forall a, b ensures Le(a, b) || Le(b, a) { LeTotal(a, b); }
    forall a, b | Le(a, b) && Le(b, a) ensures a == b { LeAntisymmetric(a, b); }
    forall a, b, c | Le(a, b) && Le(b, c) ensures Le(a, c) { LeTransitive(a, b, c); }
  }

  predicate Sorted(s: seq<string>) {
    forall i, j :: 0 <= i < j < |s| ==> Le(s[i], s[j])
  }

  predicate Distinct(s: seq<string>) {
    forall i, j :: 0 <= i < j < |s| ==> s[i] != s[j]
  }

  /** Inserts `x` before the first element of `s` it does not exceed. */
  function Insert(x: string, s: seq<string>): seq<string> {
    if s == [] then [x]
    else if Le(x, s[0]) then [x] + s
    else [s[0]] + Insert(x, s[1..])
  }

  /** A lower bound of a sorted sequence can be put in front of it. */
  lemma PrependSorted(x: string, s: seq<string>)
    requires Sorted(s)
    requires forall j :: 0 <= j < |s| ==> Le(x, s[j])
    ensures Sorted([x] + s)
  {
    var r := [x] + s;
    forall i, j | 0 <= i < j < |r| ensures Le(r[i], r[j]) {
      if i > 0 { assert r[i] == s[i - 1] && r[j] == s[j - 1]; }
    }
  }

  /** A lower bound of every element of `s` and of `x` bounds any arrangement of them. */
  lemma LowerBoundOfPermutation(lo: string, s: seq<string>, x: string, t: seq<string>)
    requires forall j :: 0 <= j < |s| ==> Le(lo, s[j])
    requires Le(lo, x)
    requires multiset(t) == multiset(s) + multiset{x}
    ensures forall k :: 0 <= k < |t| ==> Le(lo, t[k])
  {
    forall k | 0 <= k < |t| ensures Le(lo, t[k]) {
      assert t[k] in multiset(t);
      if t[k] != x {
        assert t[k] in multiset(s);
        var j :| 0 <= j < |s| && s[j] == t[k];
      }
    }
  }

  /** An element no greater than the head of a sorted sequence bounds all of it. */
  lemma HeadBound(x: string, s: seq<string>)
    requires Sorted(s) && s != [] && Le(x, s[0])
    ensures forall j :: 0 <= j < |s| ==> Le(x, s[j])
  {
    forall j | 0 <= j < |s| ensures Le(x, s[j]) {
      if j > 0 { LeTransitive(x, s[0], s[j]); }
    }
  }

  /** The head of a sorted sequence bounds its tail. */
  lemma TailBound(s: seq<string>)
    requires Sorted(s) && s != []
    ensures Sorted(s[1..])
    ensures forall j :: 0 <= j < |s[1..]| ==> Le(s[0], s[1..][j])
  {
    forall j | 0 <= j < |s[1..]| ensures Le(s[0], s[1..][j]) { assert s[1..][j] == s[j + 1]; }
    forall i, j | 0 <= i < j < |s[1..]| ensures Le(s[1..][i], s[1..][j]) {
      assert s[1..][i] == s[i + 1] && s[1..][j] == s[j + 1];
    }
  }

  /** Inserting into a sorted sequence keeps it sorted and adds exactly `x`. */
  lemma {:induction false} InsertSorted(x: string, s: seq<string>)
    requires Sorted(s)
    ensures Sorted(Insert(x, s))
    ensures multiset(Insert(x, s)) == multiset(s) + multiset{x}
  {
    if s == [] {
    } else if Le(x, s[0]) {
      HeadBound(x, s);
      PrependSorted(x, s);
    } else {
      LeTotal(x, s[0]);
      var tail := s[1..];
      TailBound(s);
      InsertSorted(x, tail);
      var t := Insert(x, tail);
      assert Insert(x, s) == [s[0]] + t;
      LowerBoundOfPermutation(s[0], tail, x, t);
      PrependSorted(s[0], t);
      assert s == [s[0]] + tail;
    }
  }

  /** Insertion sort by `Le`. */
  function Sort(s: seq<string>): seq<string> {
    if s == [] then [] else Insert(s[0], Sort(s[1..]))
  }

  /** The sort yields the ascending arrangement of `s`: sorted, and a permutation of it. */
  lemma {:induction false} SortSorted(s: seq<string>)
    ensures Sorted(Sort(s))
    ensures multiset(Sort(s)) == multiset(s)
  {
    if s != [] {
      SortSorted(s[1..]);
      InsertSorted(s[0], Sort(s[1..]));
      assert s == [s[0]] + s[1..];
    }
  }

  /** Two ascending arrangements of the same elements are the same sequence. */
  lemma {:induction false} SortedUnique(a: seq<string>, b: seq<string>)
    requires Sorted(a) && Sorted(b)
    requires multiset(a) == multiset(b)
    ensures a == b
    decreases |a|
  {
    assert |a| == |multiset(a)| == |multiset(b)| == |b|;
    if a != [] {
      assert a[0] in multiset(b);
      var j :| 0 <= j < |b| && b[j] == a[0];
      assert b[0] in multiset(a);
      var i :| 0 <= i < |a| && a[i] == b[0];
      LeReflexive(a[0]);
      LeReflexive(b[0]);
      assert Le(b[0], a[0]);
      assert Le(a[0], b[0]);
      LeAntisymmetric(a[0], b[0]);
      assert a == [a[0]] + a[1..];
      assert b == [b[0]] + b[1..];
      assert multiset(a[1..]) == multiset(a) - multiset{a[0]};
      assert multiset(b[1..]) == multiset(b) - multiset{b[0]};
      SortedUnique(a[1..], b[1..]);
    }
  }

  // ---------------------------------------------------------------------------
  // Walking a set: `set.stream()` visits every element once, in some order.
  // ---------------------------------------------------------------------------

  predicate IsLeast(m: string, s: set<string>) {
    m in s && forall y :: y in s ==> Le(m, y)
  }

  lemma {:induction false} LeastExists(s: set<string>)
    requires s != {}
    ensures exists m :: IsLeast(m, s)
  {
    var x :| x in s;
    LeReflexive(x);
    if s == {x} {
      assert IsLeast(x, s);
    } else {
      LeastExists(s - {x});
      var m :| IsLeast(m, s - {x});
      LeTotal(x, m);
      if Le(m, x) {
        assert IsLeast(m, s);
      } else {
        forall y | y in s ensures Le(x, y) {
          if y != x { LeTransitive(x, m, y); }
        }
        assert IsLeast(x, s);
      }
    }
  }

  /** A set has at most one least element. */
  lemma LeastUnique(s: set<string>)
    ensures forall m1, m2 :: IsLeast(m1, s) && IsLeast(m2, s) ==> m1 == m2
  {
    forall m1, m2 | IsLeast(m1, s) && IsLeast(m2, s) ensures m1 == m2 {
      LeAntisymmetric(m1, m2);
    }
  }

  /** The elements of `s`, each exactly once, in ascending order of `Le`. */
  function Enumerate(s: set<string>): seq<string>
    decreases s
  {
    if s == {} then []
    else
      LeastExists(s);
      LeastUnique(s);
      var m :| IsLeast(m, s);
      [m] + Enumerate(s - {m})
  }

  /** The walk visits every element of `s` exactly once and nothing else. */
  lemma {:induction false} EnumerateWalks(s: set<string>)
    ensures |Enumerate(s)| == |s|
    ensures forall x :: x in Enumerate(s) <==> x in s
    ensures Distinct(Enumerate(s))
    decreases s
  {
    if s != {} {
      LeastExists(s);
      LeastUnique(s);
      var m :| IsLeast(m, s);
      var rest := Enumerate(s - {m});
      EnumerateWalks(s - {m});
      assert Enumerate(s) == [m] + rest;
      var r := [m] + rest;
      forall i, j | 0 <= i < j < |r| ensures r[i] != r[j] {
        assert r[j] == rest[j - 1];
        if i > 0 { assert r[i] == rest[i - 1]; }
      }
    }
  }

  /** `stream.map(String::toUpperCase)`: upper-cases every element, keeping the order. */
  function MapUpper(e: seq<string>): (r: seq<string>)
    ensures |r| == |e|
    ensures forall i :: 0 <= i < |e| ==> r[i] == Upper(e[i])
  {
    seq(|e|, i requires 0 <= i < |e| => Upper(e[i]))
  }

  lemma DistinctTail(e: seq<string>)
    requires Distinct(e) && e != []
    ensures Distinct(e[1..]) && e[0] !in e[1..]
  {
    forall j | 0 <= j < |e[1..]| ensures e[1..][j] != e[0] {
      assert e[1..][j] == e[j + 1];
    }
  }

  /** The strings of `s` that upper-case to `y`. */
  ghost function Preimage(s: set<string>, y: string): set<string> {
    set x | x in s && Upper(x) == y
  }

  /** Taking one element out of `s` removes it from the preimage it belongs to and no other. */
  lemma PreimageRemove(s: set<string>, x: string, y: string)
    requires x in s
    ensures |Preimage(s, y)| == |Preimage(s - {x}, y)| + (if Upper(x) == y then 1 else 0)
  {
    if Upper(x) == y {
      assert Preimage(s, y) == Preimage(s - {x}, y) + {x};
    } else {
      assert Preimage(s, y) == Preimage(s - {x}, y);
    }
  }

  lemma MapUpperCons(e: seq<string>)
    requires e != []
    ensures multiset(MapUpper(e)) == multiset{Upper(e[0])} + multiset(MapUpper(e[1..]))
  {
    assert MapUpper(e) == [Upper(e[0])] + MapUpper(e[1..]);
  }

  /**
   * Upper-casing a walk over `s` yields `y` as many times as `s` holds strings
   * that upper-case to `y`: distinct inputs are never merged.
   */
  lemma {:induction false} MapUpperCounts(s: set<string>, e: seq<string>, y: string)
    requires Distinct(e)
    requires forall x :: x in e <==> x in s
    ensures multiset(MapUpper(e))[y] == |Preimage(s, y)|
    decreases |e|
  {
    if e == [] {
      assert Preimage(s, y) == {};
    } else {
      var t := e[1..];
      var rest := s - {e[0]};
      DistinctTail(e);
      assert e == [e[0]] + t;
      assert forall x :: x in t <==> x in rest;
      MapUpperCounts(rest, t, y);
      MapUpperCons(e);
      PreimageRemove(s, e[0], y);
    }
  }
}
