/**
 * Python's ordering of `str` values (code point by code point) and the
 * `sorted(...)` / `sorted(set(...))` results the tools build from it.
 */
module Ordering {

  /** `a <= b` on Python strings: lexicographic by code point. */
  predicate StrLe(a: string, b: string)
    decreases |a|
  {
    a == [] || (b != [] && (a[0] < b[0] || (a[0] == b[0] && StrLe(a[1..], b[1..]))))
  }

  predicate StrLt(a: string, b: string) {
    StrLe(a, b) && a != b
  }

  lemma {:induction false} StrLeTotal(a: string, b: string)
    ensures StrLe(a, b) || StrLe(b, a)
    decreases |a|
  {
    if a != [] && b != [] && a[0] == b[0] {
      StrLeTotal(a[1..], b[1..]);
    }
  }

  lemma {:induction false} StrLeAntisymmetric(a: string, b: string)
    requires StrLe(a, b) && StrLe(b, a)
    ensures a == b
    decreases |a|
  {
    if a != [] && b != [] {
      StrLeAntisymmetric(a[1..], b[1..]);
      assert a == [a[0]] + a[1..] && b == [b[0]] + b[1..];
    }
  }

  lemma {:induction false} StrLeTransitive(a: string, b: string, c: string)
    requires StrLe(a, b) && StrLe(b, c)
    ensures StrLe(a, c)
    decreases |a|
  {
    if a != [] && b != [] && c != [] && a[0] == b[0] && b[0] == c[0] {
      StrLeTransitive(a[1..], b[1..], c[1..]);
    }
  }

  predicate Sorted(s: seq<string>) {
    forall i, j :: 0 <= i < j < |s| ==> StrLe(s[i], s[j])
  }

  predicate StrictlySorted(s: seq<string>) {
    forall i, j :: 0 <= i < j < |s| ==> StrLt(s[i], s[j])
  }

  lemma {:induction false} StrLeReflexive(a: string)
    ensures StrLe(a, a)
    decreases |a|
  {
    if a != [] {
      StrLeReflexive(a[1..]);
    }
  }

  /** The head of a sorted sequence is below every element of it. */
  lemma SortedHead(s: seq<string>)
    requires Sorted(s) && s != []
    ensures forall y :: y in s ==> StrLe(s[0], y)
  {
    forall y | y in s ensures StrLe(s[0], y) {
      var k :| 0 <= k < |s| && s[k] == y;
      if k == 0 {
        StrLeReflexive(y);
      }
    }
  }

  lemma SortedCons(x: string, s: seq<string>)
    requires Sorted(s)
    requires forall y :: y in s ==> StrLe(x, y)
    ensures Sorted([x] + s)
  {
    var r := [x] + s;
    forall i, j | 0 <= i < j < |r| ensures StrLe(r[i], r[j]) {
      if i == 0 {
        assert r[j] == s[j - 1] && s[j - 1] in s;
      } else {
        assert r[i] == s[i - 1] && r[j] == s[j - 1];
      }
    }
  }

  lemma StrictlySortedCons(x: string, s: seq<string>)
    requires StrictlySorted(s)
    requires forall y :: y in s ==> StrLt(x, y)
    ensures StrictlySorted([x] + s)
  {
    var r := [x] + s;
    forall i, j | 0 <= i < j < |r| ensures StrLt(r[i], r[j]) {
      if i == 0 {
        assert r[j] == s[j - 1] && s[j - 1] in s;
      } else {
        assert r[i] == s[i - 1] && r[j] == s[j - 1];
      }
    }
  }

  function Insert(x: string, s: seq<string>): (r: seq<string>)
    requires Sorted(s)
    ensures Sorted(r)
    ensures multiset(r) == multiset(s) + multiset{x}
    decreases |s|
  {
    if s == [] then [x]
    else if StrLe(x, s[0]) then
      SortedHead(s);
      forall y | y in s ensures StrLe(x, y) {
        StrLeTransitive(x, s[0], y);
      }
      SortedCons(x, s);
      [x] + s
    else
      StrLeTotal(x, s[0]);
      SortedHead(s);
      var t := Insert(x, s[1..]);
      assert s == [s[0]] + s[1..];
      forall y | y in t ensures StrLe(s[0], y) {
        assert y in multiset(t);
        if y != x {
          assert y in multiset(s[1..]);
          assert y in s;
        }
      }
      SortedCons(s[0], t);
      [s[0]] + t
  }

  /** `sorted(s)`: the same strings, duplicates kept, in ascending order. */
  function Sort(s: seq<string>): (r: seq<string>)
    ensures Sorted(r)
    ensures multiset(r) == multiset(s)
    decreases |s|
  {
    if s == [] then []
    else
      assert s == [s[0]] + s[1..];
      Insert(s[0], Sort(s[1..]))
  }

  /** Drops repeated neighbours of a sorted sequence. */
  function Dedup(s: seq<string>): (r: seq<string>)
    requires Sorted(s)
    ensures StrictlySorted(r)
    ensures forall x :: x in r <==> x in s
    decreases |s|
  {
    if |s| <= 1 then s
    else
      var t := Dedup(s[1..]);
      assert s == [s[0]] + s[1..];
      if s[0] == s[1] then t
      else
        SortedHead(s[1..]);
        forall y | y in t ensures StrLt(s[0], y) {
          assert StrLe(s[0], s[1]) && StrLe(s[1], y);
          StrLeTransitive(s[0], s[1], y);
          if s[0] == y {
            StrLeAntisymmetric(s[0], s[1]);
          }
        }
        StrictlySortedCons(s[0], t);
        [s[0]] + t
  }

  /** `sorted(set(s))`: each distinct string once, in ascending order. */
  function SortedSet(s: seq<string>): (r: seq<string>)
    ensures StrictlySorted(r)
    ensures forall x :: x in r <==> x in s
  {
    var t := Sort(s);
    assert forall x :: x in t <==> x in multiset(t);
    assert forall x :: x in s <==> x in multiset(s);
    Dedup(t)
  }
}
