/**
 * Which glyphs fonts2svg makes SVG files for: the names given with `-g`
 * (sorted), or the union or the intersection of the fonts' glyph sets,
 * the latter extended with the names given with `-a`.
 */
module GlyphSelection {
  import opened Wrappers
  import opened Ordering

  /** `x` is a glyph of every font. */
  predicate InAll(x: string, fonts: seq<seq<string>>) {
    forall k :: 0 <= k < |fonts| ==> x in fonts[k]
  }

  /** `x` is a glyph of some font. */
  predicate InSome(x: string, fonts: seq<seq<string>>) {
    exists k :: 0 <= k < |fonts| && x in fonts[k]
  }

  /** All the fonts' glyph names, font after font. */
  function AllNames(fonts: seq<seq<string>>): (r: seq<string>)
    ensures forall x :: x in r <==> InSome(x, fonts)
    decreases |fonts|
  {
    if fonts == [] then []
    else
      var rest := AllNames(fonts[1..]);
      assert forall x :: InSome(x, fonts) <==> x in fonts[0] || InSome(x, fonts[1..]) by {
        forall x | InSome(x, fonts) ensures x in fonts[0] || InSome(x, fonts[1..]) {
          var k :| 0 <= k < |fonts| && x in fonts[k];
          if k > 0 {
            assert x in fonts[1..][k - 1];
          }
        }
        forall x | InSome(x, fonts[1..]) ensures InSome(x, fonts) {
          var k :| 0 <= k < |fonts[1..]| && x in fonts[1..][k];
          assert x in fonts[k + 1];
        }
      }
      fonts[0] + rest
  }

  /** The names of `names` that every font has, in order. */
  function Common(names: seq<string>, fonts: seq<seq<string>>): (r: seq<string>)
    ensures forall x :: x in r <==> x in names && InAll(x, fonts)
    decreases |names|
  {
    if names == [] then []
    else
      var rest := Common(names[1..], fonts);
      assert forall x :: x in names <==> x == names[0] || x in names[1..];
      if InAll(names[0], fonts) then [names[0]] + rest else rest
  }

  /** The glyph-name options: `-g`, `-u` and `-a`. */
  datatype NameOptions = NameOptions(generate: seq<string>, union: bool, add: seq<string>)

  /**
   * The glyph names to convert, in order; `None` for no fonts, where the
   * source raises an assertion error.
   */
  function SelectGlyphNames(opts: NameOptions, fonts: seq<seq<string>>): (r: Option<seq<string>>)
    ensures r.None? <==> fonts == []
    ensures r.Some? && opts.generate != [] ==>
              Sorted(r.value) && multiset(r.value) == multiset(opts.generate)
    ensures r.Some? && opts.generate == [] ==> StrictlySorted(r.value)
    ensures r.Some? && opts.generate == [] && opts.union ==>
              forall x :: x in r.value <==> InSome(x, fonts)
    ensures r.Some? && opts.generate == [] && !opts.union ==>
              forall x :: x in r.value <==> InAll(x, fonts) || x in opts.add
  {
    if fonts == [] then None
    else if opts.generate != [] then Some(Sort(opts.generate))
    else if opts.union then Some(SortedSet(AllNames(fonts)))
    else
      var common := SortedSet(Common(fonts[0], fonts));
      if opts.add == [] then Some(common) else Some(SortedSet(common + opts.add))
  }

  /** Two strictly sorted lists with the same members are the same list. */
  lemma {:induction false} StrictlySortedUnique(a: seq<string>, b: seq<string>)
    requires StrictlySorted(a) && StrictlySorted(b)
    requires forall x :: x in a <==> x in b
    ensures a == b
    decreases |a|
  {
    assert a != [] ==> a[0] in b;
    assert b != [] ==> b[0] in a;
    if a != [] && b != [] {
      assert a[0] in b && b[0] in a;
      if a[0] != b[0] {
        var i :| 0 <= i < |b| && b[i] == a[0];
        var j :| 0 <= j < |a| && a[j] == b[0];
        assert StrLt(b[0], a[0]) by { assert i > 0; }
        assert StrLt(a[0], b[0]) by { assert j > 0; }
        assert StrLe(a[0], b[0]) && StrLe(b[0], a[0]);
        StrLeAntisymmetric(a[0], b[0]);
        assert false;
      }
      forall x ensures x in a[1..] <==> x in b[1..] {
        if x in a[1..] {
          var i :| 1 <= i < |a| && a[i] == x;
          assert StrLt(a[0], x);
          assert x in b && x != b[0];
        }
        if x in b[1..] {
          var i :| 1 <= i < |b| && b[i] == x;
          assert StrLt(b[0], x);
          assert x in a && x != a[0];
        }
      }
      StrictlySortedUnique(a[1..], b[1..]);
      assert a == [a[0]] + a[1..] && b == [b[0]] + b[1..];
    }
  }

  /** With `-u`, the names added with `-a` make no difference. */
  lemma UnionIgnoresAdded(fonts: seq<seq<string>>, add1: seq<string>, add2: seq<string>)
    ensures SelectGlyphNames(NameOptions([], true, add1), fonts)
         == SelectGlyphNames(NameOptions([], true, add2), fonts)
  {
  }

  /** The union never has fewer names than the intersection without additions. */
  lemma IntersectionWithinUnion(fonts: seq<seq<string>>, x: string)
    requires fonts != []
    requires x in SelectGlyphNames(NameOptions([], false, []), fonts).value
    ensures x in SelectGlyphNames(NameOptions([], true, []), fonts).value
  {
    assert x in fonts[0];
  }

  /** The order of the fonts does not change the selection when names come from the fonts. */
  lemma SelectionIgnoresFontOrder(opts: NameOptions, fonts: seq<seq<string>>, i: nat, j: nat)
    requires i < |fonts| && j < |fonts| && opts.generate == []
    ensures SelectGlyphNames(opts, fonts) == SelectGlyphNames(opts, Swap(fonts, i, j))
  {
    var g := Swap(fonts, i, j);
    var r := SelectGlyphNames(opts, fonts).value;
    var s := SelectGlyphNames(opts, g).value;
    assert forall k :: 0 <= k < |fonts| ==> g[k] == fonts[if k == i then j else if k == j then i else k];
    assert forall x :: InSome(x, fonts) <==> InSome(x, g) by {
      forall x | InSome(x, fonts) ensures InSome(x, g) {
        var k :| 0 <= k < |fonts| && x in fonts[k];
        var k' := if k == i then j else if k == j then i else k;
        assert x in g[k'];
      }
      forall x | InSome(x, g) ensures InSome(x, fonts) {
        var k :| 0 <= k < |g| && x in g[k];
        assert x in fonts[if k == i then j else if k == j then i else k];
      }
    }
    assert forall x :: InAll(x, fonts) <==> InAll(x, g) by {
      forall x | InAll(x, fonts) ensures InAll(x, g) {
        forall k | 0 <= k < |g| ensures x in g[k] {
          assert x in fonts[if k == i then j else if k == j then i else k];
        }
      }
      forall x | InAll(x, g) ensures InAll(x, fonts) {
        forall k | 0 <= k < |fonts| ensures x in fonts[k] {
          var k' := if k == i then j else if k == j then i else k;
          assert x in g[k'];
        }
      }
    }
    StrictlySortedUnique(r, s);
  }

  /** The font list with the fonts at `i` and `j` exchanged. */
  function Swap(fonts: seq<seq<string>>, i: nat, j: nat): (r: seq<seq<string>>)
    requires i < |fonts| && j < |fonts|
    ensures |r| == |fonts| && r[i] == fonts[j] && r[j] == fonts[i]
    ensures forall k :: 0 <= k < |fonts| && k != i && k != j ==> r[k] == fonts[k]
  {
    fonts[i := fonts[j]][j := fonts[i]]
  }
}
