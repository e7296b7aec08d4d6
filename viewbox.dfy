/**
 * The viewBox value fonts2svg writes on each SVG document (section 7.7 of
 * SVG 1.1: `min-x min-y width height`). Glyphs are drawn with y pointing
 * down, so a font unit `y` lands at `-y`.
 */
module ViewBox {
  import opened Wrappers
  import opened Decimal

  /** The fields of a font's `head` table that the viewBox is made from. */
  datatype Head = Head(xMin: int, yMin: int, xMax: int, yMax: int, unitsPerEm: nat)

  /** A viewBox value. */
  datatype Box = Box(minX: int, minY: int, width: int, height: int)

  /** `"0 -{} {} {}"` filled with the units per em. */
  function UpmViewBox(upm: nat): string {
    "0 -" + IntToString(upm) + " " + IntToString(upm) + " " + IntToString(upm)
  }

  /**
   * `viewbox_settings`. `head` is `None` when the font has no `head` table;
   * `adjustToGlyph` fits the box to the font's bounding box instead of the
   * em square.
   */
  function ViewBoxSettings(head: Option<Head>, adjustToGlyph: bool): string {
    match head
    case None => UpmViewBox(1000)
    case Some(h) =>
      if adjustToGlyph then NumsText([h.xMin, -h.yMax, h.xMax - h.xMin, h.yMax - h.yMin])
      else UpmViewBox(h.unitsPerEm)
  }

  /** The legacy fonts2svg viewBox: the em square only; `upm` is `None` when reading it failed. */
  function LegacyViewBox(upm: Option<nat>): string {
    UpmViewBox(if upm.Some? then upm.value else 1000)
  }

  /** Reads a viewBox value of four integers. */
  function ParseViewBox(s: string): Option<Box> {
    match ParseNums(s, 4)
    case None => None
    case Some((vs, rest)) => if rest == [] then Some(Box(vs[0], vs[1], vs[2], vs[3])) else None
  }

  lemma UpmText(upm: nat)
    requires upm > 0
    ensures UpmViewBox(upm) == NumsText([0, -(upm as int), upm, upm])
  {
    var u := IntToString(upm);
    var m: int := -(upm as int);
    var vs := [0, m, upm, upm];
    assert IntToString(m) == "-" + u;
    assert vs[1..] == [m, upm, upm] && vs[2..] == [upm, upm] && vs[3..] == [upm];
    NumsTextStep(vs[2..], u, u);
    NumsTextStep(vs[1..], "-" + u, u + " " + u);
    NumsTextStep(vs, "0", "-" + u + " " + (u + " " + u));
    UpmJoin(u);
  }

  lemma UpmJoin(u: string)
    ensures "0 -" + u + " " + u + " " + u == "0" + " " + ("-" + u + " " + (u + " " + u))
  {
  }

  /** The text of two or more numbers: the first, a space, and the rest. */
  lemma NumsTextStep(vs: seq<int>, head: string, tail: string)
    requires |vs| >= 2 && IntToString(vs[0]) == head && NumsText(vs[1..]) == tail
    ensures NumsText(vs) == head + " " + tail
  {
  }

  lemma ReadBack(vs: seq<int>)
    requires |vs| == 4
    ensures ParseViewBox(NumsText(vs)) == Some(Box(vs[0], vs[1], vs[2], vs[3]))
  {
    NumsRoundTrip(vs, []);
    assert NumsText(vs) + [] == NumsText(vs);
  }

  /**
   * Fitted to the glyphs, the viewBox reads back as four numbers and spans
   * exactly the font's bounding box: x from `xMin` to `xMax` and (flipped)
   * y from `-yMax` to `-yMin`.
   */
  lemma FittedViewBoxSpans(h: Head)
    ensures ParseViewBox(ViewBoxSettings(Some(h), true)).Some?
    ensures var b := ParseViewBox(ViewBoxSettings(Some(h), true)).value;
      b.minX == h.xMin && b.minX + b.width == h.xMax &&
      b.minY == -h.yMax && b.minY + b.height == -h.yMin
  {
    var vs := [h.xMin, -h.yMax, h.xMax - h.xMin, h.yMax - h.yMin];
    assert ViewBoxSettings(Some(h), true) == NumsText(vs);
    ReadBack(vs);
  }

  /**
   * Otherwise the viewBox is the em square above the baseline. Section 5.2
   * of the OpenType `head` table chapter puts `unitsPerEm` between 16 and
   * 16384, so it is positive.
   */
  lemma EmViewBoxSpans(h: Head)
    requires h.unitsPerEm > 0
    ensures ParseViewBox(ViewBoxSettings(Some(h), false))
         == Some(Box(0, -(h.unitsPerEm as int), h.unitsPerEm, h.unitsPerEm))
  {
    UpmReadBack(h.unitsPerEm);
  }

  /** Without a `head` table both modes give the 1000-unit em square. */
  lemma DefaultViewBoxSpans(adjustToGlyph: bool)
    ensures ParseViewBox(ViewBoxSettings(None, adjustToGlyph)) == Some(Box(0, -1000, 1000, 1000))
  {
    UpmReadBack(1000);
  }

  /** The em-square text reads back as its four numbers. */
  lemma UpmReadBack(u: nat)
    requires u > 0
    ensures ParseViewBox(UpmViewBox(u)) == Some(Box(0, -(u as int), u, u))
  {
    var box := Box(0, -(u as int), u, u);
    assert UpmViewBox(u) == BoxText(box) by {
      UpmText(u);
    }
    BoxReadBack(box);
  }

  function BoxText(b: Box): string {
    NumsText([b.minX, b.minY, b.width, b.height])
  }

  lemma BoxReadBack(b: Box)
    ensures ParseViewBox(BoxText(b)) == Some(b)
  {
    ReadBack([b.minX, b.minY, b.width, b.height]);
  }

  /** The legacy viewBox is the package's em-square viewBox, 1000 units when the font gives none. */
  lemma LegacyViewBoxAgrees(head: Option<Head>)
    ensures LegacyViewBox(if head.Some? then Some(head.value.unitsPerEm) else None)
         == ViewBoxSettings(head, false)
  {
  }

  lemma Numeral1000()
    ensures IntToString(1000) == "1000"
  {
    assert NatToString(1) == "1" && NatToString(10) == "10" && NatToString(100) == "100";
  }

  lemma Numeral168()
    ensures IntToString(-168) == "-168"
  {
    assert NatToString(1) == "1" && NatToString(16) == "16" && NatToString(168) == "168";
  }

  lemma Numeral850()
    ensures IntToString(-850) == "-850"
  {
    assert NatToString(8) == "8" && NatToString(85) == "85" && NatToString(850) == "850";
  }

  lemma Numeral998()
    ensures IntToString(998) == "998"
  {
    assert NatToString(9) == "9" && NatToString(99) == "99" && NatToString(998) == "998";
  }

  lemma Numeral1151()
    ensures IntToString(1151) == "1151"
  {
    assert NatToString(1) == "1" && NatToString(11) == "11" && NatToString(115) == "115" && NatToString(1151) == "1151";
  }

  /** The em square of 1000 units. */
  lemma UpmExample()
    ensures UpmViewBox(1000) == "0 -1000 1000 1000"
  {
    Numeral1000();
  }

  /** The box fitted to the glyphs of a font with this bounding box. */
  lemma FittedExample()
    ensures ViewBoxSettings(Some(Head(-168, -301, 830, 850, 1000)), true) == "-168 -850 998 1151"
  {
    var vs := [-168, -850, 998, 1151];
    assert ViewBoxSettings(Some(Head(-168, -301, 830, 850, 1000)), true) == NumsText(vs);
    assert vs[1..] == [-850, 998, 1151] && vs[2..] == [998, 1151] && vs[3..] == [1151];
    Numeral1151();
    assert NumsText(vs[3..]) == "1151";
    Numeral998();
    NumsTextStep(vs[2..], "998", "1151");
    FittedJoin();
    Numeral850();
    NumsTextStep(vs[1..], "-850", "998 1151");
    Numeral168();
    NumsTextStep(vs, "-168", "-850 998 1151");
  }

  lemma FittedJoin()
    ensures "998" + " " + "1151" == "998 1151"
    ensures "-850" + " " + "998 1151" == "-850 998 1151"
    ensures "-168" + " " + "-850 998 1151" == "-168 -850 998 1151"
  {
  }

  /** The two viewBox values the tests expect, for a font whose `head` gives this bounding box. */
  lemma ViewBoxExamples()
    ensures ViewBoxSettings(Some(Head(-168, -301, 830, 850, 1000)), true) == "-168 -850 998 1151"
    ensures ViewBoxSettings(Some(Head(-168, -301, 830, 850, 1000)), false) == "0 -1000 1000 1000"
    ensures ViewBoxSettings(None, true) == "0 -1000 1000 1000"
  {
    FittedExample();
    UpmExample();
  }
}
