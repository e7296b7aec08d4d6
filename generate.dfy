/**
 * The SVG generation of fonts2svg (`processFonts`): for each selected glyph
 * name, one `<path>` element per font that has a drawable glyph of that
 * name, filled with the font's colour; glyphs with no element are not
 * saved, and names that clash when lowercased go to a nested folder.
 */
module Generate {
  import opened Wrappers
  import opened Text
  import opened Decimal
  import opened PathPen
  import opened Utils
  import opened Colors
  import opened GlyphSelection
  import opened Ordering

  // ---------------------------------------------------------------------
  // Fonts and their glyphs
  // ---------------------------------------------------------------------

  /**
   * A font's glyph set: its glyph names in glyph order, and each glyph's
   * outline in font units (y up).
   */
  datatype Font = Font(order: seq<string>, glyphs: map<string, seq<Contour>>)

  /** The glyph order lists exactly the glyphs of the set. */
  ghost predicate WellFormed(f: Font) {
    forall x :: x in f.order <==> x in f.glyphs
  }

  function Orders(fonts: seq<Font>): (r: seq<seq<string>>)
    ensures |r| == |fonts| && forall k :: 0 <= k < |fonts| ==> r[k] == fonts[k].order
  {
    seq(|fonts|, k requires 0 <= k < |fonts| => fonts[k].order)
  }

  // ---------------------------------------------------------------------
  // The transform pen: y flipped
  // ---------------------------------------------------------------------

  /** The transformation (1, 0, 0, -1, 0, 0) of the `TransformPen`. */
  function FlipPoint(p: Point): Point {
    Point(p.x, -p.y)
  }

  function FlipSeg(g: Seg): (r: Seg)
    ensures r.p == FlipPoint(g.p)
  {
    match g
    case LineSeg(p) => LineSeg(FlipPoint(p))
    case CurveSeg(c1, c2, p) => CurveSeg(FlipPoint(c1), FlipPoint(c2), FlipPoint(p))
    case QuadSeg(c, p) => QuadSeg(FlipPoint(c), FlipPoint(p))
  }

  function FlipContour(k: Contour): Contour {
    Contour(FlipPoint(k.start), seq(|k.segs|, i requires 0 <= i < |k.segs| => FlipSeg(k.segs[i])), k.closed)
  }

  /** The outline as the SVG pen receives it, y pointing down. */
  function FlipY(ks: seq<Contour>): (r: seq<Contour>)
    ensures |r| == |ks|
    ensures forall i :: 0 <= i < |ks| ==> r[i] == FlipContour(ks[i])
  {
    seq(|ks|, i requires 0 <= i < |ks| => FlipContour(ks[i]))
  }

  /** Flipping twice gives back the outline: the pen loses nothing of the glyph. */
  lemma FlipYTwice(ks: seq<Contour>)
    ensures FlipY(FlipY(ks)) == ks
  {
    forall i | 0 <= i < |ks| ensures FlipContour(FlipContour(ks[i])) == ks[i] {
      var k := ks[i];
      var segs := FlipContour(FlipContour(k)).segs;
      assert |segs| == |k.segs|;
      forall j | 0 <= j < |segs| ensures segs[j] == k.segs[j] {
        match k.segs[j]
        case LineSeg(p) =>
        case CurveSeg(c1, c2, p) =>
        case QuadSeg(c, p) =>
      }
    }
  }

  /** The pen's `d` after the glyph is drawn through the transform pen. */
  function PathData(ks: seq<Contour>): (d: string)
    ensures d == [] <==> ks == []
  {
    EmptyPathIffNoContours(Fresh, FlipY(ks));
    FormatAll(Draw(Fresh, GlyphCalls(FlipY(ks))))
  }

  /** The path data reads back, and draws the glyph's outline upside down. */
  lemma PathDataDrawsFlipped(ks: seq<Contour>)
    ensures ParsePath(PathData(ks)).Some?
    ensures Render(Point(0, 0), Point(0, 0), ParsePath(PathData(ks)).value) == Outline(FlipY(ks))
  {
    PathDataDrawsOutline(FlipY(ks), PathData(ks));
  }

  // ---------------------------------------------------------------------
  // The path element
  // ---------------------------------------------------------------------

  function HexDigitValue(c: char): (v: nat)
    requires IsHexDigit(c)
    ensures v < 16
  {
    if IsDigit(c) then c as int - '0' as int
    else if 'a' <= c <= 'f' then c as int - 'a' as int + 10
    else c as int - 'A' as int + 10
  }

  /** `int(opcHex, 16)` for two hex digits. */
  function AlphaValue(a: string): (v: nat)
    requires |a| == 2 && AllHex(a)
    ensures v < 256
  {
    16 * HexDigitValue(a[0]) + HexDigitValue(a[1])
  }

  /** The opacity `alpha / 255` rounded to hundredths: the nearest whole number of hundredths. */
  function Hundredths(alpha: nat): (h: nat)
    requires alpha < 256
    ensures h <= 100
    ensures -255 < 510 * h - 200 * alpha < 255
  {
    var h := (200 * alpha + 255) / 510;
    HundredthsBounds(alpha, h);
    h
  }

  lemma HundredthsBounds(alpha: nat, h: int)
    requires alpha < 256 && h == (200 * alpha + 255) / 510
    ensures 0 <= h <= 100 && -255 < 510 * h - 200 * alpha < 255
  {
    var r := (200 * alpha + 255) % 510;
    assert 200 * alpha + 255 == 510 * h + r && 0 <= r < 510;
    assert r == 2 * (100 * alpha + 127 - 255 * h) + 1;
  }

  /** `'{:.2f}'.format(alpha / 255)`. */
  function OpacityText(alpha: nat): (r: string)
    requires alpha < 256
    ensures |r| == 4 && r[1] == '.'
  {
    var h := Hundredths(alpha);
    [DigitChar(h / 100), '.', DigitChar(h / 10 % 10), DigitChar(h % 10)]
  }

  lemma OpacityExamples()
    ensures OpacityText(0) == "0.00" && OpacityText(255) == "1.00" && OpacityText(128) == "0.50"
  {
  }

  /**
   * The attributes a font's colour gives its `<path>` element: the first six
   * digits as the fill, after an opacity attribute when an alpha other than
   * `ff` (in any case) is given.
   */
  function Paint(color: string): (r: string)
    requires ValidColor(color)
  {
    var opc :=
      if |color| != 6 && Lower(color[6..]) != "ff" then " opacity=\"" + OpacityText(AlphaValue(color[6..])) + "\""
      else "";
    opc + " fill=\"#" + color[..6] + "\""
  }

  /** The paint of each font's colour, in font order. */
  function Paints(colors: seq<string>): (r: seq<string>)
    requires ValidColors(colors)
    ensures |r| == |colors| && forall k :: 0 <= k < |colors| ==> r[k] == Paint(colors[k])
  {
    seq(|colors|, k requires 0 <= k < |colors| => Paint(colors[k]))
  }

  /** The `<path>` element of one font. */
  function PathElement(paint: string, d: string): (r: string)
    ensures "\t<path" <= r
  {
    "\t<path" + paint + " d=\"" + d + "\"/>\n"
  }

  /** An opaque alpha, `ff` or `FF` or a mix, paints exactly as the colour without alpha. */
  lemma OpaqueAlpha(color: string, alpha: string)
    requires |color| == 6 && AllHex(color) && |alpha| == 2 && AllHex(alpha)
    requires Lower(alpha) == "ff"
    ensures ValidColor(color + alpha)
    ensures Paint(color + alpha) == Paint(color)
  {
    assert (color + alpha)[6..] == alpha;
    assert (color + alpha)[..6] == color;
    assert color[..6] == color;
  }

  /** Any other alpha adds the opacity attribute, with the rounded value. */
  lemma TranslucentAlpha(color: string, alpha: string)
    requires |color| == 6 && AllHex(color) && |alpha| == 2 && AllHex(alpha)
    requires Lower(alpha) != "ff"
    ensures ValidColor(color + alpha)
    ensures Paint(color + alpha) == " opacity=\"" + OpacityText(AlphaValue(alpha)) + "\" fill=\"#" + color + "\""
  {
    assert (color + alpha)[6..] == alpha;
    assert (color + alpha)[..6] == color;
  }

  // ---------------------------------------------------------------------
  // One glyph's SVG document
  // ---------------------------------------------------------------------

  /** The font has a glyph of that name with contours, and the name is not skipped. */
  predicate Drawn(name: string, f: Font, skip: seq<string>) {
    name in f.glyphs && name !in skip && f.glyphs[name] != []
  }

  /** Some font draws the glyph. */
  predicate SomeDraws(name: string, fonts: seq<Font>, skip: seq<string>) {
    exists k :: 0 <= k < |fonts| && Drawn(name, fonts[k], skip)
  }

  predicate ValidColors(colors: seq<string>) {
    forall k :: 0 <= k < |colors| ==> ValidColor(colors[k])
  }

  /** The pen's `d` for the glyph in one font: empty when the font does not draw it. */
  function GlyphData(name: string, f: Font, skip: seq<string>): (d: string)
    ensures |d| == 0 <==> !Drawn(name, f, skip)
  {
    if name in f.glyphs && name !in skip then PathData(f.glyphs[name]) else ""
  }

  /** The path data of the glyph in each font, in font order. */
  function GlyphDatas(name: string, fonts: seq<Font>, skip: seq<string>): (r: seq<string>)
    ensures |r| == |fonts|
    ensures forall k :: 0 <= k < |fonts| ==> r[k] == GlyphData(name, fonts[k], skip)
  {
    seq(|fonts|, k requires 0 <= k < |fonts| => GlyphData(name, fonts[k], skip))
  }

  /** What one font adds to the document: its element, or nothing when its path data is empty. */
  function ElementFor(paint: string, d: string): (r: string)
    ensures |r| == 0 <==> |d| == 0
    ensures |r| != 0 ==> "\t<path" <= r
  {
    if |d| == 0 then "" else PathElement(paint, d)
  }

  /** The element of each font, in font order. */
  function Elements(datas: seq<string>, paints: seq<string>): (r: seq<string>)
    requires |datas| == |paints|
    ensures |r| == |datas|
    ensures forall k :: 0 <= k < |datas| ==> r[k] == ElementFor(paints[k], datas[k])
  {
    seq(|datas|, k requires 0 <= k < |datas| => ElementFor(paints[k], datas[k]))
  }

  /** The texts one after another. */
  function Concat(parts: seq<string>): string
    decreases |parts|
  {
    if parts == [] then "" else Concat(parts[..|parts| - 1]) + parts[|parts| - 1]
  }

  /** The texts together are empty exactly when each is. */
  lemma {:induction false} ConcatEmpty(parts: seq<string>)
    ensures |Concat(parts)| == 0 <==> forall k :: 0 <= k < |parts| ==> |parts[k]| == 0
    decreases |parts|
  {
    if parts != [] {
      var init := parts[..|parts| - 1];
      ConcatEmpty(init);
      assert |Concat(parts)| == |Concat(init)| + |parts[|parts| - 1]|;
      assert forall k :: 0 <= k < |init| ==> init[k] == parts[k];
    }
  }

  /** When every text that is not empty starts with `p`, so do they together. */
  lemma {:induction false} ConcatStart(parts: seq<string>, p: string)
    requires forall k :: 0 <= k < |parts| ==> |parts[k]| == 0 || p <= parts[k]
    ensures |Concat(parts)| == 0 || p <= Concat(parts)
    decreases |parts|
  {
    if parts != [] {
      var init := parts[..|parts| - 1];
      var last := parts[|parts| - 1];
      assert forall k :: 0 <= k < |init| ==> init[k] == parts[k];
      ConcatStart(init, p);
      PrefixGrows(p, Concat(init), last);
      if |Concat(init)| == 0 {
        assert Concat(init) + last == last;
      }
    }
  }

  /** Adding one more text at the end. */
  lemma ConcatNext(parts: seq<string>, i: nat)
    requires i < |parts|
    ensures Concat(parts[..i + 1]) == Concat(parts[..i]) + parts[i]
  {
    assert parts[..i + 1][..i] == parts[..i];
  }

  lemma PrefixGrows(p: string, a: string, b: string)
    ensures p <= a ==> p <= a + b
  {
    if p <= a {
      assert (a + b)[..|p|] == a[..|p|];
    }
  }

  /** The opening tag, with the view box. */
  function Header(viewbox: string): string {
    "<svg" + Attributes(viewbox)
  }

  const SvgNamespace := "http://www.w3.org/2000/svg"

  function Attributes(viewbox: string): string {
    " xmlns=\"" + SvgNamespace + "\" viewBox=\"" + viewbox + "\">\n"
  }

  /** The document of one glyph, whether or not it is saved. */
  function GlyphSvg(name: string, fonts: seq<Font>, colors: seq<string>, skip: seq<string>, viewbox: string): string
    requires |fonts| == |colors| && ValidColors(colors)
  {
    Header(viewbox) + Concat(Elements(GlyphDatas(name, fonts, skip), Paints(colors))) + "</svg>"
  }

  /** The inner loop of `processFonts`: the document of one glyph, font by font. */
  method GlyphDocument(name: string, fonts: seq<Font>, colors: seq<string>, skip: seq<string>, viewbox: string)
    returns (svg: string)
    requires |fonts| == |colors| && ValidColors(colors)
    ensures svg == GlyphSvg(name, fonts, colors, skip, viewbox)
  {
    var elements := FontElements(name, fonts, colors, skip);
    svg := Header(viewbox) + elements + "</svg>";
  }

  /** The font loop of `processFonts`: the path elements of one glyph, font by font. */
  method FontElements(name: string, fonts: seq<Font>, colors: seq<string>, skip: seq<string>)
    returns (elements: string)
    requires |fonts| == |colors| && ValidColors(colors)
    ensures elements == Concat(Elements(GlyphDatas(name, fonts, skip), Paints(colors)))
  {
    ghost var pieces := Elements(GlyphDatas(name, fonts, skip), Paints(colors));
    elements := "";
    for index := 0 to |fonts|
      invariant elements == Concat(pieces[..index])
    {
      ConcatNext(pieces, index);
      elements := AddFontElement(elements, name, fonts[index], colors[index], skip);
    }
    assert pieces[..|fonts|] == pieces;
  }

  /** One round of the font loop: the font's path element, when it draws the glyph. */
  method AddFontElement(svg: string, name: string, f: Font, color: string, skip: seq<string>) returns (r: string)
    requires ValidColor(color)
    ensures r == svg + ElementFor(Paint(color), GlyphData(name, f, skip))
  {
    r := svg;
    if name !in f.glyphs || name in skip {
      assert r + [] == r;
      return;
    }
    var d := PathData(f.glyphs[name]);
    if |d| == 0 {
      assert r + [] == r;
      return;
    }
    r := r + PathElement(Paint(color), d);
  }

  // ---------------------------------------------------------------------
  // The `'<path' not in svgStr` check
  // ---------------------------------------------------------------------

  const PathTag := "<path"

  lemma {:induction false} OccursAfter(a: string, s: string)
    requires Occurs(PathTag, s)
    ensures Occurs(PathTag, a + s)
    decreases |a|
  {
    if a != [] {
      assert (a + s)[1..] == a[1..] + s;
      OccursAfter(a[1..], s);
    } else {
      assert a + s == s;
    }
  }

  lemma {:induction false} OccursBefore(s: string, b: string)
    requires Occurs(PathTag, s)
    ensures Occurs(PathTag, s + b)
    decreases |s|
  {
    if !(PathTag <= s) {
      assert (s + b)[1..] == s[1..] + b;
      OccursBefore(s[1..], b);
    }
  }

  /** Text without `<` cannot hide the tag, and skipping it changes nothing. */
  lemma {:induction false} SkipNoAngle(a: string, b: string)
    requires '<' !in a
    ensures Occurs(PathTag, a + b) <==> Occurs(PathTag, b)
    decreases |a|
  {
    if a != [] {
      assert (a + b)[0] == a[0];
      assert (a + b)[1..] == a[1..] + b;
      SkipNoAngle(a[1..], b);
    } else {
      assert a + b == b;
    }
  }

  /**
   * The document has a `<path` exactly when some font draws the glyph; the
   * view box, made of numbers, cannot contain one.
   */
  lemma GlyphSvgHasPath(name: string, fonts: seq<Font>, colors: seq<string>, skip: seq<string>, viewbox: string)
    requires |fonts| == |colors| && ValidColors(colors)
    requires '<' !in viewbox
    ensures Occurs(PathTag, GlyphSvg(name, fonts, colors, skip, viewbox))
        <==> SomeDraws(name, fonts, skip)
  {
    var datas := GlyphDatas(name, fonts, skip);
    var pieces := Elements(datas, Paints(colors));
    var e := Concat(pieces);
    ConcatEmpty(pieces);
    ConcatStart(pieces, "\t<path");
    assert (forall k :: 0 <= k < |pieces| ==> |pieces[k]| == 0)
       <==> !SomeDraws(name, fonts, skip);
    AttributesNoAngle(viewbox);
    Assoc3("<svg" + Attributes(viewbox), e, "</svg>");
    HeaderSkipped(Attributes(viewbox), e + "</svg>");
    ClosingTag(e);
  }

  lemma AttributesNoAngle(viewbox: string)
    requires '<' !in viewbox
    ensures '<' !in Attributes(viewbox)
  {
    var a, b, c := " xmlns=\"", "\" viewBox=\"", "\">\n";
    assert '<' !in a && '<' !in SvgNamespace && '<' !in b && '<' !in c;
    NoAngleJoin(a, SvgNamespace);
    NoAngleJoin(a + SvgNamespace, b);
    NoAngleJoin(a + SvgNamespace + b, viewbox);
    NoAngleJoin(a + SvgNamespace + b + viewbox, c);
  }

  lemma NotPrefix(p: string, s: string, i: nat)
    requires i < |p| && i < |s| && p[i] != s[i]
    ensures !(p <= s)
  {
  }

  /** Past the opening tag's `<svg`, text without `<` hides no `<path`. */
  lemma HeaderSkipped(rest: string, tail: string)
    requires '<' !in rest
    ensures Occurs(PathTag, "<svg" + rest + tail) <==> Occurs(PathTag, tail)
  {
    var svg := "<svg" + rest + tail;
    NotPrefix(PathTag, svg, 1);
    assert svg[1..] == "svg" + rest + tail;
    SkipNoAngle("svg" + rest, tail);
  }

  /** The elements and the closing tag hold a `<path` exactly when there is an element. */
  lemma ClosingTag(e: string)
    requires e == [] || "\t<path" <= e
    ensures Occurs(PathTag, e + "</svg>") <==> e != []
  {
    if e == [] {
      assert e + "</svg>" == "</svg>";
      NotPrefix(PathTag, "</svg>", 1);
      assert "</svg>"[1..] == "/svg>";
      SkipNoAngle("/svg>", []);
      assert "/svg>" + [] == "/svg>";
    } else {
      assert Occurs(PathTag, e) by { assert PathTag <= e[1..]; }
      OccursBefore(e, "</svg>");
    }
  }

  lemma NoAngleJoin(a: string, b: string)
    requires '<' !in a && '<' !in b
    ensures '<' !in a + b
  {
  }

  /** The view boxes fonts2svg writes are numbers and contain no `<`. */
  lemma {:induction false} NumsTextNoAngle(vs: seq<int>)
    ensures '<' !in NumsText(vs)
    decreases |vs|
  {
    if |vs| > 1 {
      NumsTextNoAngle(vs[1..]);
    }
    if vs != [] {
      IntTextNoAngle(vs[0]);
    }
  }

  lemma IntTextNoAngle(i: int)
    ensures '<' !in IntToString(i)
  {
    var n: nat := if i < 0 then -i else i;
    assert AllDigits(NatToString(n));
  }

  // ---------------------------------------------------------------------
  // The outer loop
  // ---------------------------------------------------------------------

  /** The document of each name, in order. */
  function Documents(names: seq<string>, fonts: seq<Font>, colors: seq<string>, skip: seq<string>, viewbox: string)
    : (r: seq<string>)
    requires |fonts| == |colors| && ValidColors(colors)
    ensures |r| == |names|
    ensures forall p :: 0 <= p < |names| ==> r[p] == GlyphSvg(names[p], fonts, colors, skip, viewbox)
  {
    seq(|names|, p requires 0 <= p < |names| => GlyphSvg(names[p], fonts, colors, skip, viewbox))
  }

  /** Which documents have a `<path`: those that are saved. */
  function HasPaths(docs: seq<string>): (r: seq<bool>)
    ensures |r| == |docs| && forall p :: 0 <= p < |docs| ==> (r[p] <==> Occurs(PathTag, docs[p]))
  {
    seq(|docs|, p requires 0 <= p < |docs| => Occurs(PathTag, docs[p]))
  }

  /** The files for the flagged names, in order, each in the nested folder when its name is listed there. */
  function Saved(names: seq<string>, nested: seq<string>, docs: seq<string>, flags: seq<bool>): (r: seq<SvgFile>)
    requires |docs| == |flags| == |names|
    decreases |names|
  {
    if names == [] then []
    else
      var last := |names| - 1;
      var init := Saved(names[..last], nested, docs[..last], flags[..last]);
      if flags[last] then init + [SvgFile(names[last], names[last] in nested, docs[last])] else init
  }

  /** The files saved for the names: those whose document has a `<path`. */
  function SavedFiles(names: seq<string>, nested: seq<string>, fonts: seq<Font>, colors: seq<string>,
                      skip: seq<string>, viewbox: string): seq<SvgFile>
    requires |fonts| == |colors| && ValidColors(colors)
  {
    var docs := Documents(names, fonts, colors, skip, viewbox);
    Saved(names, nested, docs, HasPaths(docs))
  }

  lemma SavedStep(names: seq<string>, nested: seq<string>, docs: seq<string>, flags: seq<bool>, i: nat)
    requires |docs| == |flags| == |names| && i < |names|
    ensures Saved(names[..i + 1], nested, docs[..i + 1], flags[..i + 1])
         == Saved(names[..i], nested, docs[..i], flags[..i])
            + (if flags[i] then [SvgFile(names[i], names[i] in nested, docs[i])] else [])
  {
    assert names[..i + 1][..i] == names[..i];
    assert docs[..i + 1][..i] == docs[..i];
    assert flags[..i + 1][..i] == flags[..i];
  }

  /** What `processFonts` ends with. */
  datatype Outcome =
    | NoGlyphSets                 // no fonts: the source raises an assertion error
    | NothingToProcess            // no glyph names: "can't produce any SVG files"
    | Done(files: seq<SvgFile>)   // the files saved, then the final message

  /** The names `processFonts` skips: `.notdef` and the excluded ones. */
  function SkipList(exclude: seq<string>): (r: seq<string>)
    ensures ".notdef" in r && forall x :: x in exclude ==> x in r
  {
    [".notdef"] + exclude
  }

  function Processed(fonts: seq<Font>, colors: seq<string>, opts: NameOptions, exclude: seq<string>,
                     viewbox: string): Outcome
    requires |fonts| == |colors| && ValidColors(colors)
  {
    match SelectGlyphNames(opts, Orders(fonts))
    case None => NoGlyphSets
    case Some(names) =>
      if names == [] then NothingToProcess
      else Done(SavedFiles(names, Collisions(names), fonts, colors, SkipList(exclude), viewbox))
  }

  /**
   * `processFonts`: select the names, find the nested ones, and build each
   * glyph's document, keeping those with a path.
   */
  method ProcessFonts(fonts: seq<Font>, colors: seq<string>, opts: NameOptions, exclude: seq<string>,
                      viewbox: string) returns (outcome: Outcome)
    requires |fonts| == |colors| && ValidColors(colors)
    ensures outcome == Processed(fonts, colors, opts, exclude, viewbox)
  {
    var selected := SelectGlyphNames(opts, Orders(fonts));
    if selected.None? {
      return NoGlyphSets;
    }
    var names := selected.value;
    if names == [] {
      return NothingToProcess;
    }
    var skip := SkipList(exclude);
    var nested := NestedFolderNames(names);
    var files := SaveGlyphs(names, nested, fonts, colors, skip, viewbox);
    return Done(files);
  }

  /** The loop of `processFonts` over the selected names. */
  method SaveGlyphs(names: seq<string>, nested: seq<string>, fonts: seq<Font>, colors: seq<string>,
                    skip: seq<string>, viewbox: string) returns (files: seq<SvgFile>)
    requires |fonts| == |colors| && ValidColors(colors)
    ensures files == SavedFiles(names, nested, fonts, colors, skip, viewbox)
  {
    ghost var docs := Documents(names, fonts, colors, skip, viewbox);
    ghost var flags := HasPaths(docs);
    files := [];
    for i := 0 to |names|
      invariant files == Saved(names[..i], nested, docs[..i], flags[..i])
    {
      SavedStep(names, nested, docs, flags, i);
      var svg := GlyphDocument(names[i], fonts, colors, skip, viewbox);
      if Occurs(PathTag, svg) {
        files := files + [SvgFile(names[i], names[i] in nested, svg)];
      }
    }
    assert names[..|names|] == names && docs[..|names|] == docs && flags[..|names|] == flags;
  }

  // ---------------------------------------------------------------------
  // What gets saved, and where
  // ---------------------------------------------------------------------

  /** The positions of `true` in `flags`, in increasing order. */
  function TrueIndices(flags: seq<bool>): (idx: seq<nat>)
    ensures forall i :: 0 <= i < |idx| ==> idx[i] < |flags|
    ensures forall i, j :: 0 <= i < j < |idx| ==> idx[i] < idx[j]
    ensures forall p :: 0 <= p < |flags| ==> (p in idx <==> flags[p])
    decreases |flags|
  {
    if flags == [] then []
    else
      var last := |flags| - 1;
      var prev := TrueIndices(flags[..last]);
      assert forall p :: 0 <= p < last ==> flags[..last][p] == flags[p];
      prev + (if flags[last] then [last] else [])
  }

  /**
   * The saved files follow the names in order, one per flagged name: file
   * `i` is for the name at the `i`-th flagged position, with its document,
   * in the nested folder when the name is listed there.
   */
  lemma {:induction false} SavedIndices(names: seq<string>, nested: seq<string>, docs: seq<string>, flags: seq<bool>)
    requires |docs| == |flags| == |names|
    ensures var files := Saved(names, nested, docs, flags);
            var idx := TrueIndices(flags);
            |idx| == |files| &&
            forall i :: 0 <= i < |idx| ==> files[i] == SvgFile(names[idx[i]], names[idx[i]] in nested, docs[idx[i]])
    decreases |names|
  {
    if names != [] {
      var last := |names| - 1;
      var init, dinit, finit := names[..last], docs[..last], flags[..last];
      SavedIndices(init, nested, dinit, finit);
      var files := Saved(names, nested, docs, flags);
      var before := Saved(init, nested, dinit, finit);
      var prev := TrueIndices(finit);
      assert TrueIndices(flags) == prev + (if flags[last] then [last] else []);
      assert files == before + (if flags[last] then [SvgFile(names[last], names[last] in nested, docs[last])] else []);
      forall i | 0 <= i < |prev|
        ensures files[i] == SvgFile(names[prev[i]], names[prev[i]] in nested, docs[prev[i]])
      {
        assert files[i] == before[i];
        assert init[prev[i]] == names[prev[i]] && dinit[prev[i]] == docs[prev[i]];
      }
    }
  }

  /** Some file has that name. */
  predicate HasFile(files: seq<SvgFile>, x: string) {
    exists i :: 0 <= i < |files| && files[i].name == x
  }

  /** The name is at a flagged position. */
  predicate FlaggedAt(names: seq<string>, flags: seq<bool>, x: string)
    requires |flags| == |names|
  {
    exists p :: 0 <= p < |names| && names[p] == x && flags[p]
  }

  /** A file is saved for a name exactly when the name is at a flagged position. */
  lemma SavedHas(names: seq<string>, nested: seq<string>, docs: seq<string>, flags: seq<bool>, x: string)
    requires |docs| == |flags| == |names|
    ensures var files := Saved(names, nested, docs, flags);
            HasFile(files, x) <==> FlaggedAt(names, flags, x)
  {
    var files := Saved(names, nested, docs, flags);
    var idx := TrueIndices(flags);
    SavedIndices(names, nested, docs, flags);
    if i :| 0 <= i < |files| && files[i].name == x {
      assert idx[i] in idx;
      assert names[idx[i]] == x && flags[idx[i]];
    }
    if p :| 0 <= p < |names| && names[p] == x && flags[p] {
      assert p in idx;
      var i :| 0 <= i < |idx| && idx[i] == p;
      assert files[i].name == x;
    }
  }

  /** A file is saved for a name exactly when the name was selected and some font draws it. */
  lemma SavedExactly(names: seq<string>, nested: seq<string>, fonts: seq<Font>, colors: seq<string>,
                     skip: seq<string>, viewbox: string, x: string)
    requires |fonts| == |colors| && ValidColors(colors)
    requires '<' !in viewbox
    ensures var files := SavedFiles(names, nested, fonts, colors, skip, viewbox);
            HasFile(files, x) <==> x in names && SomeDraws(x, fonts, skip)
  {
    var docs := Documents(names, fonts, colors, skip, viewbox);
    var flags := HasPaths(docs);
    SavedHas(names, nested, docs, flags, x);
    GlyphSvgHasPath(x, fonts, colors, skip, viewbox);
    var doc := GlyphSvg(x, fonts, colors, skip, viewbox);
    if FlaggedAt(names, flags, x) {
      var p :| 0 <= p < |names| && names[p] == x && flags[p];
      assert docs[p] == doc;
    }
    if x in names && SomeDraws(x, fonts, skip) {
      var p :| 0 <= p < |names| && names[p] == x;
      assert docs[p] == doc;
      assert flags[p];
    }
  }

  /** Names in strictly increasing order give files in strictly increasing order: no file is written twice. */
  lemma SavedInOrder(names: seq<string>, nested: seq<string>, fonts: seq<Font>, colors: seq<string>,
                     skip: seq<string>, viewbox: string)
    requires |fonts| == |colors| && ValidColors(colors)
    requires StrictlySorted(names)
    ensures var files := SavedFiles(names, nested, fonts, colors, skip, viewbox);
            forall i, j :: 0 <= i < j < |files| ==> StrLt(files[i].name, files[j].name)
  {
    var docs := Documents(names, fonts, colors, skip, viewbox);
    SavedIndices(names, nested, docs, HasPaths(docs));
  }

  /** A name whose lowercase form came earlier is among the nested names. */
  lemma SeenBeforeNested(names: seq<string>, p: nat)
    requires p < |names| && SeenBefore(names, p)
    ensures names[p] in Collisions(names)
  {
    var idx := CollisionIndices(names);
    var k :| 0 <= k < |idx| && idx[k] == p;
  }

  /**
   * No two files of the main output folder have names that differ only in
   * case: on a case-insensitive file system none overwrites another.
   */
  lemma MainFolderNoCaseClash(names: seq<string>, fonts: seq<Font>, colors: seq<string>,
                              skip: seq<string>, viewbox: string)
    requires |fonts| == |colors| && ValidColors(colors)
    ensures var files := SavedFiles(names, Collisions(names), fonts, colors, skip, viewbox);
            forall i, j :: 0 <= i < j < |files| && !files[i].nested && !files[j].nested
                           ==> Lower(files[i].name) != Lower(files[j].name)
  {
    var files := SavedFiles(names, Collisions(names), fonts, colors, skip, viewbox);
    var docs := Documents(names, fonts, colors, skip, viewbox);
    SavedIndices(names, Collisions(names), docs, HasPaths(docs));
    var idx := TrueIndices(HasPaths(docs));
    forall i, j | 0 <= i < j < |files| && !files[i].nested && !files[j].nested
      ensures Lower(files[i].name) != Lower(files[j].name)
    {
      if SeenBefore(names, idx[j]) {
        SeenBeforeNested(names, idx[j]);
      }
    }
  }

  /** The files of an outcome; none unless it is `Done`. */
  function FilesOf(outcome: Outcome): seq<SvgFile> {
    if outcome.Done? then outcome.files else []
  }

  /**
   * Which glyphs get a file, by option: with `-g`, the named glyphs some
   * font draws; with `-u`, every glyph some font draws; otherwise the
   * glyphs all fonts have, or that `-a` adds, and some font draws. Names
   * in the skip list never get one.
   */
  lemma GlyphFileIff(fonts: seq<Font>, colors: seq<string>, opts: NameOptions, exclude: seq<string>,
                     viewbox: string, x: string)
    requires |fonts| == |colors| && ValidColors(colors)
    requires '<' !in viewbox
    requires forall k :: 0 <= k < |fonts| ==> WellFormed(fonts[k])
    ensures var files := FilesOf(Processed(fonts, colors, opts, exclude, viewbox));
            var drawn := SomeDraws(x, fonts, SkipList(exclude));
            var saved := HasFile(files, x);
            && (opts.generate != [] ==> (saved <==> x in opts.generate && drawn))
            && (opts.generate == [] && opts.union ==> (saved <==> drawn))
            && (opts.generate == [] && !opts.union ==>
                  (saved <==> (InAll(x, Orders(fonts)) || x in opts.add) && drawn))
  {
    var skip := SkipList(exclude);
    var sel := SelectGlyphNames(opts, Orders(fonts));
    var drawn := SomeDraws(x, fonts, skip);
    if sel.Some? {
      var names := sel.value;
      SavedExactly(names, Collisions(names), fonts, colors, skip, viewbox, x);
      if opts.generate != [] {
        assert x in names <==> x in multiset(names);
      }
      if drawn && opts.generate == [] && opts.union {
        var k :| 0 <= k < |fonts| && Drawn(x, fonts[k], skip);
        assert x in Orders(fonts)[k];
      }
    }
  }
}
