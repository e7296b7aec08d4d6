/**
 * The SVG pen of fonts2svg: it turns the outline-drawing calls of a glyph
 * (moveTo, lineTo, curveTo, qCurveTo, closePath, endPath) into SVG path data
 * (section 8.3 of SVG 1.1) accumulated in the string `d`. Coordinates are
 * integers.
 */
module PathPen {
  import opened Wrappers
  import opened Text
  import opened Decimal

  datatype Point = Point(x: int, y: int)

  /** The absolute path-data commands the pen writes. */
  datatype Cmd =
    | M(p: Point)
    | L(p: Point)
    | H(x: int)
    | V(y: int)
    | C(c1: Point, c2: Point, p: Point)
    | Q(c: Point, p: Point)
    | Z

  function Letter(c: Cmd): char {
    match c
    case M(_) => 'M'
    case L(_) => 'L'
    case H(_) => 'H'
    case V(_) => 'V'
    case C(_, _, _) => 'C'
    case Q(_, _) => 'Q'
    case Z => 'Z'
  }

  function Args(c: Cmd): seq<int> {
    match c
    case M(p) => [p.x, p.y]
    case L(p) => [p.x, p.y]
    case H(x) => [x]
    case V(y) => [y]
    case C(c1, c2, p) => [c1.x, c1.y, c2.x, c2.y, p.x, p.y]
    case Q(c, p) => [c.x, c.y, p.x, p.y]
    case Z => []
  }

  /** The text of one command: its letter, then its numbers. */
  function Format(c: Cmd): string {
    [Letter(c)] + NumsText(Args(c))
  }

  function FormatAll(cs: seq<Cmd>): string
    decreases |cs|
  {
    if cs == [] then "" else Format(cs[0]) + FormatAll(cs[1..])
  }

  lemma {:induction false} FormatAllAppend(a: seq<Cmd>, b: seq<Cmd>)
    ensures FormatAll(a + b) == FormatAll(a) + FormatAll(b)
    decreases |a|
  {
    if a == [] {
      assert a + b == b;
    } else {
      assert (a + b)[1..] == a[1..] + b;
      FormatAllAppend(a[1..], b);
    }
  }

  // ---------------------------------------------------------------------
  // Reading path data back
  // ---------------------------------------------------------------------

  /** How many numbers follow each command letter. */
  function Arity(letter: char): Option<nat> {
    match letter
    case 'M' => Some(2)
    case 'L' => Some(2)
    case 'H' => Some(1)
    case 'V' => Some(1)
    case 'C' => Some(6)
    case 'Q' => Some(4)
    case 'Z' => Some(0)
    case _ => None
  }

  function Build(letter: char, vs: seq<int>): Cmd
    requires Arity(letter).Some? && |vs| == Arity(letter).value
  {
    match letter
    case 'M' => M(Point(vs[0], vs[1]))
    case 'L' => L(Point(vs[0], vs[1]))
    case 'H' => H(vs[0])
    case 'V' => V(vs[0])
    case 'C' => C(Point(vs[0], vs[1]), Point(vs[2], vs[3]), Point(vs[4], vs[5]))
    case 'Q' => Q(Point(vs[0], vs[1]), Point(vs[2], vs[3]))
    case 'Z' => Z
  }

  /** Reads path data made of the pen's commands. */
  function ParsePath(s: string): Option<seq<Cmd>>
    decreases |s|
  {
    if s == [] then Some([])
    else
      match Arity(s[0])
      case None => None
      case Some(k) =>
        match ParseNums(s[1..], k)
        case None => None
        case Some((vs, rest)) =>
          match ParsePath(rest)
          case None => None
          case Some(cs) => Some([Build(s[0], vs)] + cs)
  }

  lemma FormatAllHead(cs: seq<Cmd>)
    ensures FormatAll(cs) == [] || !IsDigit(FormatAll(cs)[0])
  {
    if cs != [] {
      assert FormatAll(cs)[0] == Letter(cs[0]);
    }
  }

  lemma ParsePathStep(s: string, k: nat, vs: seq<int>, rest: string, cs: seq<Cmd>)
    requires s != [] && Arity(s[0]) == Some(k)
    requires ParseNums(s[1..], k) == Some((vs, rest))
    requires ParsePath(rest) == Some(cs)
    ensures ParsePath(s) == Some([Build(s[0], vs)] + cs)
  {
  }

  lemma LetterArgs(c: Cmd)
    ensures Arity(Letter(c)) == Some(|Args(c)|)
    ensures Build(Letter(c), Args(c)) == c
  {
  }

  lemma ParseArgs(c: Cmd, rest: string)
    requires rest == [] || !IsDigit(rest[0])
    ensures ParseNums(NumsText(Args(c)) + rest, |Args(c)|) == Some((Args(c), rest))
  {
    if c == Z {
      assert NumsText(Args(c)) + rest == rest;
    } else {
      NumsRoundTrip(Args(c), rest);
    }
  }

  lemma FormatSplit(c: Cmd, rest: string)
    ensures (Format(c) + rest)[0] == Letter(c)
    ensures (Format(c) + rest)[1..] == NumsText(Args(c)) + rest
  {
  }

  lemma ParseOne(c: Cmd, rest: string, cs: seq<Cmd>)
    requires rest == [] || !IsDigit(rest[0])
    requires ParsePath(rest) == Some(cs)
    ensures ParsePath(Format(c) + rest) == Some([c] + cs)
  {
    var s := Format(c) + rest;
    FormatSplit(c, rest);
    LetterArgs(c);
    ParseArgs(c, rest);
    ParsePathStep(s, |Args(c)|, Args(c), rest, cs);
  }

  /** The pen's path data is unambiguous: reading it back gives exactly the commands written. */
  lemma {:induction false} PathRoundTrip(cs: seq<Cmd>)
    ensures ParsePath(FormatAll(cs)) == Some(cs)
    decreases |cs|
  {
    if cs != [] {
      PathRoundTrip(cs[1..]);
      FormatAllHead(cs[1..]);
      ParseOne(cs[0], FormatAll(cs[1..]), cs[1..]);
      assert [cs[0]] + cs[1..] == cs;
    }
  }

  // ---------------------------------------------------------------------
  // The pen as a function of the calls made on it
  // ---------------------------------------------------------------------

  /** The pen's current point `(_lastX, _lastY)`; `None` before a point is set and after a close. */
  datatype PenState = PenState(lastX: Option<int>, lastY: Option<int>)

  const Fresh := PenState(None, None)

  function At(p: Point): PenState {
    PenState(Some(p.x), Some(p.y))
  }

  /** The drawing calls a glyph makes on the pen. */
  datatype PenCall =
    | MoveTo(p: Point)
    | LineTo(p: Point)
    | CurveTo(c1: Point, c2: Point, p: Point)
    | QCurveTo(c: Point, p: Point)
    | ClosePath
    | EndPath

  /** The commands one call appends to `d`. */
  function Emit(st: PenState, call: PenCall): seq<Cmd> {
    match call
    case MoveTo(p) => [M(p)]
    case LineTo(p) =>
      if st.lastX == Some(p.x) && st.lastY == Some(p.y) then []
      else if st.lastX == Some(p.x) then [V(p.y)]
      else if st.lastY == Some(p.y) then [H(p.x)]
      else [L(p)]
    case CurveTo(c1, c2, p) => [C(c1, c2, p)]
    case QCurveTo(c, p) => [Q(c, p)]
    case ClosePath => [Z]
    case EndPath => [Z]
  }

  /** The current point after one call. */
  function Next(st: PenState, call: PenCall): PenState {
    match call
    case MoveTo(p) => At(p)
    case LineTo(p) => At(p)
    case CurveTo(_, _, p) => At(p)
    case QCurveTo(_, p) => At(p)
    case ClosePath => Fresh
    case EndPath => Fresh
  }

  function Draw(st: PenState, calls: seq<PenCall>): seq<Cmd>
    decreases |calls|
  {
    if calls == [] then [] else Emit(st, calls[0]) + Draw(Next(st, calls[0]), calls[1..])
  }

  function Final(st: PenState, calls: seq<PenCall>): PenState
    decreases |calls|
  {
    if calls == [] then st else Final(Next(st, calls[0]), calls[1..])
  }

  lemma {:induction false} DrawAppend(st: PenState, a: seq<PenCall>, b: seq<PenCall>)
    ensures Draw(st, a + b) == Draw(st, a) + Draw(Final(st, a), b)
    ensures Final(st, a + b) == Final(Final(st, a), b)
    decreases |a|
  {
    if a == [] {
      assert a + b == b;
    } else {
      assert (a + b)[1..] == a[1..] + b;
      DrawAppend(Next(st, a[0]), a[1..], b);
    }
  }

  lemma DrawOne(st: PenState, call: PenCall)
    ensures Draw(st, [call]) == Emit(st, call)
    ensures Final(st, [call]) == Next(st, call)
  {
    assert [call][1..] == [];
  }

  // ---------------------------------------------------------------------
  // What the path data draws
  // ---------------------------------------------------------------------

  /** A drawn piece of outline, from point `a` to point `b`. */
  datatype Piece =
    | Line(a: Point, b: Point)
    | Cubic(a: Point, c1: Point, c2: Point, b: Point)
    | Quad(a: Point, c: Point, b: Point)
    | Closing(a: Point, b: Point)

  /**
   * The pieces path data draws by the rules of section 8.3 of SVG 1.1, from
   * current point `cur` in a subpath that started at `start`: `H` keeps the
   * current y, `V` the current x, and `Z` draws back to the start of the
   * subpath and moves there.
   */
  function Render(cur: Point, start: Point, cmds: seq<Cmd>): seq<Piece>
    decreases |cmds|
  {
    if cmds == [] then []
    else
      var rest := cmds[1..];
      match cmds[0]
      case M(p) => Render(p, p, rest)
      case L(p) => [Line(cur, p)] + Render(p, start, rest)
      case H(x) => [Line(cur, Point(x, cur.y))] + Render(Point(x, cur.y), start, rest)
      case V(y) => [Line(cur, Point(cur.x, y))] + Render(Point(cur.x, y), start, rest)
      case C(c1, c2, p) => [Cubic(cur, c1, c2, p)] + Render(p, start, rest)
      case Q(c, p) => [Quad(cur, c, p)] + Render(p, start, rest)
      case Z => [Closing(cur, start)] + Render(start, start, rest)
  }

  /** The current point and subpath start after the commands. */
  function RenderEnd(cur: Point, start: Point, cmds: seq<Cmd>): (Point, Point)
    decreases |cmds|
  {
    if cmds == [] then (cur, start)
    else
      var rest := cmds[1..];
      match cmds[0]
      case M(p) => RenderEnd(p, p, rest)
      case L(p) => RenderEnd(p, start, rest)
      case H(x) => RenderEnd(Point(x, cur.y), start, rest)
      case V(y) => RenderEnd(Point(cur.x, y), start, rest)
      case C(_, _, p) => RenderEnd(p, start, rest)
      case Q(_, p) => RenderEnd(p, start, rest)
      case Z => RenderEnd(start, start, rest)
  }

  lemma {:induction false} RenderAppend(cur: Point, start: Point, a: seq<Cmd>, b: seq<Cmd>)
    ensures Render(cur, start, a + b)
         == Render(cur, start, a) + Render(RenderEnd(cur, start, a).0, RenderEnd(cur, start, a).1, b)
    ensures RenderEnd(cur, start, a + b)
         == RenderEnd(RenderEnd(cur, start, a).0, RenderEnd(cur, start, a).1, b)
    decreases |a|
  {
    if a == [] {
      assert a + b == b;
    } else {
      assert (a + b)[1..] == a[1..] + b;
      assert (a + b)[0] == a[0];
      match a[0]
      case M(p) => RenderAppend(p, p, a[1..], b);
      case L(p) => RenderAppend(p, start, a[1..], b);
      case H(x) => RenderAppend(Point(x, cur.y), start, a[1..], b);
      case V(y) => RenderAppend(Point(cur.x, y), start, a[1..], b);
      case C(_, _, p) => RenderAppend(p, start, a[1..], b);
      case Q(_, p) => RenderAppend(p, start, a[1..], b);
      case Z => RenderAppend(start, start, a[1..], b);
    }
  }

  // ---------------------------------------------------------------------
  // Glyph outlines and what the pen makes of them
  // ---------------------------------------------------------------------

  /** One segment of a contour, to the point `p`. */
  datatype Seg = LineSeg(p: Point) | CurveSeg(c1: Point, c2: Point, p: Point) | QuadSeg(c: Point, p: Point)

  /** A contour: a start point, its segments, and whether it ends in closePath or endPath. */
  datatype Contour = Contour(start: Point, segs: seq<Seg>, closed: bool)

  function SegCall(g: Seg): PenCall {
    match g
    case LineSeg(p) => LineTo(p)
    case CurveSeg(c1, c2, p) => CurveTo(c1, c2, p)
    case QuadSeg(c, p) => QCurveTo(c, p)
  }

  function SegCalls(gs: seq<Seg>): seq<PenCall>
    decreases |gs|
  {
    if gs == [] then [] else [SegCall(gs[0])] + SegCalls(gs[1..])
  }

  function ContourCalls(k: Contour): seq<PenCall> {
    [MoveTo(k.start)] + SegCalls(k.segs) + [if k.closed then ClosePath else EndPath]
  }

  /** The calls a glyph makes on the pen, contour after contour. */
  function GlyphCalls(ks: seq<Contour>): seq<PenCall>
    decreases |ks|
  {
    if ks == [] then [] else ContourCalls(ks[0]) + GlyphCalls(ks[1..])
  }

  /** The pieces of a run of segments drawn from `cur`; a line to the point it starts at is no piece. */
  function SegPieces(cur: Point, gs: seq<Seg>): seq<Piece>
    decreases |gs|
  {
    if gs == [] then []
    else
      var rest := SegPieces(gs[0].p, gs[1..]);
      match gs[0]
      case LineSeg(p) => if p == cur then rest else [Line(cur, p)] + rest
      case CurveSeg(c1, c2, p) => [Cubic(cur, c1, c2, p)] + rest
      case QuadSeg(c, p) => [Quad(cur, c, p)] + rest
  }

  function SegsEnd(cur: Point, gs: seq<Seg>): Point
    decreases |gs|
  {
    if gs == [] then cur else SegsEnd(gs[0].p, gs[1..])
  }

  /**
   * The outline of a glyph: each contour's segments, then a closing line
   * back to its start, whether the contour was closed or left open.
   */
  function Outline(ks: seq<Contour>): seq<Piece>
    decreases |ks|
  {
    if ks == [] then []
    else
      var k := ks[0];
      SegPieces(k.start, k.segs) + [Closing(SegsEnd(k.start, k.segs), k.start)] + Outline(ks[1..])
  }

  lemma {:induction false} SegsDrawn(cur: Point, start: Point, gs: seq<Seg>)
    ensures Render(cur, start, Draw(At(cur), SegCalls(gs))) == SegPieces(cur, gs)
    ensures RenderEnd(cur, start, Draw(At(cur), SegCalls(gs))) == (SegsEnd(cur, gs), start)
    ensures Final(At(cur), SegCalls(gs)) == At(SegsEnd(cur, gs))
    decreases |gs|
  {
    if gs != [] {
      var g := gs[0];
      var call := SegCall(g);
      var calls := SegCalls(gs);
      assert calls == [call] + SegCalls(gs[1..]);
      DrawAppend(At(cur), [call], SegCalls(gs[1..]));
      DrawOne(At(cur), call);
      var e := Emit(At(cur), call);
      var tail := Draw(At(g.p), SegCalls(gs[1..]));
      assert Draw(At(cur), calls) == e + tail;
      RenderAppend(cur, start, e, tail);
      SegsDrawn(g.p, start, gs[1..]);
      if g.LineSeg? && g.p != cur {
        if g.p.x == cur.x {
          assert e == [V(g.p.y)];
        } else if g.p.y == cur.y {
          assert e == [H(g.p.x)];
        }
      }
    } else {
      assert SegCalls(gs) == [];
    }
  }

  lemma ContourDrawn(st: PenState, cur: Point, start: Point, k: Contour)
    ensures Render(cur, start, Draw(st, ContourCalls(k)))
         == SegPieces(k.start, k.segs) + [Closing(SegsEnd(k.start, k.segs), k.start)]
    ensures RenderEnd(cur, start, Draw(st, ContourCalls(k))) == (k.start, k.start)
    ensures Final(st, ContourCalls(k)) == Fresh
  {
    var close := if k.closed then ClosePath else EndPath;
    var body := SegCalls(k.segs);
    assert ContourCalls(k) == [MoveTo(k.start)] + (body + [close]);
    DrawAppend(st, [MoveTo(k.start)], body + [close]);
    DrawOne(st, MoveTo(k.start));
    DrawAppend(At(k.start), body, [close]);
    var mid := Final(At(k.start), body);
    DrawOne(mid, close);
    SegsDrawn(k.start, k.start, k.segs);
    var bodyCmds := Draw(At(k.start), body);
    assert Draw(st, ContourCalls(k)) == [M(k.start)] + (bodyCmds + [Z]);
    RenderAppend(cur, start, [M(k.start)], bodyCmds + [Z]);
    RenderAppend(k.start, k.start, bodyCmds, [Z]);
  }

  /**
   * Read by the rules of SVG 1.1, the pen's path data draws exactly the
   * glyph's outline: the `H`/`V` shortening changes no line, a lineTo to the
   * current point draws nothing, and every contour ends closed.
   */
  lemma {:induction false} GlyphDrawn(st: PenState, cur: Point, start: Point, ks: seq<Contour>)
    ensures Render(cur, start, Draw(st, GlyphCalls(ks))) == Outline(ks)
    ensures ks != [] ==> Final(st, GlyphCalls(ks)) == Fresh
    decreases |ks|
  {
    if ks != [] {
      var k := ks[0];
      DrawAppend(st, ContourCalls(k), GlyphCalls(ks[1..]));
      ContourDrawn(st, cur, start, k);
      RenderAppend(cur, start, Draw(st, ContourCalls(k)), Draw(Fresh, GlyphCalls(ks[1..])));
      GlyphDrawn(Fresh, k.start, k.start, ks[1..]);
    }
  }

  /** A glyph with no contours leaves `d` empty, and one with contours does not. */
  lemma {:induction false} EmptyPathIffNoContours(st: PenState, ks: seq<Contour>)
    ensures FormatAll(Draw(st, GlyphCalls(ks))) == [] <==> ks == []
  {
    if ks != [] {
      var k := ks[0];
      assert GlyphCalls(ks) == [MoveTo(k.start)] + (SegCalls(k.segs) + [if k.closed then ClosePath else EndPath] + GlyphCalls(ks[1..]));
      assert Draw(st, GlyphCalls(ks))[0] == M(k.start);
    }
  }

  /**
   * The path data a glyph's calls leave in `d` reads back, and draws the
   * glyph's outline.
   */
  lemma PathDataDrawsOutline(ks: seq<Contour>, d: string)
    requires d == FormatAll(Draw(Fresh, GlyphCalls(ks)))
    ensures ParsePath(d).Some?
    ensures Render(Point(0, 0), Point(0, 0), ParsePath(d).value) == Outline(ks)
  {
    PathRoundTrip(Draw(Fresh, GlyphCalls(ks)));
    GlyphDrawn(Fresh, Point(0, 0), Point(0, 0), ks);
  }

  // ---------------------------------------------------------------------
  // The pen object
  // ---------------------------------------------------------------------

  /**
   * `SVGPen`: `d` is the path data so far, `lastX`/`lastY` the current point.
   * `calls` records the drawing calls made, to state what `d` holds.
   */
  class SVGPen {
    var d: string
    var lastX: Option<int>
    var lastY: Option<int>
    ghost var calls: seq<PenCall>

    ghost predicate Valid()
      reads this
    {
      d == FormatAll(Draw(Fresh, calls)) && PenState(lastX, lastY) == Final(Fresh, calls)
    }

    constructor()
      ensures Valid() && calls == []
      ensures d == "" && lastX == None && lastY == None
    {
      d := "";
      lastX, lastY := None, None;
      calls := [];
    }

    method MoveTo(p: Point)
      requires Valid()
      modifies this
      ensures Valid() && calls == old(calls) + [PenCall.MoveTo(p)]
      ensures d == old(d) + Format(M(p))
      ensures lastX == Some(p.x) && lastY == Some(p.y)
    {
      Step(calls, PenCall.MoveTo(p));
      d := d + Format(M(p));
      lastX, lastY := Some(p.x), Some(p.y);
      calls := calls + [PenCall.MoveTo(p)];
    }

    /** A line to the current point is dropped; otherwise the shortest of `V`, `H` and `L`. */
    method LineTo(p: Point)
      requires Valid()
      modifies this
      ensures Valid() && calls == old(calls) + [PenCall.LineTo(p)]
      ensures old(lastX) == Some(p.x) && old(lastY) == Some(p.y) ==> d == old(d)
      ensures old(lastX) == Some(p.x) && old(lastY) != Some(p.y) ==> d == old(d) + Format(V(p.y))
      ensures old(lastX) != Some(p.x) && old(lastY) == Some(p.y) ==> d == old(d) + Format(H(p.x))
      ensures old(lastX) != Some(p.x) && old(lastY) != Some(p.y) ==> d == old(d) + Format(L(p))
      ensures lastX == Some(p.x) && lastY == Some(p.y)
    {
      Step(calls, PenCall.LineTo(p));
      calls := calls + [PenCall.LineTo(p)];
      if lastX == Some(p.x) && lastY == Some(p.y) {
        return;
      } else if lastX == Some(p.x) {
        d := d + Format(V(p.y));
      } else if lastY == Some(p.y) {
        d := d + Format(H(p.x));
      } else {
        d := d + Format(L(p));
      }
      lastX, lastY := Some(p.x), Some(p.y);
    }

    method CurveTo(c1: Point, c2: Point, p: Point)
      requires Valid()
      modifies this
      ensures Valid() && calls == old(calls) + [PenCall.CurveTo(c1, c2, p)]
      ensures d == old(d) + Format(C(c1, c2, p))
      ensures lastX == Some(p.x) && lastY == Some(p.y)
    {
      Step(calls, PenCall.CurveTo(c1, c2, p));
      d := d + Format(C(c1, c2, p));
      lastX, lastY := Some(p.x), Some(p.y);
      calls := calls + [PenCall.CurveTo(c1, c2, p)];
    }

    method QCurveTo(c: Point, p: Point)
      requires Valid()
      modifies this
      ensures Valid() && calls == old(calls) + [PenCall.QCurveTo(c, p)]
      ensures d == old(d) + Format(Q(c, p))
      ensures lastX == Some(p.x) && lastY == Some(p.y)
    {
      Step(calls, PenCall.QCurveTo(c, p));
      d := d + Format(Q(c, p));
      lastX, lastY := Some(p.x), Some(p.y);
      calls := calls + [PenCall.QCurveTo(c, p)];
    }

    method ClosePath()
      requires Valid()
      modifies this
      ensures Valid() && calls == old(calls) + [PenCall.ClosePath]
      ensures d == old(d) + "Z"
      ensures lastX == None && lastY == None
    {
      Step(calls, PenCall.ClosePath);
      d := d + Format(Z);
      lastX, lastY := None, None;
      calls := calls + [PenCall.ClosePath];
    }

    /** An open contour is closed all the same. */
    method EndPath()
      requires Valid()
      modifies this
      ensures Valid() && calls == old(calls) + [PenCall.EndPath]
      ensures d == old(d) + "Z"
      ensures lastX == None && lastY == None
    {
      var before := calls;
      ClosePath();
      EndLikeClose(before);
      calls := before + [PenCall.EndPath];
    }
  }

  /** `endPath` draws and leaves the pen as `closePath` does. */
  lemma EndLikeClose(calls: seq<PenCall>)
    ensures FormatAll(Draw(Fresh, calls + [PenCall.EndPath])) == FormatAll(Draw(Fresh, calls + [PenCall.ClosePath]))
    ensures Final(Fresh, calls + [PenCall.EndPath]) == Final(Fresh, calls + [PenCall.ClosePath])
  {
    Step(calls, PenCall.EndPath);
    Step(calls, PenCall.ClosePath);
  }

  /** What one more call does to the pen's path data and current point. */
  lemma Step(calls: seq<PenCall>, call: PenCall)
    ensures FormatAll(Draw(Fresh, calls + [call]))
         == FormatAll(Draw(Fresh, calls)) + FormatAll(Emit(Final(Fresh, calls), call))
    ensures Final(Fresh, calls + [call]) == Next(Final(Fresh, calls), call)
  {
    DrawAppend(Fresh, calls, [call]);
    DrawOne(Final(Fresh, calls), call);
    FormatAllAppend(Draw(Fresh, calls), Emit(Final(Fresh, calls), call));
    var e := Emit(Final(Fresh, calls), call);
    if e != [] {
      assert e == [e[0]];
      assert e[1..] == [];
    }
  }

}
