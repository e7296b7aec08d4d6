/**
 * The regular-expression edits addsvg and dumpsvg make to one SVG document:
 * `setIDvalue` (the `id` of the `<svg>` element), `stripViewBox` (removing the
 * `viewBox` attribute) and `resetViewBox` (setting its min-y to 0).
 *
 * Each regex search is written out as a scanner that makes the choices
 * Python's backtracking engine makes (leftmost start, then the lazy or greedy
 * quantifiers in order).  Where the source passes the matched text back to
 * `re.sub` as a pattern, the model replaces it literally at every occurrence,
 * and requires that the text holds no regex metacharacter.
 */
module SvgEdit {
  import opened Wrappers
  import opened Text
  import opened Decimal

  /** No character of `s` is special in a Python regular expression, so it matches itself. */
  predicate Literal(s: string) {
    forall i :: 0 <= i < |s| ==> !IsMeta(s[i])
  }

  /** The characters with a special meaning in a Python regular expression. */
  predicate IsMeta(c: char) {
    c in ".^$*+?{}[]\\|()"
  }

  /** `[\"|\']`: the quote class of the viewBox patterns (which also admits `|`). */
  predicate IsQuote(c: char) {
    c == '"' || c == '|' || c == '\''
  }

  // ---------------------------------------------------------------------
  // setIDvalue
  // ---------------------------------------------------------------------

  /** `id="..."`: an id attribute with a value free of double quotes. */
  predicate IdText(t: string) {
    |t| >= 5 && t[..4] == "id=\"" && t[|t| - 1] == '"' && '"' !in t[4..|t| - 1]
  }

  /**
   * `(id=\".*?\").+?>` tried with the attribute at `j`: the lazy value stops at
   * the first `"` and one more character must come before some `>`.  Returns
   * the end of the group.
   */
  function IdClose(s: string, j: nat): (r: Option<nat>)
    requires j + 4 <= |s| && s[j..j + 4] == "id=\""
    ensures r.Some? ==> j + 5 <= r.value <= |s| && IdText(s[j..(r.value)])
  {
    match FindFrom("\"", s, j + 4)
    case None => None
    case Some(q) =>
      IdCloseText(s, j, q);
      if FindFrom(">", s, q + 2).Some? then Some(q + 1) else None
  }

  /** The attribute runs from `id="` to the first `"` after it. */
  lemma IdCloseText(s: string, j: nat, q: nat)
    requires j + 4 <= |s| && s[j..j + 4] == "id=\"" && FindFrom("\"", s, j + 4) == Some(q)
    ensures j + 5 <= q + 1 <= |s| && IdText(s[j..q + 1])
  {
    NoneBefore('"', s, j + 4, q);
    assert s[q] == '"';
    assert '"' !in s[j + 4..q];
    assert s[j..q + 1][..4] == s[j..j + 4];
    SliceOfSlice(s, j, q + 1, 4, q - j);
  }

  /** No `c` lies between `from` and the first `c` found from there. */
  lemma NoneBefore(c: char, s: string, from: nat, g: nat)
    requires FindFrom([c], s, from) == Some(g)
    ensures forall k :: from <= k < g ==> s[k] != c
  {
    forall k | from <= k < g ensures s[k] != c {
      assert !([c] <= s[k..]);
    }
  }

  /**
   * `[^>]+?(id=...)` after a `<svg`: the attribute may start at `j` once
   * `s[j - 1]` and every character back to the tag name is not a `>`.
   */
  function IdFrom(s: string, j: nat): (r: Option<(nat, nat)>)
    requires 1 <= j
    ensures r.Some? ==> j <= r.value.0 && r.value.0 + 5 <= r.value.1 <= |s| && IdText(s[r.value.0..(r.value.1)])
    ensures r.Some? ==> '>' !in s[j - 1..(r.value.0)]
    decreases |s| + 1 - j
  {
    if j > |s| || s[j - 1] == '>' then None
    else if j + 4 <= |s| && s[j..j + 4] == "id=\"" && IdClose(s, j).Some? then
      Some((j, IdClose(s, j).value))
    else
      var r := IdFrom(s, j + 1);
      if r.Some? then NoCloseCons(s, j, r.value.0); r else r
  }

  lemma NoCloseCons(s: string, j: nat, e: nat)
    requires 1 <= j <= e <= |s| && s[j - 1] != '>' && '>' !in s[j..e]
    ensures '>' !in s[j - 1..e]
  {
    assert s[j - 1..e] == [s[j - 1]] + s[j..e];
  }

  /** `reIDvalue.search(s[from..])`: the bounds of group 1, the id attribute. */
  function IdSearch(s: string, from: nat): (r: Option<(nat, nat)>)
    ensures r.Some? ==> from + 5 <= r.value.0 && r.value.0 + 5 <= r.value.1 <= |s| && IdText(s[r.value.0..(r.value.1)])
    decreases |s| - from
  {
    match FindFrom("<svg", s, from)
    case None => None
    case Some(i) =>
      match IdFrom(s, i + 5)
      case Some(g) => Some(g)
      case None => IdSearch(s, i + 1)
  }

  /** The attribute written for glyph `gid`: `id="glyph<gid>"`. */
  function IdAttribute(gid: nat): (r: string)
    ensures IdText(r) && Literal(r)
  {
    var n := NatToString(gid);
    assert AllDigits(n);
    var r := "id=\"glyph" + n + "\"";
    assert r[..4] == "id=\"";
    assert r[4..|r| - 1] == "glyph" + n;
    IdAttributeLiteral(n);
    r
  }

  lemma IdAttributeLiteral(n: string)
    requires AllDigits(n)
    ensures Literal("id=\"glyph" + n + "\"")
  {
    var r := "id=\"glyph" + n + "\"";
    forall m | 0 <= m < |r| ensures !IsMeta(r[m]) {
      if m < 9 {
        assert r[m] == "id=\"glyph"[m];
      } else if m < |r| - 1 {
        assert r[m] == n[m - 9];
      }
    }
  }

  /** The id attribute found in `s`, if any, can be used as a literal pattern. */
  predicate IdLiteral(s: string) {
    match IdSearch(s, 0)
    case None => true
    case Some((a, b)) => Literal(s[a..b])
  }

  /**
   * `setIDvalue`: every occurrence of the `<svg>` element's id attribute
   * becomes `id="glyph<gid>"`; without one, every `<svg` gets that attribute.
   */
  function SetIdValue(s: string, gid: nat): string
    requires IdLiteral(s)
  {
    match IdSearch(s, 0)
    case Some((a, b)) => ReplaceAll(s, s[a..b], IdAttribute(gid))
    case None => ReplaceAll(s, "<svg", "<svg " + IdAttribute(gid))
  }

  /** Inserted ids can be taken out again: replacing `<svg id="glyphN"` by `<svg` restores the document. */
  lemma SetIdInserts(s: string, gid: nat)
    requires IdSearch(s, 0).None?
    ensures ReplaceAll(SetIdValue(s, gid), "<svg " + IdAttribute(gid), "<svg") == s
  {
    assert "<svg " + IdAttribute(gid) == "<svg" + (" " + IdAttribute(gid));
    ReplaceAllInsertUndo(s, "<svg", " " + IdAttribute(gid));
  }

  /** A document whose id is already `glyph<gid>` is left as it is. */
  lemma SetIdKeepsOwnId(s: string, gid: nat)
    requires IdSearch(s, 0).Some?
    requires s[IdSearch(s, 0).value.0..IdSearch(s, 0).value.1] == IdAttribute(gid)
    ensures IdLiteral(s) && SetIdValue(s, gid) == s
  {
    ReplaceAllIdentity(s, IdAttribute(gid));
  }

  /** Text without `<svg` has no id attribute to rewrite and no tag to insert one into. */
  lemma SetIdWithoutSvg(s: string, gid: nat)
    requires !Occurs("<svg", s)
    ensures IdLiteral(s) && SetIdValue(s, gid) == s
  {
    assert FindFrom("<svg", s, 0).None? by {
      if FindFrom("<svg", s, 0).Some? {
        NotOccursAt("<svg", s, FindFrom("<svg", s, 0).value);
      }
    }
    ReplaceAllAbsent(s, "<svg", "<svg " + IdAttribute(gid));
  }

  lemma {:induction false} OccursAt(pat: string, s: string, i: nat)
    requires i + |pat| <= |s| && s[i..i + |pat|] == pat
    ensures Occurs(pat, s)
    decreases i
  {
    if i > 0 {
      assert s[1..][i - 1..i - 1 + |pat|] == s[i..i + |pat|];
      OccursAt(pat, s[1..], i - 1);
    } else {
      assert pat <= s;
    }
  }

  /** Text in which `pat` does not occur has no copy of it at `i`. */
  lemma NotOccursAt(pat: string, s: string, i: nat)
    requires i + |pat| <= |s|
    ensures !Occurs(pat, s) ==> s[i..i + |pat|] != pat
  {
    if s[i..i + |pat|] == pat {
      OccursAt(pat, s, i);
    }
  }

  // ---------------------------------------------------------------------
  // stripViewBox
  // ---------------------------------------------------------------------

  /** `[-\d,. ]`: the characters of a viewBox value that addsvg removes. */
  predicate IsValueChar(c: char) {
    IsDigit(c) || c == '-' || c == ',' || c == '.' || c == ' '
  }

  /** `\s*viewBox=[\"|\'](?:[-\d,. ]+)[\"|\']`, as a whole text. */
  predicate ViewBoxAttribute(t: string) {
    exists w :: 0 <= w && w + 11 <= |t| && AllSpace(t[..w]) && t[w..w + 8] == "viewBox="
      && IsQuote(t[w + 8]) && IsQuote(t[|t| - 1])
      && forall i :: w + 9 <= i < |t| - 1 ==> IsValueChar(t[i])
  }

  /**
   * Groups 2 and 3 of `reViewBox` tried at `a`, where group 1 ends: the end of
   * the attribute and the end of `.+?>` (the first `>` after at least one more
   * character).
   */
  function AttrAt(s: string, a: nat): (r: Option<(nat, nat)>)
    requires a <= |s|
    ensures r.Some? ==> a < r.value.0 < r.value.1 <= |s| && s[r.value.1 - 1] == '>'
    ensures r.Some? ==> ViewBoxAttribute(s[a..(r.value.0)])
    ensures r.Some? ==> forall k :: r.value.0 + 1 <= k < r.value.1 - 1 ==> s[k] != '>'
    ensures r.Some? ==> var w := a + Span(s, a, IsSpace); w + 9 < |s| && s[w..w + 8] == "viewBox="
  {
    var w := a + Span(s, a, IsSpace);
    if w + 9 < |s| && s[w..w + 8] == "viewBox=" && IsQuote(s[w + 8]) then AttrValue(s, a, w) else None
  }

  /** The quoted value after `viewBox=` at `w`, and the rest of the tag up to its `>`. */
  function AttrValue(s: string, a: nat, w: nat): (r: Option<(nat, nat)>)
    requires a <= w && w + 9 < |s| && s[w..w + 8] == "viewBox=" && IsQuote(s[w + 8])
    requires forall i :: a <= i < w ==> IsSpace(s[i])
    ensures r.Some? ==> a < r.value.0 < r.value.1 <= |s| && s[r.value.1 - 1] == '>'
    ensures r.Some? ==> ViewBoxAttribute(s[a..(r.value.0)])
    ensures r.Some? ==> forall k :: r.value.0 + 1 <= k < r.value.1 - 1 ==> s[k] != '>'
  {
    var v := Span(s, w + 9, IsValueChar);
    var b := w + 10 + v;
    if v > 0 && b <= |s| && IsQuote(s[b - 1]) then
      match FindFrom(">", s, b + 1)
      case None => None
      case Some(g) =>
        AttrShape(s, a, w, b);
        NoneBefore('>', s, b + 1, g);
        Some((b, g + 1))
    else None
  }

  lemma AttrShape(s: string, a: nat, w: nat, b: nat)
    requires a <= w && w + 11 <= b <= |s|
    requires forall i :: a <= i < w ==> IsSpace(s[i])
    requires s[w..w + 8] == "viewBox=" && IsQuote(s[w + 8]) && IsQuote(s[b - 1])
    requires forall i :: w + 9 <= i < b - 1 ==> IsValueChar(s[i])
    ensures ViewBoxAttribute(s[a..b])
  {
    var t := s[a..b];
    var w1 := w - a;
    assert forall i :: 0 <= i < |t| ==> t[i] == s[a + i];
    assert t[w1..w1 + 8] == s[w..w + 8];
    assert AllSpace(t[..w1]);
    assert forall i :: w1 + 9 <= i < |t| - 1 ==> IsValueChar(t[i]) by {
      forall i | w1 + 9 <= i < |t| - 1 ensures IsValueChar(t[i]) {
        assert t[i] == s[a + i];
      }
    }
  }

  /**
   * A `reViewBox` match: the attribute `s[start..stop]` that group 2 takes and
   * the end `close` of the match, just after the tag's `>`.
   */
  datatype Cut = Cut(start: nat, stop: nat, close: nat)

  /** The lazy group 1 `.+?`: the first `a` from which the rest matches. */
  function AttrSearch(s: string, a: nat): (r: Option<Cut>)
    ensures r.Some? ==> a <= r.value.start < r.value.stop < r.value.close <= |s| && ViewBoxAttribute(s[r.value.start..(r.value.stop)])
    decreases |s| - a
  {
    if a > |s| then None
    else match AttrAt(s, a)
      case Some((b, e)) => Some(Cut(a, b, e))
      case None => AttrSearch(s, a + 1)
  }

  /**
   * `reViewBox.search` from `from`: the attribute `s[a..b]` to drop and the end
   * `e` of the match.  Group 1 holds `<svg` and at least one more character, so
   * the attribute starts five or more characters after the tag.
   */
  function StripMatch(s: string, from: nat): (r: Option<Cut>)
    ensures r.Some? ==> from + 5 <= r.value.start < r.value.stop < r.value.close <= |s|
    ensures r.Some? ==> ViewBoxAttribute(s[r.value.start..(r.value.stop)])
  {
    match FindFrom("<svg", s, from)
    case None => None
    case Some(i) => AttrSearch(s, i + 5)
  }

  /** `reViewBox.sub(r"\g<1>\g<3>", s[from..])`: every match loses its group 2. */
  function StripFrom(s: string, from: nat): (r: string)
    requires from <= |s|
    ensures StripMatch(s, from).None? ==> r == s[from..]
    ensures |r| <= |s| - from
    decreases |s| - from
  {
    match StripMatch(s, from)
    case None => s[from..]
    case Some(Cut(a, b, e)) => s[from..a] + s[b..e] + StripFrom(s, e)
  }

  /** `stripViewBox`: a document without a match comes back unchanged. */
  function StripViewBox(s: string): (r: string)
    ensures StripMatch(s, 0).None? ==> r == s
    ensures StripMatch(s, 0).Some? ==> |r| < |s|
  {
    StripFrom(s, 0)
  }

  /**
   * With one match, the attribute and its leading whitespace are gone and the
   * text before and after it is kept as it was.
   */
  lemma StripOne(s: string)
    requires StripMatch(s, 0).Some?
    requires StripMatch(s, StripMatch(s, 0).value.close).None?
    ensures var Cut(a, b, e) := StripMatch(s, 0).value;
      ViewBoxAttribute(s[a..b]) && StripViewBox(s) == s[..a] + s[b..]
  {
    StripFirst(s);
    var e := StripMatch(s, 0).value.close;
    TailJoin(s, StripMatch(s, 0).value.stop, e, StripFrom(s, e));
  }

  lemma TailJoin(s: string, b: nat, e: nat, x: string)
    requires b <= e <= |s| && x == s[e..]
    ensures s[b..e] + x == s[b..]
  {
  }

  /**
   * Group 1 holds `<svg` and at least one more character, so a document that
   * starts with `<svg ` keeps that blank even when `viewBox` is the first
   * attribute and its own leading blank is the one after the tag name.
   */
  lemma StripKeepsTagBlank(s: string)
    requires "<svg " <= s
    ensures "<svg " <= StripViewBox(s)
  {
    if StripMatch(s, 0).Some? {
      StripFirst(s);
      PrefixKept(s, StripMatch(s, 0).value.start, s[StripMatch(s, 0).value.stop..StripMatch(s, 0).value.close] + StripFrom(s, StripMatch(s, 0).value.close));
    }
  }

  /** The first match is cut out; the text after it is searched again. */
  lemma StripFirst(s: string)
    requires StripMatch(s, 0).Some?
    ensures StripViewBox(s) == s[..StripMatch(s, 0).value.start] + (s[StripMatch(s, 0).value.stop..StripMatch(s, 0).value.close] + StripFrom(s, StripMatch(s, 0).value.close))
  {
    assert s[0..StripMatch(s, 0).value.start] == s[..StripMatch(s, 0).value.start];
  }

  lemma PrefixKept(s: string, a: nat, x: string)
    requires 5 <= a <= |s|
    ensures (s[..a] + x)[..5] == s[..5]
  {
  }

  /** A document without `viewBox=` is returned unchanged. */
  lemma StripWithoutViewBox(s: string)
    requires !Occurs("viewBox=", s)
    ensures StripViewBox(s) == s
  {
    match FindFrom("<svg", s, 0)
    case None =>
    case Some(i) =>
      forall a | i + 5 <= a <= |s| ensures AttrAt(s, a).None? {
        KeyAbsent(s, a, "viewBox=");
        AttrAtNone(s, a);
      }
      AttrSearchNone(s, i + 5);
  }

  /** An attribute match needs the text `viewBox=` after the blanks at `a`. */
  lemma AttrAtNone(s: string, a: nat)
    requires a <= |s|
    requires var w := a + Span(s, a, IsSpace); w + 9 < |s| ==> s[w..w + 8] != "viewBox="
    ensures AttrAt(s, a).None?
  {
  }

  lemma KeyAbsent(s: string, a: nat, key: string)
    requires a <= |s| && |key| == 8 && !Occurs(key, s)
    ensures var w := a + Span(s, a, IsSpace); w + 9 < |s| ==> s[w..w + 8] != key
  {
    var w := a + Span(s, a, IsSpace);
    if w + 9 < |s| {
      NotOccursAt(key, s, w);
    }
  }

  lemma {:induction false} AttrSearchNone(s: string, a: nat)
    requires forall k :: a <= k <= |s| ==> AttrAt(s, k).None?
    ensures AttrSearch(s, a).None?
    decreases |s| - a
  {
    if a <= |s| {
      AttrSearchNone(s, a + 1);
    }
  }

  // ---------------------------------------------------------------------
  // resetViewBox
  // ---------------------------------------------------------------------

  /** `[\d, ]`: the characters of a viewBox value that dumpsvg rewrites. */
  predicate IsResetChar(c: char) {
    IsDigit(c) || c == ',' || c == ' '
  }

  predicate ResetBody(x: string) {
    forall i :: 0 <= i < |x| ==> IsResetChar(x[i])
  }

  /** `viewBox=[\"|\']([\d, ])+?[\"|\']` as a whole text. */
  predicate ResetShape(g: string) {
    |g| >= 11 && g[..8] == "viewBox=" && IsQuote(g[8]) && IsQuote(g[|g| - 1]) && ResetBody(g[9..|g| - 1])
  }

  /** The pattern matches `s[p..k + 1]`. */
  predicate ResetAt(s: string, p: nat, k: nat) {
    p <= k < |s| && ResetShape(s[p..k + 1])
  }

  /** The lazy value run ends at the first quote, so a match from `p` has only one possible end. */
  lemma ResetAtEnd(s: string, p: nat, k: nat)
    requires ResetAt(s, p, k)
    ensures k == p + 9 + Span(s, p + 9, IsResetChar)
  {
    forall i | p + 9 <= i < k ensures IsResetChar(s[i]) {
      ResetAtChar(s, p, k, i);
    }
    assert !IsResetChar(s[k]) by {
      var g := s[p..k + 1];
      assert s[k] == g[|g| - 1];
    }
    SpanIs(s, p + 9, IsResetChar, k - p - 9);
  }

  lemma ResetAtChar(s: string, p: nat, k: nat, i: nat)
    requires p + 9 <= i < k < |s|
    ensures ResetAt(s, p, k) ==> IsResetChar(s[i])
  {
    var g := s[p..k + 1];
    assert g[9..|g| - 1][i - p - 9] == s[i];
  }

  /** `reViewBox.search(s[p..])`: the start and the closing quote of the leftmost match. */
  function FindViewBox(s: string, p: nat): (r: Option<(nat, nat)>)
    ensures r.Some? ==> p <= r.value.0 && ResetAt(s, r.value.0, r.value.1)
    ensures r.Some? ==> forall j, k :: p <= j < r.value.0 ==> !ResetAt(s, j, k)
    ensures r.None? ==> forall j, k :: p <= j ==> !ResetAt(s, j, k)
    decreases |s| - p
  {
    if p + 11 > |s| then None
    else
      var k := p + 9 + Span(s, p + 9, IsResetChar);
      if ResetAt(s, p, k) then Some((p, k))
      else
        NoResetAt(s, p);
        FindViewBox(s, p + 1)
  }

  /** When the only possible end does not close a match, no match starts at `p`. */
  lemma NoResetAt(s: string, p: nat)
    requires !ResetAt(s, p, p + 9 + Span(s, p + 9, IsResetChar))
    ensures forall k :: !ResetAt(s, p, k)
  {
    forall k | ResetAt(s, p, k) ensures false {
      ResetAtEnd(s, p, k);
    }
  }

  /** The text of the first match: from `viewBox=` through its closing quote. */
  function ViewBoxText(s: string): (g: string)
    requires FindViewBox(s, 0).Some?
    ensures ResetShape(g)
  {
    s[FindViewBox(s, 0).value.0..FindViewBox(s, 0).value.1 + 1]
  }

  /** The viewBox text found in `s`, if any, can be used as a literal pattern (its quotes are not `|`). */
  predicate ResetLiteral(s: string) {
    FindViewBox(s, 0).Some? ==> Literal(ViewBoxText(s))
  }

  /** The replacement: the whitespace-separated fields with the second one set to `0`, joined by single blanks. */
  function ResetText(g: string): (r: string)
    requires |Words(g)| >= 2
    ensures |Words(r)| == |Words(g)| && Words(r)[1] == "0"
    ensures forall i :: 0 <= i < |Words(g)| && i != 1 ==> Words(r)[i] == Words(g)[i]
  {
    var fields := Words(g)[1 := "0"];
    assert "0"[0] == '0';
    WordsOfJoin(fields);
    Join(fields, " ")
  }

  /**
   * `resetViewBox`: the first viewBox whose value holds only digits, commas
   * and blanks gets min-y 0, at every place its text occurs.  A value with a
   * single field makes the source fail with an `IndexError`: `None`.
   */
  function ResetViewBox(s: string): (r: Option<string>)
    requires ResetLiteral(s)
  {
    if FindViewBox(s, 0).None? then Some(s) else ResetMatch(s, ViewBoxText(s))
  }

  /** Without a match the text is kept; the source fails exactly when the first match has fewer than two fields. */
  lemma ResetViewBoxOutcome(s: string)
    requires ResetLiteral(s)
    ensures FindViewBox(s, 0).None? ==> ResetViewBox(s) == Some(s)
    ensures ResetViewBox(s).None? <==> (FindViewBox(s, 0).Some? && |Words(ViewBoxText(s))| < 2)
  {
  }

  function ResetMatch(s: string, g: string): (r: Option<string>)
    requires g != [] && Literal(g)
    ensures r.Some? <==> |Words(g)| >= 2
    ensures r.Some? ==> r.value == ReplaceAll(s, g, ResetText(g))
  {
    if |Words(g)| < 2 then None else Some(ReplaceAll(s, g, ResetText(g)))
  }

  /** A viewBox whose value has a `-` or a `.` before its closing quote is not a match. */
  lemma ResetSkipsSigned(s: string, p: nat, i: nat)
    requires p + 9 <= i < |s| && (s[i] == '-' || s[i] == '.')
    requires forall j :: p + 9 <= j < i ==> !IsQuote(s[j])
    ensures forall k :: !ResetAt(s, p, k)
  {
    forall k: nat ensures !ResetAt(s, p, k) {
      SignedNotAt(s, p, i, k);
    }
  }

  lemma SignedNotAt(s: string, p: nat, i: nat, k: nat)
    requires p + 9 <= i < |s| && (s[i] == '-' || s[i] == '.')
    requires forall j :: p + 9 <= j < i ==> !IsQuote(s[j])
    ensures !ResetAt(s, p, k)
  {
    if k <= i {
      assert p <= k ==> s[p..k + 1][k - p] == s[k];
    } else if k < |s| {
      ResetAtChar(s, p, k, i);
    }
  }

  // ---- idempotence

  /** Words of a reset-class text that ends in a non-blank `z`: the last word ends in `z`, the rest are reset-class. */
  lemma {:induction false} TailWords(v: string, z: char) returns (mid: seq<string>, b: string)
    requires ResetBody(v) && !IsSpace(z)
    ensures Words(v + [z]) == mid + [b + [z]]
    ensures ResetBody(b) && AllResetBody(mid)
    decreases |v|
  {
    var L := SkipBlank(v, z);
    var w := v[L..];
    ResetBodySlice(v, L, |v|);
    var last, n := FirstWordFrom(w, z);
    if last {
      mid, b := [], w;
    } else {
      ResetBodySlice(w, n, |w|);
      var mid0, b0 := TailWords(w[n..], z);
      mid, b := TailCons(w, z, n, mid0, b0);
    }
  }

  lemma TailCons(w: string, z: char, n: nat, mid0: seq<string>, b0: string) returns (mid: seq<string>, b: string)
    requires ResetBody(w) && n <= |w|
    requires Words(w + [z]) == [w[..n]] + Words(w[n..] + [z])
    requires Words(w[n..] + [z]) == mid0 + [b0 + [z]]
    requires ResetBody(b0) && AllResetBody(mid0)
    ensures Words(w + [z]) == mid + [b + [z]]
    ensures ResetBody(b) && AllResetBody(mid)
  {
    ResetBodySlice(w, 0, n);
    assert w[0..n] == w[..n];
    mid, b := [w[..n]] + mid0, b0;
    AllResetBodyCons(w[..n], mid0);
  }

  predicate AllResetBody(ms: seq<string>) {
    forall m :: 0 <= m < |ms| ==> ResetBody(ms[m])
  }

  lemma AllResetBodyCons(x: string, ms: seq<string>)
    requires ResetBody(x) && AllResetBody(ms)
    ensures AllResetBody([x] + ms)
  {
    forall m | 0 <= m < |[x] + ms| ensures ResetBody(([x] + ms)[m]) {
      if m > 0 {
        assert ([x] + ms)[m] == ms[m - 1];
      }
    }
  }

  /** The first word of `v + [z]`: either the last one, or a word inside `v` followed by more text. */
  /** The blanks that `str.split()` skips before the first word of `v + [z]`. */
  lemma SkipBlank(v: string, z: char) returns (L: nat)
    requires !IsSpace(z)
    ensures L <= |v| && Words(v + [z]) == Words(v[L..] + [z])
    ensures v[L..] != [] ==> !IsSpace(v[L..][0])
  {
    var x := v + [z];
    L := LeadingSpaces(x);
    LastNotSpace(v, z);
    WordsSkipBlank(x);
    assert x[L..] == v[L..] + [z];
    assert v[L..] != [] ==> !IsSpace(v[L..][0]) by {
      assert x[L..][0] == x[L];
    }
  }

  /** `str.split()` on a text that starts with a non-blank: its first word, then the rest. */
  lemma WordsStart(t: string)
    requires t != [] && !IsSpace(t[0])
    ensures Words(t) == [t[..WordLength(t)]] + Words(t[WordLength(t)..])
  {
    LeadingSpacesStop(t, 0);
    assert t[0..] == t;
  }

  lemma SnocSlices(w: string, z: char, k: nat)
    requires k <= |w|
    ensures (w + [z])[..k] == w[..k] && (w + [z])[k..] == w[k..] + [z]
  {
  }

  lemma WordsSkipBlank(x: string)
    ensures Words(x) == Words(x[LeadingSpaces(x)..])
  {
    var t := x[LeadingSpaces(x)..];
    assert LeadingSpaces(t) == 0 by {
      if t != [] {
        assert t[0] == x[LeadingSpaces(x)];
      }
    }
    assert t[0..] == t;
  }

  /** The first word of `w + [z]`, for a `w` that starts with a non-blank. */
  lemma FirstWordFrom(w: string, z: char) returns (last: bool, n: nat)
    requires !IsSpace(z) && (w != [] ==> !IsSpace(w[0]))
    ensures last ==> Words(w + [z]) == [w + [z]]
    ensures !last ==> 0 < n < |w| && Words(w + [z]) == [w[..(n)]] + Words(w[n..] + [z])
  {
    var t := w + [z];
    var k := WordLength(t);
    WordsStart(t);
    if k == |t| {
      assert t[k..] == [] && t[..k] == t;
      WordsEmpty();
      last, n := true, 0;
    } else {
      WordNotLast(w, z, k);
      SnocSlices(w, z, k);
      last, n := false, k;
    }
  }

  lemma ResetBodySlice(x: string, i: nat, j: nat)
    requires ResetBody(x) && i <= j <= |x|
    ensures ResetBody(x[i..j])
  {
    forall k | 0 <= k < j - i ensures IsResetChar(x[i..j][k]) {
      assert x[i..j][k] == x[i + k];
    }
  }

  lemma LastNotSpace(v: string, z: char)
    requires !IsSpace(z)
    ensures LeadingSpaces(v + [z]) <= |v|
  {
    LeadingSpacesStop(v + [z], |v|);
  }

  /** `str.split()` takes the first word after the leading blanks, then goes on after it. */
  lemma WordsUnfold(x: string) returns (n: nat)
    requires LeadingSpaces(x) < |x|
    ensures n == WordLength(x[LeadingSpaces(x)..])
    ensures Words(x) == [x[LeadingSpaces(x)..][..(n)]] + Words(x[LeadingSpaces(x)..][n..])
  {
    n := WordLength(x[LeadingSpaces(x)..]);
  }

  lemma WordsEmpty()
    ensures Words([]) == []
  {
  }

  /** A word of `w + [z]` that stops short of the end stops at a blank inside `w`. */
  lemma WordNotLast(w: string, z: char, n: nat)
    requires !IsSpace(z) && n == WordLength(w + [z]) && n != |w| + 1
    requires w != [] ==> !IsSpace(w[0])
    ensures 0 < n < |w| && IsSpace(w[n])
  {
    var t := w + [z];
    assert IsSpace(t[n]);
    assert t[|w|] == z;
    if w != [] {
      assert t[0] == w[0];
    }
  }

  lemma {:induction false} WordLengthAppend(w: string, y: string)
    requires NoSpace(w)
    ensures WordLength(w + y) == |w| + WordLength(y)
    decreases |w|
  {
    if w == [] {
      assert w + y == y;
    } else {
      assert (w + y)[1..] == w[1..] + y;
      WordLengthAppend(w[1..], y);
    }
  }

  /** Words of `head`, a reset-class text and a non-blank `z`: the first word starts with `head`. */
  lemma HeadWords(head: string, v: string, z: char) returns (one: bool, a: string, mid: seq<string>, b: string)
    requires head != [] && NoSpace(head) && ResetBody(v) && !IsSpace(z)
    ensures ResetBody(a) && ResetBody(b) && AllResetBody(mid)
    ensures one ==> Words(head + v + [z]) == [head + a + [z]]
    ensures !one ==> Words(head + v + [z]) == [head + a] + mid + [b + [z]]
  {
    var c;
    one, c := HeadSplit(head, v, z);
    if one {
      a, mid, b := v, [], [];
    } else {
      a := v[..c];
      mid, b := HeadMany(v, z, c);
      ListAssoc([head + a], mid, [b + [z]]);
    }
  }

  /** The words after the first one, when it stops at the blank `v[c]`. */
  lemma HeadMany(v: string, z: char, c: nat) returns (mid: seq<string>, b: string)
    requires ResetBody(v) && !IsSpace(z) && c < |v|
    ensures ResetBody(v[..c]) && ResetBody(b) && AllResetBody(mid)
    ensures Words(v[c..] + [z]) == mid + [b + [z]]
  {
    ResetBodySlice(v, c, |v|);
    ResetBodySlice(v, 0, c);
    assert v[0..c] == v[..c];
    mid, b := TailWords(v[c..], z);
  }

  lemma ListAssoc(x: seq<string>, y: seq<string>, z: seq<string>)
    ensures x + (y + z) == x + y + z
  {
  }

  /** The first word of `head + v + [z]` is all of it, or `head` and a part of `v` before a blank. */
  lemma HeadSplit(head: string, v: string, z: char) returns (one: bool, c: nat)
    requires head != [] && NoSpace(head) && !IsSpace(z)
    ensures one ==> Words(head + v + [z]) == [head + v + [z]]
    ensures !one ==> c < |v| && Words(head + v + [z]) == [head + v[..(c)]] + Words(v[c..] + [z])
  {
    var x := head + v + [z];
    assert x[0] == head[0];
    WordsStart(x);
    HeadLength(head, v, z);
    c := WordLength(v + [z]);
    if c == |v| + 1 {
      assert x[..|x|] == x && x[|x|..] == [];
      WordsEmpty();
      one := true;
    } else {
      assert c < |v| by {
        assert (v + [z])[|v|] == z;
      }
      HeadSlices(head, v, z, c);
      one := false;
    }
  }

  /** The first word of `head + v + [z]` runs through `head` into `v + [z]`. */
  lemma HeadLength(head: string, v: string, z: char)
    requires NoSpace(head)
    ensures WordLength(head + v + [z]) == |head| + WordLength(v + [z])
  {
    assert head + v + [z] == head + (v + [z]);
    WordLengthAppend(head, v + [z]);
  }

  lemma HeadSlices(head: string, v: string, z: char, c: nat)
    requires c <= |v|
    ensures (head + v + [z])[..|head| + c] == head + v[..c]
    ensures (head + v + [z])[|head| + c..] == v[c..] + [z]
  {
  }

  lemma {:induction false} JoinBody(ms: seq<string>)
    requires AllResetBody(ms)
    ensures ResetBody(Join(ms, " "))
    decreases |ms|
  {
    if |ms| > 1 {
      JoinBody(ms[1..]);
      var j := Join(ms[1..], " ");
      assert Join(ms, " ") == ms[0] + " " + j;
    }
  }

  lemma {:induction false} JoinSnoc(xs: seq<string>, y: string)
    requires xs != []
    ensures Join(xs + [y], " ") == Join(xs, " ") + " " + y
    decreases |xs|
  {
    if |xs| > 1 {
      assert (xs + [y])[1..] == xs[1..] + [y];
      JoinSnoc(xs[1..], y);
    } else {
      assert (xs + [y])[1..] == [y];
    }
  }

  /** The fields of a match: the first starts with `viewBox=` and the quote, the last ends with the closing quote. */
  lemma ResetWords(g: string) returns (a: string, mid: seq<string>, b: string)
    requires ResetShape(g) && |Words(g)| >= 2
    ensures ResetBody(a) && ResetBody(b) && AllResetBody(mid)
    ensures Words(g) == [g[..9] + a] + mid + [b + [g[|g| - 1]]]
  {
    var head, v, z := g[..9], g[9..|g| - 1], g[|g| - 1];
    ShapeParts(g);
    HeadNoSpace(g);
    a, mid, b := ManyWords(head, v, z);
  }

  lemma ShapeParts(g: string)
    requires |g| >= 10
    ensures g == g[..9] + g[9..|g| - 1] + [g[|g| - 1]]
  {
  }

  lemma ManyWords(head: string, v: string, z: char) returns (a: string, mid: seq<string>, b: string)
    requires head != [] && NoSpace(head) && ResetBody(v) && !IsSpace(z) && |Words(head + v + [z])| >= 2
    ensures ResetBody(a) && ResetBody(b) && AllResetBody(mid)
    ensures Words(head + v + [z]) == [head + a] + mid + [b + [z]]
  {
    var one: bool;
    one, a, mid, b := HeadWords(head, v, z);
  }

  lemma HeadNoSpace(g: string)
    requires |g| >= 9 && g[..8] == "viewBox=" && IsQuote(g[8])
    ensures NoSpace(g[..9])
  {
    forall i | 0 <= i < 9 ensures !IsSpace(g[..9][i]) {
      if i < 8 {
        assert g[..9][i] == "viewBox="[i];
      }
    }
  }

  /** Joining fields shaped as `ResetWords` gives `head`, a reset-class body and `z`. */
  lemma JoinShape(head: string, a: string, rest: seq<string>, b: string, z: char) returns (body: string)
    requires ResetBody(a) && ResetBody(b) && AllResetBody(rest) && rest != []
    ensures ResetBody(body) && |body| >= 2 + |rest[0]|
    ensures Join([head + a] + rest + [b + [z]], " ") == head + body + [z]
  {
    JoinBody(rest);
    var j := Join(rest, " ");
    JoinSnoc([head + a] + rest, b + [z]);
    assert ([head + a] + rest)[1..] == rest;
    JoinHead(rest);
    assert Join([head + a] + rest, " ") == head + a + " " + j;
    body := a + " " + j + " " + b;
    assert ResetBody(" ");
  }

  lemma JoinHead(ms: seq<string>)
    requires ms != []
    ensures |Join(ms, " ")| >= |ms[0]|
  {
  }

  /** With three or more fields, the replacement is itself a match of the pattern. */
  lemma ResetTextShape(g: string)
    requires ResetShape(g) && |Words(g)| >= 3
    ensures ResetShape(ResetText(g))
    ensures ResetText(g)[..9] == g[..9] && ResetText(g)[|ResetText(g)| - 1] == g[|g| - 1]
  {
    var head, z := g[..9], g[|g| - 1];
    var a, mid, b := ResetWords(g);
    var rest := ["0"] + mid[1..];
    UpdateSecond(head + a, mid, b + [z]);
    assert AllResetBody(rest) by {
      assert ResetBody("0");
      assert AllResetBody(mid[1..]);
      AllResetBodyCons("0", mid[1..]);
    }
    var body := JoinShape(head, a, rest, b, z);
    ShapeOf(head, body, z);
  }

  lemma UpdateSecond(x: string, mid: seq<string>, y: string)
    requires |mid| >= 1
    ensures ([x] + mid + [y])[1 := "0"] == [x] + (["0"] + mid[1..]) + [y]
  {
  }

  /** `viewBox=`, a quote, a reset-class body and a closing quote make a match. */
  lemma ShapeOf(head: string, body: string, z: char)
    requires |head| == 9 && head[..8] == "viewBox=" && IsQuote(head[8]) && IsQuote(z)
    requires ResetBody(body) && |body| >= 2
    ensures var r := head + body + [z]; ResetShape(r) && r[..9] == head && r[|r| - 1] == z
  {
    var r := head + body + [z];
    assert r[9..|r| - 1] == body;
    assert r[..8] == head[..8];
  }

  /** Every position before the first match keeps the pattern from matching there. */
  lemma ResetPrefixNoMatch(s: string, p: nat, k: nat)
    requires FirstReset(s, p, k)
    ensures forall j :: 0 <= j < p ==> !(s[p..k + 1] <= s[j..])
  {
    var g := s[p..k + 1];
    forall j | 0 <= j < p && g <= s[j..] ensures false {
      assert s[j..j + |g|] == g;
      assert ResetAt(s, j, j + |g| - 1);
    }
  }

  /**
   * Applying `resetViewBox` to its own result `t` changes nothing, when the
   * first viewBox of `s` has three or more fields.
   */
  lemma ResetIdempotent(s: string) returns (t: string)
    requires ResetLiteral(s) && FindViewBox(s, 0).Some? && |Words(ViewBoxText(s))| >= 3
    ensures ResetViewBox(s) == Some(t) && ResetLiteral(t) && ResetViewBox(t) == Some(t)
  {
    var g := ViewBoxText(s);
    ResetViewBoxAt(s);
    t := ReplaceAll(s, g, ResetText(g));
    ResetSecond(s, g);
  }

  /** The result of the first rewrite is its own rewrite. */
  lemma ResetSecond(s: string, g: string)
    requires FindViewBox(s, 0).Some? && g == ViewBoxText(s) && Literal(g) && |Words(g)| >= 3
    ensures ResetLiteral(ReplaceAll(s, g, ResetText(g)))
    ensures ResetViewBox(ReplaceAll(s, g, ResetText(g))) == Some(ReplaceAll(s, g, ResetText(g)))
  {
    var r := ResetText(g);
    var t := ReplaceAll(s, g, r);
    var p, k := ViewBoxTextAt(s);
    ResetTextShape(g);
    var tail := ResetRewrite(s, p, k, r);
    ResetFirstInResult(s, t, p, k, r);
    ResetTextLiteral(g);
    ResetTextFixed(g);
    ResetFixedPoint(t, r);
  }

  /** The first match, as positions. */
  lemma ViewBoxTextAt(s: string) returns (p: nat, k: nat)
    requires FindViewBox(s, 0).Some?
    ensures FirstReset(s, p, k) && ViewBoxText(s) == s[p..(k + 1)]
  {
    p, k := FindViewBox(s, 0).value.0, FindViewBox(s, 0).value.1;
  }

  /** A text whose first match already reads min-y 0 is left as it is. */
  lemma ResetFixedPoint(t: string, g: string)
    requires FindViewBox(t, 0).Some? && g == ViewBoxText(t)
    requires Literal(g) && |Words(g)| >= 2 && ResetText(g) == g
    ensures ResetLiteral(t) && ResetViewBox(t) == Some(t)
  {
    ResetViewBoxAt(t);
    ReplaceAllIdentity(t, g);
  }

  /** `resetViewBox` on a text with a match rewrites its text. */
  lemma ResetViewBoxAt(t: string)
    requires ResetLiteral(t) && FindViewBox(t, 0).Some?
    ensures ResetViewBox(t) == ResetMatch(t, ViewBoxText(t))
  {
  }

  /** The rewritten text is the text up to the match, the replacement, and the rest rewritten. */
  lemma ResetRewrite(s: string, p: nat, k: nat, r: string) returns (tail: string)
    requires FirstReset(s, p, k)
    ensures ReplaceAll(s, s[p..k + 1], r) == s[..p] + r + tail
    ensures var t := ReplaceAll(s, s[p..k + 1], r); p + |r| <= |t| && t[..p] == s[..p] && t[p..p + |r|] == r
  {
    var g := s[p..k + 1];
    ResetPrefixNoMatch(s, p, k);
    ReplaceAllAt(s, g, r, p);
    tail := ReplaceAll(s[k + 1..], g, r);
    ThreeParts(s[..p], r, tail);
  }

  lemma ThreeParts(a: string, r: string, tail: string)
    ensures var t := a + r + tail; |a| + |r| <= |t| && t[..|a|] == a && t[|a|..|a| + |r|] == r
  {
  }

  /** After the rewrite, the first match is the replacement itself. */
  lemma ResetFirstInResult(s: string, t: string, p: nat, k: nat, r: string)
    requires FirstReset(s, p, k) && ResetShape(r)
    requires p + |r| <= |t| && t[..p] == s[..p] && t[p..p + |r|] == r
    ensures FindViewBox(t, 0).Some? && ViewBoxText(t) == r
  {
    var kr := p + |r| - 1;
    assert t[p..kr + 1] == r;
    assert ResetAt(t, p, kr);
    forall j, k1 | 0 <= j < p ensures !ResetAt(t, j, k1) {
      ResetNotBefore(s, t, p, r, j, k1);
    }
    FindViewBoxIs(t, p, kr);
  }

  /** `s[p..k + 1]` is a match and none starts before it. */
  ghost predicate FirstReset(s: string, p: nat, k: nat) {
    ResetAt(s, p, k) && forall j, k1 :: 0 <= j < p ==> !ResetAt(s, j, k1)
  }

  /** A match with no match starting before it is the one `FindViewBox` finds. */
  lemma FindViewBoxIs(t: string, p: nat, kr: nat)
    requires ResetAt(t, p, kr) && forall j, k1 :: 0 <= j < p ==> !ResetAt(t, j, k1)
    ensures FindViewBox(t, 0) == Some((p, kr))
  {
    var m := FindViewBox(t, 0);
    ResetAtEnd(t, p, kr);
    ResetAtEnd(t, m.value.0, m.value.1);
  }

  /** The replacement keeps the literal first nine characters and closing quote, and adds only reset-class ones. */
  lemma ResetTextLiteral(g: string)
    requires ResetShape(g) && |Words(g)| >= 3 && Literal(g)
    ensures Literal(ResetText(g))
  {
    ResetTextShape(g);
    LiteralFromShape(g, ResetText(g));
  }

  lemma LiteralFromShape(g: string, r: string)
    requires Literal(g) && ResetShape(g) && ResetShape(r)
    requires r[..9] == g[..9] && r[|r| - 1] == g[|g| - 1]
    ensures Literal(r)
  {
    forall m | 0 <= m < |r| ensures !IsMeta(r[m]) {
      if m < 9 {
        assert r[m] == r[..9][m] == g[m];
      } else if m < |r| - 1 {
        assert r[m] == r[9..|r| - 1][m - 9];
      }
    }
  }

  /** The replacement already reads min-y 0, so rewriting it again gives it back. */
  lemma ResetTextFixed(g: string)
    requires |Words(g)| >= 3
    ensures |Words(ResetText(g))| >= 3 && ResetText(ResetText(g)) == ResetText(g)
  {
    var r := ResetText(g);
    var fields := Words(g)[1 := "0"];
    assert "0"[0] == '0';
    WordsOfJoin(fields);
    assert r == Join(fields, " ");
    assert Words(r)[1 := "0"] == fields;
  }

  /** In the rewritten text no match starts before the replacement. */
  lemma ResetNotBefore(s: string, t: string, p: nat, r: string, j: nat, k1: nat)
    requires !ResetAt(s, j, k1) && p <= |s|
    requires |r| >= 9 && r[..8] == "viewBox=" && p + |r| <= |t| && t[..p] == s[..p] && t[p..p + |r|] == r
    requires j < p
    ensures !ResetAt(t, j, k1)
  {
    if k1 < p {
      assert j <= k1 ==> t[j..k1 + 1] == t[..p][j..k1 + 1] && s[j..k1 + 1] == s[..p][j..k1 + 1];
      assert j <= k1 ==> t[j..k1 + 1] == s[j..k1 + 1];
    } else if k1 < |t| {
      assert t[p] == r[0];
      ResetNotAcross(t, p, j, k1);
    }
  }

  /** A match cannot span a `v` at any position after its own start. */
  lemma ResetNotAcross(t: string, p: nat, j: nat, k1: nat)
    requires j < p <= k1 < |t| && t[p] == 'v'
    ensures !ResetAt(t, j, k1)
  {
    var h := t[j..k1 + 1];
    if p < j + 8 {
      assert k1 >= j + 8 ==> h[..8][p - j] == t[p];
    } else if p == j + 8 || p == k1 {
      assert h[p - j] == t[p];
    } else {
      assert h[9..|h| - 1][p - j - 9] == t[p];
    }
  }
}
