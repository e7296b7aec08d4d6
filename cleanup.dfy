/**
 * `cleanupSVGdoc`, which addsvg applies to every SVG document before it goes
 * into the font: it drops XML declarations, removes `enable-background`
 * attributes, closes the white space between elements and shortens the white
 * space inside them. Each regular expression becomes a scanner that takes the
 * same match the backtracking engine takes; each `findall` then `replace`
 * loop becomes a fold of `ReplaceAll` over the matches found.
 */
module Cleanup {
  import opened Wrappers
  import opened Text

  // ---------------------------------------------------------------- XML declarations

  const DeclOpen: string := "<?xml "

  /** Index of the first newline at or after `from`, or the length: where `.` stops matching. */
  function LineEnd(s: string, from: nat): (e: nat)
    requires from <= |s|
    ensures from <= e <= |s|
    ensures forall i :: from <= i < e ==> s[i] != '\n'
    ensures e < |s| ==> s[e] == '\n'
    decreases |s| - from
  {
    if from == |s| || s[from] == '\n' then from else LineEnd(s, from + 1)
  }

  /** The last `?>` inside `s[from..to]`: where the greedy `.*` backs off to. */
  function LastClose(s: string, from: nat, upto: nat): (r: Option<nat>)
    requires from <= upto <= |s|
    ensures r.Some? ==> from <= r.value && r.value + 2 <= upto && s[r.value] == '?' && s[r.value + 1] == '>'
    ensures r.Some? ==> forall j :: r.value < j && j + 2 <= upto ==> !(s[j] == '?' && s[j + 1] == '>')
    ensures r.None? ==> forall j :: from <= j && j + 2 <= upto ==> !(s[j] == '?' && s[j + 1] == '>')
    decreases upto
  {
    if upto < from + 2 then None
    else if s[upto - 2] == '?' && s[upto - 1] == '>' then Some(upto - 2)
    else LastClose(s, from, upto - 1)
  }

  /**
   * Length of the match of `<\?xml .*\?>` at the start of `s`: up to the last
   * `?>` on the line.
   */
  function DeclAt(s: string): (r: Option<nat>)
    ensures r.Some? ==> |DeclOpen| + 2 <= r.value <= |s| && DeclOpen <= s
    ensures r.Some? ==> s[r.value - 2] == '?' && s[r.value - 1] == '>'
    ensures r.Some? ==> forall i :: 0 <= i < r.value ==> s[i] != '\n'
  {
    if DeclOpen <= s then
      match LastClose(s, 6, LineEnd(s, 6))
      case Some(j) => Some(j + 2)
      case None => None
    else None
  }

  /** `reXMLheader.sub('', s)`: the declarations found scanning left to right, removed. */
  function DropDecls(s: string): (r: string)
    ensures |r| <= |s|
    decreases |s|
  {
    if s == [] then []
    else match DeclAt(s)
      case Some(n) => DropDecls(s[n..])
      case None => [s[0]] + DropDecls(s[1..])
  }

  /** A document without a declaration passes through unchanged. */
  lemma {:induction false} DropDeclsAbsent(s: string)
    requires !Occurs(DeclOpen, s)
    ensures DropDecls(s) == s
    decreases |s|
  {
    if s != [] {
      DropDeclsAbsent(s[1..]);
      assert [s[0]] + s[1..] == s;
    }
  }

  /**
   * A declaration that fills its line is removed, up to its closing `?>` and
   * no further, whatever `?>` it holds inside.
   */
  lemma DeclRemoved(body: string, rest: string)
    requires '\n' !in body
    requires rest == [] || rest[0] == '\n'
    ensures DropDecls(DeclOpen + body + "?>" + rest) == DropDecls(rest)
  {
    var s := DeclOpen + body + "?>" + rest;
    var e := |DeclOpen| + |body| + 2;
    assert DeclOpen <= s;
    assert forall i :: 6 <= i < e ==> s[i] != '\n' by {
      forall i | 6 <= i < e ensures s[i] != '\n' {
        if i < 6 + |body| {
          assert s[i] == body[i - 6];
        }
      }
    }
    LineEndIs(s, 6, e);
    assert s[e - 2] == '?' && s[e - 1] == '>';
    assert DeclAt(s) == Some(e);
    assert s[e..] == rest;
  }

  lemma {:induction false} LineEndIs(s: string, from: nat, e: nat)
    requires from <= e <= |s|
    requires forall i :: from <= i < e ==> s[i] != '\n'
    requires e < |s| ==> s[e] == '\n'
    ensures LineEnd(s, from) == e
    decreases e - from
  {
    if from < e {
      LineEndIs(s, from + 1, e);
    }
  }

  // ---------------------------------------------------------------- enable-background

  const BackgroundName: string := " enable-background="

  /** `[\"|\']`: the class holds the bar as well as the two quotes. */
  predicate IsQuoteMark(c: char) {
    c == '"' || c == '|' || c == '\''
  }

  /** `[new\d, ]` */
  predicate IsBackgroundChar(c: char) {
    c == 'n' || c == 'e' || c == 'w' || IsDigit(c) || c == ',' || c == ' '
  }

  /** The match of `reEnableBkgrd` at the start of `u`, if any. */
  function BackgroundAt(u: string): (r: Option<string>)
    ensures r.Some? ==> r.value <= u && BackgroundName <= r.value && |r.value| >= |BackgroundName| + 3
  {
    if BackgroundName <= u && |u| > 19 && IsQuoteMark(u[19]) then
      var k := Span(u, 20, IsBackgroundChar);
      if k > 0 && 20 + k < |u| && IsQuoteMark(u[20 + k]) then Some(u[..21 + k]) else None
    else None
  }

  /** `reEnableBkgrd.findall(s)`: the matches, left to right and not overlapping. */
  function Backgrounds(s: string): (r: seq<string>)
    ensures forall i :: 0 <= i < |r| ==> BackgroundName <= r[i]
    decreases |s|
  {
    if s == [] then []
    else match BackgroundAt(s)
      case Some(t) => [t] + Backgrounds(s[|t|..])
      case None => Backgrounds(s[1..])
  }

  // ---------------------------------------------------------------- replace loops

  /** `for p in pats: s = s.replace(p, rep)` */
  function ReplaceEach(s: string, pats: seq<string>, rep: string): string
    requires forall i :: 0 <= i < |pats| ==> pats[i] != []
    decreases |pats|
  {
    if pats == [] then s else ReplaceEach(ReplaceAll(s, pats[0], rep), pats[1..], rep)
  }

  /** The `findall`/`replace` loop, one pattern at a time. */
  method ReplaceFound(s: string, pats: seq<string>, rep: string) returns (r: string)
    requires forall i :: 0 <= i < |pats| ==> pats[i] != []
    ensures r == ReplaceEach(s, pats, rep)
  {
    r := s;
    for i := 0 to |pats|
      invariant ReplaceEach(r, pats[i..], rep) == ReplaceEach(s, pats, rep)
    {
      assert pats[i..][0] == pats[i] && pats[i..][1..] == pats[i + 1..];
      r := ReplaceAll(r, pats[i], rep);
    }
    assert pats[|pats|..] == [];
  }

  /** Every replacement keeps the non-whitespace content when each pattern carries that of `rep`. */
  lemma {:induction false} ReplaceEachKeepsNonSpace(s: string, pats: seq<string>, rep: string)
    requires forall i :: 0 <= i < |pats| ==> pats[i] != [] && NonSpace(pats[i]) == NonSpace(rep)
    ensures NonSpace(ReplaceEach(s, pats, rep)) == NonSpace(s)
    decreases |pats|
  {
    if pats != [] {
      ReplaceAllKeepsNonSpace(s, pats[0], rep);
      ReplaceEachKeepsNonSpace(ReplaceAll(s, pats[0], rep), pats[1..], rep);
    }
  }

  // ---------------------------------------------------------------- white space between elements

  /** A text `reWhiteSpaceBtween` matches: `>`, white space, `<`. */
  predicate IsGap(t: string) {
    |t| >= 3 && t[0] == '>' && t[|t| - 1] == '<' && AllSpace(t[1..|t| - 1])
  }

  /** The match of `>\s+<` at the start of `u`, if any. */
  function GapAt(u: string): (r: Option<string>)
    ensures r.Some? ==> IsGap(r.value) && r.value <= u
  {
    if |u| >= 2 && u[0] == '>' then
      var k := LeadingSpaces(u[1..]);
      if 0 < k && k + 1 < |u| && u[k + 1] == '<' then
        assert u[..k + 2][1..k + 1] == u[1..][..k];
        Some(u[..k + 2])
      else None
    else None
  }

  /** `reWhiteSpaceBtween.findall(s)` */
  function Gaps(s: string): (r: seq<string>)
    ensures forall i :: 0 <= i < |r| ==> IsGap(r[i])
    decreases |s|
  {
    if s == [] then []
    else match GapAt(s)
      case Some(t) => [t] + Gaps(s[|t|..])
      case None => Gaps(s[1..])
  }

  /** Every text the pattern matches at some position of `s`, overlapping or not. */
  function GapTexts(s: string): (r: set<string>)
    decreases |s|
  {
    if s == [] then {}
    else (match GapAt(s) case Some(t) => {t} case None => {}) + GapTexts(s[1..])
  }

  lemma {:induction false} GapTextsSuffix(s: string, j: nat)
    requires j <= |s|
    ensures GapTexts(s[j..]) <= GapTexts(s)
    decreases j
  {
    if j > 0 {
      GapTextsSuffix(s, j - 1);
      assert s[j - 1..][1..] == s[j..];
    }
  }

  /** Positions that hold no `>` start no match. */
  lemma {:induction false} GapTextsSkip(s: string, m: nat)
    requires m <= |s| && forall i :: 0 <= i < m ==> s[i] != '>'
    ensures GapTexts(s) == GapTexts(s[m..])
    decreases m
  {
    if m > 0 {
      GapTextsSkip(s[1..], m - 1);
      assert s[1..][m - 1..] == s[m..];
    }
  }

  /** `findall` lists every match, including those at positions it never stops at. */
  lemma {:induction false} GapsCover(s: string)
    ensures forall t :: t in GapTexts(s) ==> t in Gaps(s)
    decreases |s|
  {
    if s != [] {
      match GapAt(s)
      case Some(t) =>
        forall i | 0 <= i < |t| - 1 ensures s[1..][i] != '>' {
          assert s[1..][i] == t[i + 1];
          if i < |t| - 2 {
            assert t[1..|t| - 1][i] == t[i + 1];
          }
        }
        GapTextsSkip(s[1..], |t| - 1);
        assert s[1..][|t| - 1..] == s[|t|..];
        GapsCover(s[|t|..]);
      case None =>
        GapsCover(s[1..]);
    }
  }

  /** A match depends only on the characters it covers. */
  lemma GapAtSame(u: string, v: string, m: nat)
    requires GapAt(u).Some? && m == |GapAt(u).value| && m <= |v| && u[..m] == v[..m]
    ensures GapAt(v) == GapAt(u)
  {
    var k := m - 2;
    assert u[1..][..k] == v[1..][..k] by {
      assert u[1..][..k] == u[..m][1..k + 1];
      assert v[1..][..k] == v[..m][1..k + 1];
    }
    assert v[0] == u[..m][0] && v[k + 1] == u[..m][k + 1];
    assert !IsSpace(v[1..][k]);
    LeadingSpacesStop(v[1..], k);
    assert AllSpace(v[1..][..k]);
    assert forall i :: 0 <= i < k ==> IsSpace(v[1..][i]) by {
      forall i | 0 <= i < k ensures IsSpace(v[1..][i]) {
        assert v[1..][..k][i] == v[1..][i];
      }
    }
  }

  /**
   * `replace` copies a prefix that holds neither the pattern's first
   * character nor the replacement's.
   */
  lemma {:induction false} ReplaceAllPrefixKept(x: string, pat: string, rep: string, m: nat)
    requires pat != [] && rep != []
    requires m <= |ReplaceAll(x, pat, rep)|
    requires forall i :: 0 <= i < m ==> ReplaceAll(x, pat, rep)[i] != pat[0] && ReplaceAll(x, pat, rep)[i] != rep[0]
    ensures m <= |x| && x[..m] == ReplaceAll(x, pat, rep)[..m]
    decreases |x|
  {
    if m > 0 && |x| >= |pat| {
      ReplacedHead(x, pat, rep);
      if !(pat <= x) {
        var r1 := ReplaceAll(x[1..], pat, rep);
        assert ReplaceAll(x, pat, rep) == [x[0]] + r1;
        assert forall i :: 0 <= i < m - 1 ==> r1[i] == ReplaceAll(x, pat, rep)[i + 1];
        ReplaceAllPrefixKept(x[1..], pat, rep, m - 1);
        assert x[..m] == [x[0]] + x[1..][..m - 1];
        assert ReplaceAll(x, pat, rep)[..m] == [x[0]] + r1[..m - 1];
      }
    }
  }

  /** Where the pattern starts the text, the result starts with the replacement. */
  lemma ReplacedHead(x: string, pat: string, rep: string)
    requires pat != [] && rep != []
    ensures pat <= x ==> ReplaceAll(x, pat, rep) != [] && ReplaceAll(x, pat, rep)[0] == rep[0]
  {
  }

  /** A match that starts at a copied character was already a match of the original text. */
  lemma CarriedGap(s: string, t: string)
    requires IsGap(t) && s != []
    ensures var u := [s[0]] + ReplaceAll(s[1..], t, "><");
      GapAt(u).Some? ==> GapAt(s) == GapAt(u)
  {
    var r1 := ReplaceAll(s[1..], t, "><");
    var u := [s[0]] + r1;
    if GapAt(u).Some? {
      var m := |GapAt(u).value|;
      GapNoOpen(u);
      CarriedPrefix(s, t, "><", r1, u, m);
      GapAtSame(u, s, m);
    }
  }

  /** The text before the first `>` at a copied character is copied unchanged. */
  lemma CarriedPrefix(s: string, t: string, rep: string, r1: string, u: string, m: nat)
    requires IsGap(t) && s != [] && rep != [] && rep[0] == '>'
    requires r1 == ReplaceAll(s[1..], t, rep) && u == [s[0]] + r1
    requires 1 <= m <= |u| && forall i :: 1 <= i < m ==> u[i] != '>'
    ensures m <= |s| && u[..m] == s[..m]
  {
    assert forall i :: 0 <= i < m - 1 ==> r1[i] == u[i + 1];
    ReplaceAllPrefixKept(s[1..], t, rep, m - 1);
    ConsSlices(s, r1, u, m - 1);
  }

  lemma ConsSlices(s: string, r1: string, u: string, n: nat)
    requires s != [] && u == [s[0]] + r1 && n < |s| && n <= |r1| && s[1..][..n] == r1[..n]
    ensures u[..n + 1] == s[..n + 1]
  {
    assert s[..n + 1] == [s[0]] + s[1..][..n];
    assert u[..n + 1] == [s[0]] + r1[..n];
  }

  /** A match holds no `>` after its first character. */
  lemma GapNoOpen(u: string)
    requires GapAt(u).Some?
    ensures forall i :: 1 <= i < |GapAt(u).value| ==> u[i] != '>'
  {
    var g := GapAt(u).value;
    forall i | 1 <= i < |g| ensures u[i] != '>' {
      assert u[i] == g[i];
      if i < |g| - 1 {
        assert g[1..|g| - 1][i - 1] == g[i];
      }
    }
  }

  /** Inserting `><` creates no match at its `>`. */
  lemma InsertedNoGap(r: string)
    ensures GapTexts("><" + r) == GapTexts(r)
  {
    var u := "><" + r;
    assert u[1..][1..] == r;
    assert GapAt(u[1..]) == None;
    assert LeadingSpaces(u[1..]) == 0;
  }

  /** One replacement removes its own text from the matches and adds none. */
  lemma {:induction false} BetweenStep(s: string, t: string)
    requires IsGap(t)
    ensures GapTexts(ReplaceAll(s, t, "><")) <= GapTexts(s) - {t}
    decreases |s|
  {
    if |s| < |t| {
      GapTextsShort(s, t);
    } else if t <= s {
      var r1 := ReplaceAll(s[|t|..], t, "><");
      BetweenStep(s[|t|..], t);
      GapTextsSuffix(s, |t|);
      InsertedNoGap(r1);
    } else {
      var r1 := ReplaceAll(s[1..], t, "><");
      var u := [s[0]] + r1;
      BetweenStep(s[1..], t);
      assert u[1..] == r1;
      CarriedGap(s, t);
      if GapAt(u).Some? {
        assert GapAt(u).value != t;
      }
    }
  }

  /** Matches are no longer than the text. */
  lemma {:induction false} GapTextsShort(s: string, t: string)
    requires |s| < |t|
    ensures t !in GapTexts(s)
    decreases |s|
  {
    if s != [] {
      GapTextsShort(s[1..], t);
    }
  }

  /** Replacing every listed match leaves none behind. */
  lemma {:induction false} BetweenClears(s: string, pats: seq<string>)
    requires forall i :: 0 <= i < |pats| ==> pats[i] != [] && IsGap(pats[i])
    requires forall g :: g in GapTexts(s) ==> g in pats
    ensures GapTexts(ReplaceEach(s, pats, "><")) == {}
    decreases |pats|
  {
    if pats != [] {
      var s' := ReplaceAll(s, pats[0], "><");
      BetweenStep(s, pats[0]);
      forall g | g in GapTexts(s') ensures g in pats[1..] {
        var i :| 0 <= i < |pats| && pats[i] == g;
        assert i != 0;
        assert pats[1..][i - 1] == g;
      }
      BetweenClears(s', pats[1..]);
    }
  }

  // ---------------------------------------------------------------- white space within elements

  /** `reWhiteSpaceWithin.findall(s)`: the maximal runs of white space. */
  function Runs(s: string): (r: seq<string>)
    ensures forall i :: 0 <= i < |r| ==> r[i] != [] && AllSpace(r[i])
    decreases |s|
  {
    if s == [] then []
    else if IsSpace(s[0]) then
      var k := LeadingSpaces(s);
      [s[..k]] + Runs(s[k..])
    else Runs(s[1..])
  }

  lemma {:induction false} AllSpaceNonSpace(s: string)
    requires AllSpace(s)
    ensures NonSpace(s) == []
    decreases |s|
  {
    if s != [] {
      AllSpaceNonSpace(s[1..]);
    }
  }

  /** The first non-blank character of a text is the first of its non-whitespace content. */
  lemma {:induction false} FirstNonSpace(v: string)
    ensures LeadingSpaces(v) < |v| ==> NonSpace(v) != [] && NonSpace(v)[0] == v[LeadingSpaces(v)]
    ensures LeadingSpaces(v) == |v| ==> NonSpace(v) == []
    decreases |v|
  {
    if v != [] && IsSpace(v[0]) {
      FirstNonSpace(v[1..]);
    }
  }

  /** A replacement of blanks by a space starts with a blank only where the text did. */
  lemma ReplaceAllHeadSpace(x: string, run: string)
    requires run != [] && AllSpace(run)
    ensures var r := ReplaceAll(x, run, " ");
      r != [] && IsSpace(r[0]) ==> x != [] && IsSpace(x[0])
  {
    if |x| >= |run| && run <= x {
      assert x[0] == run[0];
    }
  }

  /** Shortening blanks creates no `>`-blanks-`<` match that was not already there. */
  lemma SpaceGapCarried(s: string, run: string)
    requires run != [] && AllSpace(run) && s != []
    ensures var u := [s[0]] + ReplaceAll(s[1..], run, " ");
      GapAt(u).Some? ==> GapAt(s).Some?
  {
    var x := s[1..];
    var r1 := ReplaceAll(x, run, " ");
    var u := [s[0]] + r1;
    if GapAt(u).Some? {
      assert u[1..] == r1;
      var k := LeadingSpaces(r1);
      assert r1[k] == '<';
      AllSpaceNonSpace(run);
      ReplaceAllKeepsNonSpace(x, run, " ");
      FirstNonSpace(r1);
      FirstNonSpace(x);
      ReplaceAllHeadSpace(x, run);
      var k' := LeadingSpaces(x);
      assert x[k'] == '<';
    }
  }

  /** One shortening of blanks keeps a text free of matches. */
  lemma {:induction false} WithinStep(s: string, run: string)
    requires run != [] && AllSpace(run) && GapTexts(s) == {}
    ensures GapTexts(ReplaceAll(s, run, " ")) == {}
    decreases |s|
  {
    if |s| >= |run| {
      if run <= s {
        var r1 := ReplaceAll(s[|run|..], run, " ");
        GapTextsSuffix(s, |run|);
        WithinStep(s[|run|..], run);
        assert (" " + r1)[1..] == r1;
      } else {
        var r1 := ReplaceAll(s[1..], run, " ");
        var u := [s[0]] + r1;
        GapTextsSuffix(s, 1);
        WithinStep(s[1..], run);
        assert u[1..] == r1;
        SpaceGapCarried(s, run);
      }
    }
  }

  lemma {:induction false} WithinClears(s: string, pats: seq<string>)
    requires forall i :: 0 <= i < |pats| ==> pats[i] != [] && AllSpace(pats[i])
    requires GapTexts(s) == {}
    ensures GapTexts(ReplaceEach(s, pats, " ")) == {}
    decreases |pats|
  {
    if pats != [] {
      WithinStep(s, pats[0]);
      WithinClears(ReplaceAll(s, pats[0], " "), pats[1..]);
    }
  }

  // ---------------------------------------------------------------- cleanupSVGdoc

  function NoBackgrounds(s: string): string {
    ReplaceEach(s, Backgrounds(s), "")
  }

  function Between(s: string): string {
    ReplaceEach(s, Gaps(s), "><")
  }

  function Within(s: string): string {
    ReplaceEach(s, Runs(s), " ")
  }

  /** What `cleanupSVGdoc` returns. */
  function Cleaned(s: string): string {
    Within(Between(NoBackgrounds(DropDecls(s))))
  }

  method CleanupSvgDoc(data: string) returns (r: string)
    ensures r == Cleaned(data)
  {
    r := DropDecls(data);
    r := ReplaceFound(r, Backgrounds(r), "");
    r := ReplaceFound(r, Gaps(r), "><");
    r := ReplaceFound(r, Runs(r), " ");
  }

  /** No `>` is followed by white space only and then `<`. */
  predicate NoBlankBetweenTags(r: string) {
    forall i, j :: 0 <= i && i + 1 < j < |r| && r[i] == '>' && r[j] == '<' ==> !AllSpace(r[i + 1..j])
  }

  /** No two elements of the result are left with only white space between them. */
  lemma CleanedHasNoGap(data: string)
    ensures NoBlankBetweenTags(Cleaned(data))
  {
    var b := NoBackgrounds(DropDecls(data));
    GapsCover(b);
    BetweenClears(b, Gaps(b));
    WithinClears(Between(b), Runs(Between(b)));
    GapFree(Cleaned(data));
  }

  lemma GapFree(r: string)
    requires GapTexts(r) == {}
    ensures NoBlankBetweenTags(r)
  {
    forall i, j | 0 <= i && i + 1 < j < |r| && r[i] == '>' && r[j] == '<'
      ensures !AllSpace(r[i + 1..j])
    {
      NoGapBetween(r, i, j);
    }
  }

  lemma NoGapBetween(r: string, i: nat, j: nat)
    requires GapTexts(r) == {} && i + 1 < j < |r| && r[i] == '>' && r[j] == '<'
    ensures !AllSpace(r[i + 1..j])
  {
    GapTextsSuffix(r, i);
    GapFound(r, i, j);
  }

  /** `>`, blanks and `<` at position `i` of a text is a match there. */
  lemma GapFound(r: string, i: nat, j: nat)
    requires i + 1 < j < |r| && r[i] == '>' && r[j] == '<'
    ensures AllSpace(r[i + 1..j]) ==> GapTexts(r[i..]) != {}
  {
    if AllSpace(r[i + 1..j]) {
      var u := r[i..];
      var k := j - i;
      assert u[1..][..k - 1] == r[i + 1..j];
      assert !IsSpace(u[1..][k - 1]);
      LeadingSpacesStop(u[1..], k - 1);
      assert GapAt(u).Some?;
    }
  }

  /**
   * Apart from the declarations and `enable-background` attributes, cleaning
   * keeps every non-blank character in order: it only removes or shortens
   * white space.
   */
  lemma CleanedKeepsContent(data: string)
    ensures NonSpace(Cleaned(data)) == NonSpace(NoBackgrounds(DropDecls(data)))
  {
    var b := NoBackgrounds(DropDecls(data));
    var gs := Gaps(b);
    forall i | 0 <= i < |gs| ensures NonSpace(gs[i]) == NonSpace("><") {
      GapNonSpace(gs[i]);
    }
    ReplaceEachKeepsNonSpace(b, gs, "><");
    var w := Between(b);
    var rs := Runs(w);
    assert NonSpace(" ") == [];
    forall i | 0 <= i < |rs| ensures NonSpace(rs[i]) == NonSpace(" ") {
      AllSpaceNonSpace(rs[i]);
    }
    ReplaceEachKeepsNonSpace(w, rs, " ");
  }

  lemma GapNonSpace(t: string)
    requires IsGap(t)
    ensures NonSpace(t) == NonSpace("><")
  {
    var n := |t|;
    assert t == [t[0]] + t[1..n - 1] + [t[n - 1]];
    NonSpaceConcat([t[0]] + t[1..n - 1], [t[n - 1]]);
    NonSpaceConcat([t[0]], t[1..n - 1]);
    AllSpaceNonSpace(t[1..n - 1]);
    assert NonSpace("><") == "><";
  }

  /**
   * Each run is replaced wherever it occurs, not only where it was found, so
   * a shorter run inside a longer one is cut first: blanks are not always
   * reduced to one.
   */
  lemma NotACollapse(s: string)
    requires s == "a  b   c"
    ensures Within(s) == "a b  c"
  {
    ExampleRuns();
    ExampleReplaced();
    ExampleNoTriple();
    ReplaceEachTwo(s, "  ", "   ", " ");
  }

  lemma ExampleNoTriple()
    ensures ReplaceAll("a b  c", "   ", " ") == "a b  c"
  {
    var three := "   ";
    var t := "a b  c";
    assert t[1..] == " b  c" && t[2..] == "b  c" && t[3..] == "  c" && t[4..] == " c";
    assert t[0] != three[0] && t[1..][1] != three[1] && t[2..][0] != three[0] && t[3..][2] != three[2];
    assert ReplaceAll(t[4..], three, " ") == t[4..];
    assert ReplaceAll(t[3..], three, " ") == t[3..];
    assert ReplaceAll(t[2..], three, " ") == t[2..];
    assert ReplaceAll(t[1..], three, " ") == t[1..];
  }

  lemma ReplaceEachTwo(s: string, p: string, q: string, rep: string)
    requires p != [] && q != []
    ensures ReplaceEach(s, [p, q], rep) == ReplaceAll(ReplaceAll(s, p, rep), q, rep)
  {
    assert [p, q][1..] == [q] && [q][1..] == [];
    var once := ReplaceAll(s, p, rep);
    assert ReplaceEach(once, [q], rep) == ReplaceEach(ReplaceAll(once, q, rep), [], rep);
  }

  lemma ExampleRuns()
    ensures Runs("a  b   c") == ["  ", "   "]
  {
    var t := "   c";
    assert LeadingSpaces(t) == 3 && t[..3] == "   " && t[3..] == "c";
    assert Runs("c") == [];
    assert Runs(t) == ["   "];
    var u := "  b   c";
    assert u[2..] == "b   c" && "b   c"[1..] == t;
    assert LeadingSpaces(u) == 2 && u[..2] == "  ";
    assert Runs(u) == ["  "] + Runs("b   c");
    var s := "a  b   c";
    assert s[1..] == u && !IsSpace(s[0]);
  }

  lemma ExampleReplaced()
    ensures ReplaceAll("a  b   c", "  ", " ") == "a b  c"
  {
    var two := "  ";
    var s := "a  b   c";
    assert s[1..] == "  b   c" && "  b   c"[2..] == "b   c" && "b   c"[1..] == "   c";
    assert "   c"[2..] == " c" && " c"[1..] == "c";
    assert !(two <= " c") && !(two <= "b   c") && !(two <= s);
    assert ReplaceAll(" c", two, " ") == " c";
    assert ReplaceAll("   c", two, " ") == "  c";
    assert ReplaceAll("b   c", two, " ") == "b  c";
    assert ReplaceAll("  b   c", two, " ") == " b  c";
  }
}
