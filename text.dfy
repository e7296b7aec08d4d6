/**
 * The pieces of Python's `str` behaviour the tools rely on, over `seq<char>`:
 * whitespace and digit classes, ASCII case folding, `strip`, `split`,
 * `str.split()`, `join` and `replace`.
 */
module Text {
  import opened Wrappers

  /** `str.isspace()`: the characters that `\s`, `str.split()` and `str.strip()` treat as whitespace. */
  predicate IsSpace(c: char) {
    || c == ' '
    || '\t' <= c <= '\r'
    || '\U{1c}' <= c <= '\U{1f}'
    || c == '\U{85}' || c == '\U{a0}' || c == '\U{1680}'
    || '\U{2000}' <= c <= '\U{200a}'
    || c == '\U{2028}' || c == '\U{2029}' || c == '\U{202f}' || c == '\U{205f}' || c == '\U{3000}'
  }

  /** An ASCII decimal digit. */
  predicate IsDigit(c: char) {
    '0' <= c <= '9'
  }

  predicate IsHexDigit(c: char) {
    IsDigit(c) || 'a' <= c <= 'f' || 'A' <= c <= 'F'
  }

  predicate AllSpace(s: string) {
    forall i :: 0 <= i < |s| ==> IsSpace(s[i])
  }

  predicate NoSpace(s: string) {
    forall i :: 0 <= i < |s| ==> !IsSpace(s[i])
  }

  /** `str.lower()` restricted to ASCII letters. */
  function LowerChar(c: char): (r: char)
    ensures 'A' <= c <= 'Z' ==> r as int == c as int + 32
    ensures !('A' <= c <= 'Z') ==> r == c
  {
    if 'A' <= c <= 'Z' then (c as int + 32) as char else c
  }

  function Lower(s: string): (r: string)
    ensures |r| == |s|
    ensures forall i :: 0 <= i < |s| ==> r[i] == LowerChar(s[i])
  {
    seq(|s|, i requires 0 <= i < |s| => LowerChar(s[i]))
  }

  predicate EndsWith(s: string, suffix: string) {
    |suffix| <= |s| && s[|s| - |suffix|..] == suffix
  }

  /** `pat` occurs somewhere in `s`. */
  predicate Occurs(pat: string, s: string)
    decreases |s|
  {
    pat <= s || (s != [] && Occurs(pat, s[1..]))
  }


  /** Where a regular expression's `$` matches: at the end, or before a newline that ends the text. */
  predicate AtEnd(s: string, k: nat) {
    k == |s| || (k == |s| - 1 && s[k] == '\n')
  }

  // ---------------------------------------------------------------- search

  /** `s.find(pat, from)`: the first index at or after `from` where `pat` starts. */
  function FindFrom(pat: string, s: string, from: nat): (r: Option<nat>)
    requires pat != []
    ensures r.Some? ==> from <= r.value && r.value + |pat| <= |s| && s[r.value..(r.value + |pat|)] == pat
    ensures r.Some? ==> forall j :: from <= j < r.value ==> !(pat <= s[j..])
    ensures r.None? ==> forall j :: from <= j <= |s| ==> !(pat <= s[j..])
    decreases |s| - from
  {
    if from + |pat| > |s| then None
    else if pat <= s[from..] then Some(from)
    else FindFrom(pat, s, from + 1)
  }

  /** Length of the run of characters satisfying `p` that starts at index `k`. */
  function Span(s: string, k: nat, p: char -> bool): (n: nat)
    ensures n == 0 || k + n <= |s|
    ensures forall i :: k <= i < k + n ==> p(s[i])
    ensures k + n < |s| ==> !p(s[k + n])
    decreases |s| - k
  {
    if k < |s| && p(s[k]) then 1 + Span(s, k + 1, p) else 0
  }

  /** A run of `n` characters satisfying `p` followed by one that does not is exactly the span. */
  lemma {:induction false} SpanIs(s: string, k: nat, p: char -> bool, n: nat)
    requires k + n < |s| && !p(s[k + n])
    requires forall i :: k <= i < k + n ==> p(s[i])
    ensures Span(s, k, p) == n
    decreases n
  {
    if n > 0 {
      assert p(s[k]);
      SpanIs(s, k + 1, p, n - 1);
    }
  }

  // ---------------------------------------------------------------- strip

  /** Number of leading whitespace characters. */
  function LeadingSpaces(s: string): (n: nat)
    ensures n <= |s|
    ensures AllSpace(s[..(n)])
    ensures n < |s| ==> !IsSpace(s[n])
    decreases |s|
  {
    if s != [] && IsSpace(s[0]) then 1 + LeadingSpaces(s[1..]) else 0
  }

  /** The leading blanks stop at the first non-blank character. */
  lemma {:induction false} LeadingSpacesStop(s: string, i: nat)
    requires i < |s| && !IsSpace(s[i])
    ensures LeadingSpaces(s) <= i
    decreases i
  {
    if i > 0 && IsSpace(s[0]) {
      assert s[1..][i - 1] == s[i];
      LeadingSpacesStop(s[1..], i - 1);
    }
  }

  /** Number of trailing whitespace characters. */
  function TrailingSpaces(s: string): (n: nat)
    ensures n <= |s|
    ensures AllSpace(s[|s| - n..])
    ensures n < |s| ==> !IsSpace(s[|s| - n - 1])
    decreases |s|
  {
    if s != [] && IsSpace(s[|s| - 1]) then
      var m := TrailingSpaces(s[..|s| - 1]);
      TrailingStep(s, m);
      1 + m
    else 0
  }

  lemma TrailingStep(s: string, m: nat)
    requires s != [] && IsSpace(s[|s| - 1]) && m <= |s| - 1
    requires AllSpace(s[..|s| - 1][|s| - 1 - m..])
    requires m < |s| - 1 ==> !IsSpace(s[..|s| - 1][|s| - 1 - m - 1])
    ensures AllSpace(s[|s| - (m + 1)..])
    ensures m + 1 < |s| ==> !IsSpace(s[|s| - (m + 1) - 1])
  {
    var t := s[..|s| - 1];
    var u := s[|s| - (m + 1)..];
    forall i | 0 <= i < m + 1 ensures IsSpace(u[i]) {
      if i < m {
        assert u[i] == t[|s| - 1 - m..][i];
      }
    }
    if m + 1 < |s| {
      assert s[|s| - (m + 1) - 1] == t[|s| - 1 - m - 1];
    }
  }

  /** `str.strip()`: the text with leading and trailing whitespace removed. */
  function Strip(s: string): (r: string)
    ensures exists i, j :: 0 <= i <= j <= |s| && r == s[i..j] && AllSpace(s[..i]) && AllSpace(s[j..])
    ensures r == [] || (!IsSpace(r[0]) && !IsSpace(r[|r| - 1]))
  {
    var i := LeadingSpaces(s);
    var t := s[i..];
    var j := TrailingSpaces(t);
    SuffixSlices(s, i, j);
    t[..|t| - j]
  }

  lemma SuffixSlices(s: string, i: nat, j: nat)
    requires i <= |s| && j <= |s| - i
    ensures s[i..][..|s| - i - j] == s[i..|s| - j] && s[|s| - j..] == s[i..][|s| - i - j..]
  {
  }

  lemma SliceOfSlice(s: string, a: nat, b: nat, c: nat, d: nat)
    requires a <= b <= |s| && c <= d <= b - a
    ensures s[a..b][c..d] == s[a + c..a + d]
  {
    var u, v := s[a..b][c..d], s[a + c..a + d];
    assert forall k :: 0 <= k < |u| ==> u[k] == s[a + c + k];
    assert forall k :: 0 <= k < |v| ==> v[k] == s[a + c + k];
  }

  // ---------------------------------------------------------------- split and join

  /** `s.split(sep)` for a one-character separator: the fields between separators, empty ones included. */
  function Split(s: string, sep: char): (r: seq<string>)
    ensures |r| >= 1
    ensures forall k :: 0 <= k < |r| ==> sep !in r[k]
    decreases |s|
  {
    if s == [] then [[]]
    else
      var rest := Split(s[1..], sep);
      if s[0] == sep then [[]] + rest else [[s[0]] + rest[0]] + rest[1..]
  }

  /** `sep.join(parts)`. */
  function Join(parts: seq<string>, sep: string): string
    decreases |parts|
  {
    if parts == [] then []
    else if |parts| == 1 then parts[0]
    else parts[0] + sep + Join(parts[1..], sep)
  }

  lemma {:induction false} SplitField(p: string, sep: char, rest: string)
    requires sep !in p
    ensures Split(p + [sep] + rest, sep) == [p] + Split(rest, sep)
    ensures Split(p, sep) == [p]
    decreases |p|
  {
    if p == [] {
      assert p + [sep] + rest == [sep] + rest;
      assert ([sep] + rest)[1..] == rest;
    } else {
      assert (p + [sep] + rest)[1..] == p[1..] + [sep] + rest;
      SplitField(p[1..], sep, rest);
      assert [p[0]] + p[1..] == p;
    }
  }

  /** Joining fields that do not contain the separator and splitting again gives the fields back. */
  lemma {:induction false} SplitJoin(parts: seq<string>, sep: char)
    requires parts != []
    requires forall k :: 0 <= k < |parts| ==> sep !in parts[k]
    ensures Split(Join(parts, [sep]), sep) == parts
    decreases |parts|
  {
    if |parts| == 1 {
      SplitField(parts[0], sep, []);
    } else {
      SplitJoin(parts[1..], sep);
      SplitField(parts[0], sep, Join(parts[1..], [sep]));
      assert [parts[0]] + parts[1..] == parts;
    }
  }

  /** Text without whitespace at either end is its own `strip()`. */
  lemma StripStripped(s: string)
    requires s == [] || (!IsSpace(s[0]) && !IsSpace(s[|s| - 1]))
    ensures Strip(s) == s
  {
    assert LeadingSpaces(s) == 0;
    assert s[0..] == s;
    assert TrailingSpaces(s) == 0;
  }

  /** Number of occurrences of the character `c` in `s`. */
  function Count(s: string, c: char): nat
    decreases |s|
  {
    if s == [] then 0 else (if s[0] == c then 1 else 0) + Count(s[1..], c)
  }

  /** Splitting at a separator and joining with it again gives the text back. */
  lemma {:induction false} JoinSplit(s: string, sep: char)
    ensures Join(Split(s, sep), [sep]) == s
    ensures |Split(s, sep)| == Count(s, sep) + 1
    decreases |s|
  {
    if s != [] {
      JoinSplit(s[1..], sep);
      var rest := Split(s[1..], sep);
      if s[0] != sep && |rest| > 1 {
        assert Join(rest, [sep]) == rest[0] + [sep] + Join(rest[1..], [sep]);
      }
    }
  }

  /** Number of leading non-whitespace characters. */
  function WordLength(s: string): (n: nat)
    ensures n <= |s|
    ensures NoSpace(s[..(n)])
    ensures n < |s| ==> IsSpace(s[n])
    decreases |s|
  {
    if s != [] && !IsSpace(s[0]) then 1 + WordLength(s[1..]) else 0
  }

  /** `str.split()` with no argument: the maximal runs of non-whitespace characters. */
  function Words(s: string): (r: seq<string>)
    ensures forall k :: 0 <= k < |r| ==> r[k] != [] && NoSpace(r[k])
    decreases |s|
  {
    var t := s[LeadingSpaces(s)..];
    if t == [] then []
    else
      var n := WordLength(t);
      [t[..n]] + Words(t[n..])
  }

  /** Joining non-empty whitespace-free words with single spaces and splitting again gives the words back. */
  lemma {:induction false} WordsOfJoin(ws: seq<string>)
    requires forall k :: 0 <= k < |ws| ==> ws[k] != [] && NoSpace(ws[k])
    ensures Words(Join(ws, " ")) == ws
    decreases |ws|
  {
    if |ws| == 1 {
      WordsOfWord(ws[0], []);
      assert ws[0] + [] == ws[0];
    } else if |ws| > 1 {
      JoinCons(ws, " ");
      WordsOfJoin(ws[1..]);
      WordsOfJoinStep(ws[0], Join(ws[1..], " "), ws[1..]);
      assert [ws[0]] + ws[1..] == ws;
    }
  }

  lemma JoinCons(parts: seq<string>, sep: string)
    requires |parts| > 1
    ensures Join(parts, sep) == parts[0] + (sep + Join(parts[1..], sep))
  {
  }

  lemma WordsOfJoinStep(w: string, tail: string, rest: seq<string>)
    requires w != [] && NoSpace(w) && Words(tail) == rest
    ensures Words(w + (" " + tail)) == [w] + rest
  {
    WordsOfWord(w, " " + tail);
    WordsSkipSpace(tail);
  }

  lemma WordsSkipSpace(t: string)
    ensures Words(" " + t) == Words(t)
  {
    assert LeadingSpaces(" " + t) == 1 + LeadingSpaces(t) by {
      assert (" " + t)[1..] == t;
    }
    assert (" " + t)[1 + LeadingSpaces(t)..] == t[LeadingSpaces(t)..];
  }

  /** A word followed by text that starts with whitespace (or nothing) is the first field of `Words`. */
  lemma {:induction false} WordsOfWord(w: string, rest: string)
    requires w != [] && NoSpace(w)
    requires rest == [] || IsSpace(rest[0])
    ensures Words(w + rest) == [w] + Words(rest)
  {
    var s := w + rest;
    assert LeadingSpaces(s) == 0;
    WordLengthOf(w, rest);
    assert s[..|w|] == w && s[|w|..] == rest;
  }

  lemma {:induction false} WordLengthOf(w: string, rest: string)
    requires NoSpace(w)
    requires rest == [] || IsSpace(rest[0])
    ensures WordLength(w + rest) == |w|
    decreases |w|
  {
    if w != [] {
      assert (w + rest)[1..] == w[1..] + rest;
      WordLengthOf(w[1..], rest);
    }
  }

  // ---------------------------------------------------------------- replace

  /**
   * `s.replace(pat, rep)`: every occurrence of `pat`, scanning left to right
   * and never overlapping, replaced by `rep`. It is also what `re.sub` does
   * with a pattern free of regular-expression metacharacters.
   */
  function ReplaceAll(s: string, pat: string, rep: string): string
    requires pat != []
    decreases |s|
  {
    if |s| < |pat| then s
    else if pat <= s then rep + ReplaceAll(s[|pat|..], pat, rep)
    else [s[0]] + ReplaceAll(s[1..], pat, rep)
  }

  /** Replacing a text that does not occur changes nothing. */
  lemma {:induction false} ReplaceAllAbsent(s: string, pat: string, rep: string)
    requires pat != [] && !Occurs(pat, s)
    ensures ReplaceAll(s, pat, rep) == s
    decreases |s|
  {
    if |s| >= |pat| {
      ReplaceAllAbsent(s[1..], pat, rep);
      assert s == [s[0]] + s[1..];
    }
  }

  /** Replacing a text by itself changes nothing. */
  lemma {:induction false} ReplaceAllIdentity(s: string, pat: string)
    requires pat != []
    ensures ReplaceAll(s, pat, pat) == s
    decreases |s|
  {
    if |s| >= |pat| {
      if pat <= s {
        ReplaceAllIdentity(s[|pat|..], pat);
        assert s == pat + s[|pat|..];
      } else {
        ReplaceAllIdentity(s[1..], pat);
        assert s == [s[0]] + s[1..];
      }
    }
  }

  /** When the replacement starts with the pattern, the first |pat| characters survive. */
  lemma {:induction false} ReplaceAllKeepsHead(s: string, pat: string, x: string)
    requires pat != [] && |s| >= |pat|
    ensures |ReplaceAll(s, pat, pat + x)| >= |pat|
    ensures ReplaceAll(s, pat, pat + x)[..|pat|] == s[..|pat|]
    decreases |s|
  {
    if !(pat <= s) {
      var r := ReplaceAll(s[1..], pat, pat + x);
      if |s[1..]| >= |pat| {
        ReplaceAllKeepsHead(s[1..], pat, x);
        assert ([s[0]] + r)[..|pat|] == [s[0]] + r[..|pat| - 1];
        assert s[..|pat|] == [s[0]] + s[1..][..|pat| - 1];
      } else {
        assert r == s[1..];
        assert [s[0]] + r == s;
      }
    }
  }

  /** Inserting `x` after every `pat` and then deleting it again gives the text back. */
  lemma {:induction false} ReplaceAllInsertUndo(s: string, pat: string, x: string)
    requires pat != []
    ensures ReplaceAll(ReplaceAll(s, pat, pat + x), pat + x, pat) == s
    decreases |s|
  {
    var big := pat + x;
    var r := ReplaceAll(s, pat, big);
    if |s| < |pat| {
    } else if pat <= s {
      var r' := ReplaceAll(s[|pat|..], pat, big);
      ReplaceAllInsertUndo(s[|pat|..], pat, x);
      assert r == big + r';
      assert big <= r;
      assert r[|big|..] == r';
      assert s == pat + s[|pat|..];
    } else {
      var r' := ReplaceAll(s[1..], pat, big);
      ReplaceAllInsertUndo(s[1..], pat, x);
      assert r == [s[0]] + r';
      ReplaceAllKeepsHead(s, pat, x);
      assert big[..|pat|] == pat;
      assert r[..|pat|] != big[..|pat|];
      assert s == [s[0]] + s[1..];
      if |r| < |big| {
        assert ReplaceAll(r', big, pat) == r';
      } else {
        assert r[1..] == r';
      }
    }
  }

  /** A prefix that cannot start an occurrence of the pattern passes through `replace` untouched. */
  lemma {:induction false} ReplaceAllSkip(a: string, b: string, pat: string, rep: string)
    requires pat != [] && pat[0] !in a
    ensures ReplaceAll(a + b, pat, rep) == a + ReplaceAll(b, pat, rep)
    decreases |a|
  {
    var s := a + b;
    if a == [] {
      assert s == b;
    } else if |s| < |pat| {
      ReplaceAllAbsentShort(b, pat, rep);
    } else {
      assert s[0] == a[0] && pat[0] != s[0];
      assert !(pat <= s);
      assert s[1..] == a[1..] + b;
      calc {
        ReplaceAll(s, pat, rep);
        [s[0]] + ReplaceAll(s[1..], pat, rep);
        { ReplaceAllSkip(a[1..], b, pat, rep); }
        [a[0]] + (a[1..] + ReplaceAll(b, pat, rep));
        { assert a == [a[0]] + a[1..]; }
        a + ReplaceAll(b, pat, rep);
      }
    }
  }

  lemma ReplaceAllAbsentShort(s: string, pat: string, rep: string)
    requires pat != [] && |s| < |pat|
    ensures ReplaceAll(s, pat, rep) == s
  {
  }

  /** The first occurrence at `p` is the first one replaced. */
  lemma ReplaceAllAt(s: string, pat: string, rep: string, p: nat)
    requires pat != [] && p + |pat| <= |s| && s[p..p + |pat|] == pat
    requires forall j :: 0 <= j < p ==> !(pat <= s[j..])
    ensures ReplaceAll(s, pat, rep) == s[..p] + rep + ReplaceAll(s[p + |pat|..], pat, rep)
  {
    ReplaceAllBefore(s, pat, rep, p);
    assert pat <= s[p..];
    assert s[p..][|pat|..] == s[p + |pat|..];
    Assoc3(s[..p], rep, ReplaceAll(s[p + |pat|..], pat, rep));
  }

  lemma Assoc3(a: string, b: string, c: string)
    ensures a + (b + c) == a + b + c
  {
  }

  lemma {:induction false} ReplaceAllBefore(s: string, pat: string, rep: string, p: nat)
    requires pat != [] && p <= |s|
    requires forall j :: 0 <= j < p ==> !(pat <= s[j..])
    ensures ReplaceAll(s, pat, rep) == s[..p] + ReplaceAll(s[p..], pat, rep)
    decreases p
  {
    if p > 0 {
      assert s[0..] == s;
      ReplaceAllStep(s, pat, rep);
      NoMatchShift(s, pat, p);
      ReplaceAllBefore(s[1..], pat, rep, p - 1);
      ConsSplit(s, p, ReplaceAll(s[p..], pat, rep));
    } else {
      assert s[..0] + s[0..] == s;
    }
  }

  lemma ConsSplit(s: string, p: nat, x: string)
    requires 0 < p <= |s|
    ensures s[1..][p - 1..] == s[p..] && [s[0]] + (s[1..][..p - 1] + x) == s[..p] + x
  {
    assert s[..p] == [s[0]] + s[1..][..p - 1];
  }

  /** Where `pat` does not start, the first character is copied. */
  lemma ReplaceAllStep(s: string, pat: string, rep: string)
    requires pat != [] && s != [] && !(pat <= s)
    ensures ReplaceAll(s, pat, rep) == [s[0]] + ReplaceAll(s[1..], pat, rep)
  {
    if |s| < |pat| {
      ReplaceAllAbsentShort(s[1..], pat, rep);
      assert [s[0]] + s[1..] == s;
    }
  }

  lemma NoMatchShift(s: string, pat: string, p: nat)
    requires 0 < p <= |s|
    requires forall j :: 0 <= j < p ==> !(pat <= s[j..])
    ensures forall j :: 0 <= j < p - 1 ==> !(pat <= s[1..][j..])
  {
    forall j | 0 <= j < p - 1 ensures !(pat <= s[1..][j..]) {
      assert s[1..][j..] == s[j + 1..];
    }
  }

  // ---------------------------------------------------------------- non-whitespace content

  /** The non-whitespace characters of `s`, in order. */
  function NonSpace(s: string): (r: string)
    ensures NoSpace(r)
    decreases |s|
  {
    if s == [] then [] else (if IsSpace(s[0]) then [] else [s[0]]) + NonSpace(s[1..])
  }

  lemma {:induction false} NonSpaceConcat(a: string, b: string)
    ensures NonSpace(a + b) == NonSpace(a) + NonSpace(b)
    decreases |a|
  {
    if a == [] {
      assert a + b == b;
    } else {
      assert (a + b)[1..] == a[1..] + b;
      NonSpaceConcat(a[1..], b);
    }
  }

  /**
   * A replacement whose pattern and replacement carry the same non-whitespace
   * characters leaves the non-whitespace content of the text unchanged.
   */
  lemma {:induction false} ReplaceAllKeepsNonSpace(s: string, pat: string, rep: string)
    requires pat != [] && NonSpace(pat) == NonSpace(rep)
    ensures NonSpace(ReplaceAll(s, pat, rep)) == NonSpace(s)
    decreases |s|
  {
    if |s| >= |pat| {
      if pat <= s {
        ReplaceAllKeepsNonSpace(s[|pat|..], pat, rep);
        NonSpaceConcat(rep, ReplaceAll(s[|pat|..], pat, rep));
        assert s == pat + s[|pat|..];
        NonSpaceConcat(pat, s[|pat|..]);
      } else {
        ReplaceAllKeepsNonSpace(s[1..], pat, rep);
        NonSpaceConcat([s[0]], ReplaceAll(s[1..], pat, rep));
        assert s == [s[0]] + s[1..];
        NonSpaceConcat([s[0]], s[1..]);
      }
    }
  }
}
