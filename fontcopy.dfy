/**
 * The POSIX `os.path` pieces addsvg relies on (`split`, `basename`,
 * `splitext`, `join`) and `makeFontCopyPath`, which picks the path for the
 * backup copy of a font: the font's own name with any `#<digits>` counter
 * taken off, then `#0`, `#1`, ... until a path is free. Whether a path
 * exists is a given finite set of paths.
 */
module FontCopy {
  import opened Wrappers
  import opened Text
  import opened Decimal

  // ---------------------------------------------------------------- os.path

  /** Index just past the last `/` before `k`, or 0 when there is none. */
  function TailFrom(p: string, k: nat): (i: nat)
    requires k <= |p|
    ensures i <= k
    ensures forall j :: i <= j < k ==> p[j] != '/'
    ensures i > 0 ==> p[i - 1] == '/'
    decreases k
  {
    if k == 0 then 0 else if p[k - 1] == '/' then k else TailFrom(p, k - 1)
  }

  /** Where `os.path.split` cuts: just past the last `/`. */
  function TailStart(p: string): (i: nat)
    ensures i <= |p|
  {
    TailFrom(p, |p|)
  }

  /** `os.path.basename`, the second half of `os.path.split`. */
  function BaseName(p: string): (r: string)
    ensures '/' !in r
  {
    var i := TailStart(p);
    assert forall j :: 0 <= j < |p| - i ==> p[i..][j] == p[i + j];
    p[i..]
  }

  /** `head.rstrip('/')`, as `split` applies it unless the head is all slashes. */
  function DropTrailingSlashes(h: string): string
    decreases |h|
  {
    if h != [] && h[|h| - 1] == '/' then DropTrailingSlashes(h[..|h| - 1]) else h
  }

  /** The first half of `os.path.split`. */
  function DirName(p: string): string {
    var head := p[..TailStart(p)];
    if DropTrailingSlashes(head) == [] then head else DropTrailingSlashes(head)
  }

  /** Position of the last `.` in `s`, if any. */
  function LastDot(s: string, k: nat): (r: Option<nat>)
    requires k <= |s|
    ensures r.Some? ==> r.value < k && s[r.value] == '.'
    ensures r.Some? ==> forall j :: r.value < j < k ==> s[j] != '.'
    ensures r.None? ==> forall j :: 0 <= j < k ==> s[j] != '.'
    decreases k
  {
    if k == 0 then None else if s[k - 1] == '.' then Some(k - 1) else LastDot(s, k - 1)
  }

  /** Some character before `d` is not a dot. */
  predicate NonDotBefore(s: string, d: nat)
    requires d <= |s|
  {
    exists j :: 0 <= j < d && s[j] != '.'
  }

  /**
   * `os.path.splitext` of a file name: the extension starts at the last dot,
   * unless only dots come before it (as in `.hidden`), when there is none.
   */
  function SplitExt(name: string): (r: (string, string))
    ensures r.0 + r.1 == name
  {
    match LastDot(name, |name|)
    case Some(d) =>
      if NonDotBefore(name, d) then (name[..d], name[d..]) else (name, "")
    case None => (name, "")
  }

  /** `os.path.join(dir, name)`: a `/` goes between unless `dir` is empty or already ends with one. */
  function PathJoin(dir: string, name: string): (r: string)
    ensures name != [] && name[0] == '/' ==> r == name
  {
    if name != [] && name[0] == '/' then name
    else if dir == [] || dir[|dir| - 1] == '/' then dir + name
    else dir + "/" + name
  }

  /** What `join` puts before a name that does not start with `/`. */
  function JoinPrefix(dir: string): string {
    if dir == [] || dir[|dir| - 1] == '/' then dir else dir + "/"
  }

  lemma JoinIsPrefix(dir: string, name: string)
    requires name == [] || name[0] != '/'
    ensures PathJoin(dir, name) == JoinPrefix(dir) + name
  {
  }

  // ---------------------------------------------------------------- the copy counter

  /** `#\d+$` can end at `k`: digits from `k` to the end, or to a final newline (where `$` also matches). */
  predicate CounterTail(s: string, k: nat)
    requires k <= |s|
  {
    var d := Span(s, k, IsDigit);
    d > 0 && (k + d == |s| || (k + d == |s| - 1 && s[|s| - 1] == '\n'))
  }

  /** Where the search for `#\d+$` from position `i` first succeeds. */
  function CounterFrom(s: string, i: nat): (r: Option<nat>)
    requires i <= |s|
    ensures r.Some? ==> i <= r.value < |s| && s[r.value] == '#' && CounterTail(s, r.value + 1)
    decreases |s| - i
  {
    if i == |s| then None
    else if s[i] == '#' && CounterTail(s, i + 1) then Some(i)
    else CounterFrom(s, i + 1)
  }

  /** `reCopyCounter.split(name)[0]`: the text before the counter, or all of it. */
  function StripCounter(s: string): (r: string)
    ensures r <= s
  {
    match CounterFrom(s, 0)
    case Some(i) => s[..i]
    case None => s
  }

  lemma {:induction false} SpanToEnd(s: string, k: nat, p: char -> bool)
    requires k <= |s| && forall j :: k <= j < |s| ==> p(s[j])
    ensures Span(s, k, p) == |s| - k
    decreases |s| - k
  {
    if k < |s| {
      SpanToEnd(s, k + 1, p);
    }
  }

  /** No position before the `#` of a trailing counter starts a match. */
  lemma {:induction false} CounterFromTrailing(s: string, k: nat, i: nat)
    requires i <= k && k + 1 < |s| && s[k] == '#'
    requires forall j :: k < j < |s| ==> IsDigit(s[j])
    ensures CounterFrom(s, i) == Some(k)
    decreases k - i
  {
    if i == k {
      SpanToEnd(s, k + 1, IsDigit);
    } else {
      NoCounterBefore(s, k, i);
      CounterFromTrailing(s, k, i + 1);
    }
  }

  /** A run of digits that stops at a non-digit before the last character does not reach the end. */
  lemma NoCounterBefore(s: string, k: nat, i: nat)
    requires i < k < |s| && !IsDigit(s[k]) && IsDigit(s[|s| - 1])
    ensures !CounterTail(s, i + 1)
  {
    var d := Span(s, i + 1, IsDigit);
    assert i + 1 + d <= k;
  }

  /** A counter `#<n>` at the end of a name is exactly what is stripped, whatever the name holds before it. */
  lemma StripCounterNumbered(stem: string, n: nat)
    ensures StripCounter(stem + "#" + NatToString(n)) == stem
  {
    var digits := NatToString(n);
    var s := stem + "#" + digits;
    assert forall j :: |stem| < j < |s| ==> s[j] == digits[j - |stem| - 1];
    CounterFromTrailing(s, |stem|, 0);
    assert s[..|stem|] == stem;
  }

  /** A name that holds no `#` keeps all of it. */
  lemma StripCounterNone(s: string)
    requires '#' !in s
    ensures StripCounter(s) == s
  {
  }

  /** The counter text of the second copy: `name#1` comes back to `name`. */
  lemma StripCounterExample()
    ensures StripCounter("font#1") == "font"
  {
    assert NatToString(1) == "1";
    StripCounterNumbered("font", 1);
  }

  // ---------------------------------------------------------------- makeFontCopyPath

  /** The folder, the stem with its counter stripped, and the extension of the font's path. */
  datatype CopyName = CopyName(dir: string, stem: string, ext: string)

  function CopyNameOf(fontPath: string): (c: CopyName)
    ensures '/' !in c.stem && '/' !in c.ext
  {
    var parts := SplitExt(BaseName(fontPath));
    assert parts.0 + parts.1 == BaseName(fontPath);
    assert forall j :: 0 <= j < |parts.0| ==> parts.0[j] == BaseName(fontPath)[j];
    assert forall j :: 0 <= j < |parts.1| ==> parts.1[j] == BaseName(fontPath)[|parts.0| + j];
    var stem := StripCounter(parts.0);
    assert forall j :: 0 <= j < |stem| ==> stem[j] == parts.0[j];
    CopyName(DirName(fontPath), stem, parts.1)
  }

  /** The first path tried: the stripped name itself. */
  function FirstCopy(c: CopyName): string {
    PathJoin(c.dir, c.stem + c.ext)
  }

  /** The path tried with counter `n`. */
  function NumberedCopy(c: CopyName, n: nat): string {
    PathJoin(c.dir, c.stem + "#" + NatToString(n) + c.ext)
  }

  /**
   * `r` is the path `makeFontCopyPath` settles on: the first of the
   * stripped name, then counters 0, 1, ..., that is not taken.
   */
  ghost predicate FirstFree(c: CopyName, existing: set<string>, r: string) {
    || (FirstCopy(c) !in existing && r == FirstCopy(c))
    || (FirstCopy(c) in existing && exists n: nat :: r == NumberedCopy(c, n) && AllTakenBelow(c, existing, n) && r !in existing)
  }

  predicate AllTakenBelow(c: CopyName, existing: set<string>, n: nat) {
    forall m: nat :: m < n ==> NumberedCopy(c, m) in existing
  }

  lemma NoLeadingSlash(c: CopyName, n: nat)
    requires '/' !in c.stem && '/' !in c.ext
    ensures c.stem + c.ext == [] || (c.stem + c.ext)[0] != '/'
    ensures (c.stem + "#" + NatToString(n) + c.ext)[0] != '/'
  {
    if c.stem != [] {
      assert (c.stem + "#" + NatToString(n) + c.ext)[0] == c.stem[0];
      assert (c.stem + c.ext)[0] == c.stem[0];
    } else {
      assert (c.stem + "#" + NatToString(n) + c.ext)[0] == '#';
      if c.ext != [] {
        assert (c.stem + c.ext)[0] == c.ext[0];
      }
    }
  }

  lemma SameSuffix(u: string, v: string, e: string)
    requires u + e == v + e
    ensures u == v
  {
    assert u == (u + e)[..|u|];
    assert v == (v + e)[..|v|];
  }

  /** Different counters give different paths, and none of them is the first path. */
  lemma NumberedDistinct(c: CopyName, a: nat, b: nat)
    requires '/' !in c.stem && '/' !in c.ext
    ensures NumberedCopy(c, a) == NumberedCopy(c, b) ==> a == b
    ensures NumberedCopy(c, a) != FirstCopy(c)
  {
    var pre := JoinPrefix(c.dir);
    NoLeadingSlash(c, a);
    NoLeadingSlash(c, b);
    JoinIsPrefix(c.dir, c.stem + "#" + NatToString(a) + c.ext);
    JoinIsPrefix(c.dir, c.stem + "#" + NatToString(b) + c.ext);
    JoinIsPrefix(c.dir, c.stem + c.ext);
    assert |NumberedCopy(c, a)| > |FirstCopy(c)|;
    if NumberedCopy(c, a) == NumberedCopy(c, b) {
      var na := NatToString(a);
      var nb := NatToString(b);
      var k := |pre| + |c.stem| + 1;
      assert NumberedCopy(c, a)[k..] == na + c.ext;
      assert NumberedCopy(c, b)[k..] == nb + c.ext;
      SameSuffix(na, nb, c.ext);
      NatToStringInjective(a, b);
    }
  }

  /** The paths tried before counter `n`: the first one and counters below `n - 1`. */
  ghost function Tried(c: CopyName, n: nat): set<string> {
    if n == 0 then {} else {FirstCopy(c)} + (set m: nat | m < n - 1 :: NumberedCopy(c, m))
  }

  /**
   * `makeFontCopyPath`: start from the stripped name and count up while the
   * path exists. The loop ends because every path it tries is a new one
   * and only finitely many exist.
   */
  method MakeFontCopyPath(fontPath: string, existing: set<string>) returns (r: string)
    ensures r !in existing
    ensures FirstFree(CopyNameOf(fontPath), existing, r)
  {
    var c := CopyNameOf(fontPath);
    r := PathJoin(c.dir, c.stem + c.ext);
    var n: nat := 0;
    ghost var tried: set<string> := {};
    while r in existing
      invariant tried == Tried(c, n) && tried <= existing && r !in tried
      invariant n == 0 ==> r == FirstCopy(c)
      invariant n > 0 ==> r == NumberedCopy(c, n - 1) && FirstCopy(c) in existing
      invariant n > 0 ==> AllTakenBelow(c, existing, n - 1)
      decreases |existing - tried|
    {
      assert (existing - tried) - {r} == existing - (tried + {r});
      tried := tried + {r};
      r := PathJoin(c.dir, c.stem + "#" + NatToString(n) + c.ext);
      n := n + 1;
      NotTriedYet(c, n);
    }
  }

  lemma NotTriedYet(c: CopyName, n: nat)
    requires n > 0 && '/' !in c.stem && '/' !in c.ext
    ensures Tried(c, n) == Tried(c, n - 1) + {if n == 1 then FirstCopy(c) else NumberedCopy(c, n - 2)}
    ensures NumberedCopy(c, n - 1) !in Tried(c, n)
  {
    forall m: nat | m < n - 1 ensures NumberedCopy(c, n - 1) != NumberedCopy(c, m) {
      NumberedDistinct(c, n - 1, m);
    }
    NumberedDistinct(c, n - 1, n - 1);
    if n > 1 {
      assert (set m: nat | m < n - 1 :: NumberedCopy(c, m))
          == (set m: nat | m < n - 2 :: NumberedCopy(c, m)) + {NumberedCopy(c, n - 2)};
    }
  }

  /** There is only one such path: the result does not depend on how the search is carried out. */
  lemma FirstFreeUnique(c: CopyName, existing: set<string>, r1: string, r2: string)
    requires '/' !in c.stem && '/' !in c.ext
    requires FirstFree(c, existing, r1) && FirstFree(c, existing, r2)
    ensures r1 == r2
  {
    if FirstCopy(c) in existing {
      var n1: nat :| r1 == NumberedCopy(c, n1) && AllTakenBelow(c, existing, n1) && r1 !in existing;
      var n2: nat :| r2 == NumberedCopy(c, n2) && AllTakenBelow(c, existing, n2) && r2 !in existing;
      FreeNotBelow(c, existing, n1, n2);
      FreeNotBelow(c, existing, n2, n1);
    }
  }

  lemma FreeNotBelow(c: CopyName, existing: set<string>, free: nat, n: nat)
    requires AllTakenBelow(c, existing, n) && NumberedCopy(c, free) !in existing
    ensures n <= free
  {
  }
}
