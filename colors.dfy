/**
 * Fill colours for fonts2svg: the hex-colour check, the validation of the
 * colour option, and the fitting of the colour list to the number of fonts.
 */
module Colors {
  import opened Wrappers
  import opened Text
  import opened Utils

  // ---------------------------------------------------------------------
  // RE_HEXCOLOR
  // ---------------------------------------------------------------------

  /** Number of leading hex digits. */
  function HexRun(s: string): (n: nat)
    ensures n <= |s|
    ensures forall i :: 0 <= i < n ==> IsHexDigit(s[i])
    ensures n < |s| ==> !IsHexDigit(s[n])
    decreases |s|
  {
    if s != [] && IsHexDigit(s[0]) then 1 + HexRun(s[1..]) else 0
  }

  /** `.{n}` from the start: `n` characters, none of them a newline. */
  predicate Dots(s: string, n: nat) {
    n <= |s| && forall i :: 0 <= i < n ==> s[i] != '\n'
  }

  /**
   * `RE_HEXCOLOR.match(s)` for `^(?=[a-fA-F0-9]*$)(?:.{6}|.{8})$`: the
   * look-ahead needs hex digits all the way to a `$`, then six or eight
   * characters must reach a `$`.
   */
  predicate IsHexColor(s: string) {
    AtEnd(s, HexRun(s)) && ((Dots(s, 6) && AtEnd(s, 6)) || (Dots(s, 8) && AtEnd(s, 8)))
  }

  predicate AllHex(s: string) {
    forall i :: 0 <= i < |s| ==> IsHexDigit(s[i])
  }

  /** A colour as `validate_hex_values` lets it through: six or eight hex digits. */
  predicate ValidColor(s: string) {
    (|s| == 6 || |s| == 8) && AllHex(s)
  }

  /** The text without one trailing newline. */
  function Chomp(s: string): string {
    if s != [] && s[|s| - 1] == '\n' then s[..|s| - 1] else s
  }

  /**
   * A colour is accepted exactly when it is six or eight hex digits, with
   * at most a single newline after them (the newline `$` lets through).
   */
  lemma HexColorDigits(s: string)
    ensures IsHexColor(s) <==> (|Chomp(s)| == 6 || |Chomp(s)| == 8) && AllHex(Chomp(s))
  {
    var t := Chomp(s);
    var n := HexRun(s);
    if IsHexColor(s) {
      if n == |s| {
        assert s[|s| - 1] != '\n' by { assert IsHexDigit(s[|s| - 1]); }
        assert t == s;
      } else {
        assert t == s[..|s| - 1];
      }
    }
    if (|t| == 6 || |t| == 8) && AllHex(t) {
      assert forall i :: 0 <= i < |t| ==> s[i] == t[i];
      if t == s {
        assert HexRun(s) == |s| by { HexRunAll(s); }
      } else {
        assert s == t + "\n";
        HexRunPrefix(t, "\n");
      }
    }
  }

  lemma {:induction false} HexRunAll(s: string)
    requires AllHex(s)
    ensures HexRun(s) == |s|
    decreases |s|
  {
    if s != [] {
      HexRunAll(s[1..]);
    }
  }

  lemma {:induction false} HexRunPrefix(t: string, rest: string)
    requires AllHex(t) && (rest == [] || !IsHexDigit(rest[0]))
    ensures HexRun(t + rest) == |t|
    decreases |t|
  {
    if t == [] {
      assert t + rest == rest;
    } else {
      assert (t + rest)[1..] == t[1..] + rest;
      HexRunPrefix(t[1..], rest);
    }
  }

  /** For text with no whitespace at its end, as the comma splitter yields, the check is exactly "six or eight hex digits". */
  lemma StrippedHexColor(s: string)
    requires s == [] || !IsSpace(s[|s| - 1])
    ensures IsHexColor(s) <==> (|s| == 6 || |s| == 8) && AllHex(s)
  {
    HexColorDigits(s);
    assert Chomp(s) == s by {
      if s != [] { assert IsSpace('\n'); }
    }
  }

  /** The invalid colours of the option tests: letters outside the hex range, or three digits only. */
  lemma InvalidHexColorExamples()
    ensures !IsHexColor("xxx") && !IsHexColor("xxxxxx") && !IsHexColor("aaa") && !IsHexColor("aaaxxx")
  {
    NotHexColor("xxx");
    NotHexColor("xxxxxx");
    NotHexColor("aaa");
    NotHexColor("aaaxxx");
  }

  lemma NotHexColor(s: string)
    requires |s| <= 8 && s != [] && s[|s| - 1] != '\n'
    requires (|s| != 6 && |s| != 8) || !IsHexDigit(s[|s| - 1])
    ensures !IsHexColor(s)
  {
    HexColorDigits(s);
  }

  /** The valid colours of the option tests. */
  lemma ValidHexColorExamples()
    ensures IsHexColor("aaabbb") && IsHexColor("cccdddee") && IsHexColor("000000") && IsHexColor("ffffff00")
  {
    HexColorSix("aaabbb");
    HexColorSix("000000");
    HexColorEight("cccdddee");
    HexColorEight("ffffff00");
  }

  lemma HexColorSix(s: string)
    requires |s| == 6
    requires IsHexDigit(s[0]) && IsHexDigit(s[1]) && IsHexDigit(s[2])
    requires IsHexDigit(s[3]) && IsHexDigit(s[4]) && IsHexDigit(s[5])
    ensures IsHexColor(s)
  {
    HexDigitsColor(s);
  }

  lemma HexColorEight(s: string)
    requires |s| == 8
    requires IsHexDigit(s[0]) && IsHexDigit(s[1]) && IsHexDigit(s[2]) && IsHexDigit(s[3])
    requires IsHexDigit(s[4]) && IsHexDigit(s[5]) && IsHexDigit(s[6]) && IsHexDigit(s[7])
    ensures IsHexColor(s)
  {
    HexDigitsColor(s);
  }

  lemma HexDigitsColor(s: string)
    requires |s| == 6 || |s| == 8
    requires AllHex(s)
    ensures IsHexColor(s)
  {
    assert s[|s| - 1] != '\n' by {
      assert IsHexDigit(s[|s| - 1]);
    }
    HexColorDigits(s);
  }

  // ---------------------------------------------------------------------
  // validate_hex_values
  // ---------------------------------------------------------------------

  /** Index of the first item that is not a colour, if any. */
  function FirstInvalid(items: seq<string>): (r: Option<nat>)
    ensures r.None? <==> forall k :: 0 <= k < |items| ==> IsHexColor(items[k])
    ensures r.Some? ==> r.value < |items| && !IsHexColor(items[r.value])
                        && forall k :: 0 <= k < r.value ==> IsHexColor(items[k])
    decreases |items|
  {
    if items == [] then None
    else if !IsHexColor(items[0]) then Some(0)
    else
      match FirstInvalid(items[1..])
      case None => None
      case Some(k) => Some(k + 1)
  }

  /**
   * `validate_hex_values`: the comma-separated colours, or the message the
   * source raises for the first one that is not a colour.
   */
  function ValidateHexValues(s: string): (r: Result<seq<string>, string>)
    ensures r.Success? <==> forall k :: 0 <= k < |SplitCommaSequence(s)| ==> IsHexColor(SplitCommaSequence(s)[k])
    ensures r.Success? ==> r.value == SplitCommaSequence(s)
    ensures r.Success? ==> forall k :: 0 <= k < |r.value| ==> ValidColor(r.value[k])
    ensures r.Failure? ==> var k := FirstInvalid(SplitCommaSequence(s));
                             k.Some? && r.error == SplitCommaSequence(s)[k.value] + " is not a valid hex color."
  {
    var items := SplitCommaSequence(s);
    match FirstInvalid(items)
    case Some(k) => Failure(items[k] + " is not a valid hex color.")
    case None =>
      forall k | 0 <= k < |items| ensures ValidColor(items[k]) {
        StrippedHexColor(items[k]);
      }
      Success(items)
  }

  // ---------------------------------------------------------------------
  // The colour list
  // ---------------------------------------------------------------------

  /** The items that are colours, in order. */
  function HexColorsOf(items: seq<string>): (r: seq<string>)
    ensures forall k :: 0 <= k < |r| ==> IsHexColor(r[k])
    ensures forall c :: c in r <==> c in items && IsHexColor(c)
    ensures |r| <= |items|
    decreases |items|
  {
    if items == [] then []
    else
      var last := items[|items| - 1];
      var init := HexColorsOf(items[..|items| - 1]);
      assert forall c :: c in items <==> c in items[..|items| - 1] || c == last;
      init + (if IsHexColor(last) then [last] else [])
  }

  /** The colours fitted to `n` fonts: black (`000000`) added at the end, or the extra colours dropped. */
  function Fitted(colors: seq<string>, n: nat): (r: seq<string>)
    ensures |r| == n
    ensures forall i :: 0 <= i < n && i < |colors| ==> r[i] == colors[i]
    ensures forall i :: |colors| <= i < n ==> r[i] == "000000"
  {
    if |colors| < n then colors + seq(n - |colors|, _ => "000000")
    else colors[..n]
  }

  /** One more field: it is kept after the earlier ones exactly when it is a colour. */
  lemma HexColorsStep(prefix: seq<string>, fields: seq<string>, i: nat)
    requires i < |fields|
    ensures prefix + HexColorsOf(fields[..i + 1])
         == prefix + HexColorsOf(fields[..i]) + (if IsHexColor(fields[i]) then [fields[i]] else [])
  {
    assert fields[..i + 1][..i] == fields[..i];
  }

  /**
   * The colour list of fonts2svg (`colors_list`, and in the legacy script
   * the class-level `Options.colorsList`, one list shared by every
   * `Options` object).
   */
  class ColorList {
    var items: seq<string>

    constructor()
      ensures items == []
    {
      items := [];
    }

    /** `validateRawColorsStr`: the colours among the comma-separated fields are appended, the rest dropped. */
    method ValidateRawColorsStr(raw: string)
      modifies this
      ensures items == old(items) + HexColorsOf(Split(raw, ','))
    {
      var fields := Split(raw, ',');
      for i := 0 to |fields|
        invariant items == old(items) + HexColorsOf(fields[..i])
      {
        HexColorsStep(old(items), fields, i);
        if IsHexColor(fields[i]) {
          items := items + [fields[i]];
        }
      }
      assert fields[..|fields|] == fields;
    }

    /**
     * The colour padding of `main`: one colour per font. Returns the
     * colours that were dropped, which the warning lists.
     */
    method FitToFontCount(n: nat) returns (dropped: seq<string>)
      modifies this
      ensures items == Fitted(old(items), n)
      ensures old(items) == items + dropped || (dropped == [] && |old(items)| <= n)
    {
      dropped := [];
      if |items| < n {
        var numAdd := n - |items|;
        items := items + seq(numAdd, _ => "000000");
      } else if |items| > n {
        dropped := items[n..];
        items := items[..n];
        assert old(items) == items + dropped;
      }
    }
  }

  /**
   * The warning of the package's `main` as written: it deletes the extra
   * colours first and then lists the last `|colors| - n` entries of what
   * is left (Python's negative slice; all of it when fewer remain).
   */
  function WarnedAsWritten(colors: seq<string>, n: nat): (r: seq<string>)
    requires |colors| > n
    ensures |r| == Min(|colors| - n, n)
    ensures r == colors[n - |r|..n]
    ensures forall c :: c in r ==> c in colors[..n]
  {
    var kept := colors[..n];
    var numXtr := |colors| - n;
    if numXtr <= |kept| then kept[|kept| - numXtr..] else kept
  }

  function Min(a: int, b: int): int {
    if a < b then a else b
  }

  /**
   * For distinct colours and at least one font, the warning as written names
   * none of the dropped colours, so it never lists what `del` removed.
   */
  lemma WarnedNamesNoDropped(colors: seq<string>, n: nat)
    requires 0 < n < |colors|
    requires forall i, j :: 0 <= i < j < |colors| ==> colors[i] != colors[j]
    ensures WarnedAsWritten(colors, n) != []
    ensures forall c :: c in colors[n..] ==> c !in WarnedAsWritten(colors, n)
    ensures WarnedAsWritten(colors, n) != colors[n..]
  {
    forall c | c in colors[n..] ensures c !in colors[..n] {
      var j :| 0 <= j < |colors[n..]| && colors[n..][j] == c;
      assert colors[n + j] == c;
    }
    assert colors[n..][0] in colors[n..];
  }

  /** With three colours for two fonts, the warning names a colour that was kept, not the one dropped. */
  lemma WarnedAsWrittenExample()
    ensures WarnedAsWritten(["aaaaaa", "bbbbbb", "cccccc"], 2) == ["bbbbbb"]
    ensures Fitted(["aaaaaa", "bbbbbb", "cccccc"], 2) == ["aaaaaa", "bbbbbb"]
  {
    assert ["aaaaaa", "bbbbbb", "cccccc"][..2] == ["aaaaaa", "bbbbbb"];
  }
}
