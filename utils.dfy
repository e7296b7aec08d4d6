/**
 * The helpers shared by the three tools: comma-separated option values,
 * the case-insensitive file-name collision check, font-file classification
 * by header, and the closing message.
 */
module Utils {
  import opened Wrappers
  import opened Text
  import opened Decimal

  /** The folder that takes the files whose names collide case-insensitively. */
  const NestedFolderName := "_moreSVGs_"

  /**
   * A written SVG file: the glyph name (the file is `<name>.svg`), whether it
   * goes to the nested folder, and its text.
   */
  datatype SvgFile = SvgFile(name: string, nested: bool, text: string)

  // ---------------------------------------------------------------------
  // split_comma_sequence
  // ---------------------------------------------------------------------

  /** `[item.strip() for item in s.split(',')]`. */
  function SplitCommaSequence(s: string): (r: seq<string>)
    ensures |r| == |Split(s, ',')| == Count(s, ',') + 1
    ensures forall k :: 0 <= k < |r| ==> r[k] == Strip(Split(s, ',')[k])
  {
    var parts := Split(s, ',');
    JoinSplit(s, ',');
    seq(|parts|, k requires 0 <= k < |parts| => Strip(parts[k]))
  }

  /** Each item holds no comma and has no whitespace at either end. */
  lemma SplitCommaItems(s: string)
    ensures var r := SplitCommaSequence(s);
      forall k :: 0 <= k < |r| ==> ',' !in r[k] && (r[k] == [] || (!IsSpace(r[k][0]) && !IsSpace(r[k][|r[k]| - 1])))
  {
    var parts := Split(s, ',');
    var r := SplitCommaSequence(s);
    forall k | 0 <= k < |r|
      ensures ',' !in r[k] && (r[k] == [] || (!IsSpace(r[k][0]) && !IsSpace(r[k][|r[k]| - 1])))
    {
      assert r[k] == Strip(parts[k]);
      var i, j :| 0 <= i <= j <= |parts[k]| && r[k] == parts[k][i..j];
      assert forall c :: c in r[k] ==> c in parts[k];
    }
  }

  /** Items without commas and without whitespace at their ends, joined with commas, split back into themselves. */
  lemma SplitCommaJoin(items: seq<string>)
    requires items != []
    requires forall k :: 0 <= k < |items| ==> ',' !in items[k]
    requires forall k :: 0 <= k < |items| ==> items[k] == [] || (!IsSpace(items[k][0]) && !IsSpace(items[k][|items[k]| - 1]))
    ensures SplitCommaSequence(Join(items, ",")) == items
  {
    var text := Join(items, ",");
    SplitJoin(items, ',');
    assert Split(text, ',') == items;
    var r := SplitCommaSequence(text);
    forall k | 0 <= k < |items| ensures r[k] == items[k] {
      StripStripped(items[k]);
    }
    SameItems(r, items);
  }

  lemma SameItems(a: seq<string>, b: seq<string>)
    requires |a| == |b| && forall k :: 0 <= k < |a| ==> a[k] == b[k]
    ensures a == b
  {
  }

  lemma TwoItems(a: seq<string>, p: string, q: string)
    requires |a| == 2 && a[0] == p && a[1] == q
    ensures a == [p, q]
  {
  }

  lemma StripExamples()
    ensures Strip("a ") == "a" && Strip(" b") == "b"
  {
    assert IsSpace(' ') && !IsSpace('a') && !IsSpace('b');
    assert TrailingSpaces("a") == 0;
    assert "a "[..1] == "a";
    assert TrailingSpaces("a ") == 1;
    assert LeadingSpaces("a ") == 0;
    assert "a "[0..] == "a ";
    assert LeadingSpaces("b") == 0;
    assert " b"[1..] == "b";
    assert LeadingSpaces(" b") == 1;
    assert TrailingSpaces("b") == 0;
  }

  lemma SplitTwoFields(s: string, x: string, y: string)
    requires Split(s, ',') == [x, y]
    ensures SplitCommaSequence(s) == [Strip(x), Strip(y)]
  {
    var r := SplitCommaSequence(s);
    assert |r| == 2 && r[0] == Strip(x) && r[1] == Strip(y);
    TwoItems(r, Strip(x), Strip(y));
  }

  lemma SplitExample()
    ensures Split("a , b", ',') == ["a ", " b"]
  {
    assert "a , b" == "a " + [','] + " b";
    SplitField("a ", ',', " b");
    SplitField(" b", ',', []);
  }

  lemma SplitCommaExample()
    ensures SplitCommaSequence("a , b") == ["a", "b"]
  {
    SplitExample();
    StripExamples();
    SplitTwoFields("a , b", "a ", " b");
  }

  // ---------------------------------------------------------------------
  // get_gnames_to_save_in_nested_folder
  // ---------------------------------------------------------------------

  /** The name at position `i` has the same lowercase form as an earlier name. */
  predicate SeenBefore(names: seq<string>, i: int)
    requires 0 <= i < |names|
  {
    exists j :: 0 <= j < i && Lower(names[j]) == Lower(names[i])
  }

  /** The names that go to the nested folder: each name whose lowercase form appeared earlier, in input order. */
  function Collisions(names: seq<string>): seq<string>
    decreases |names|
  {
    if names == [] then []
    else
      var last := |names| - 1;
      Collisions(names[..last]) + (if SeenBefore(names, last) then [names[last]] else [])
  }

  /** The lowercase forms of the names. */
  function LowerForms(names: seq<string>): set<string> {
    set j | 0 <= j < |names| :: Lower(names[j])
  }

  /** `get_gnames_to_save_in_nested_folder`: one pass with a set of the lowercase forms seen so far. */
  method NestedFolderNames(names: seq<string>) returns (nested: seq<string>)
    ensures nested == Collisions(names)
  {
    var seen: set<string> := {};
    nested := [];
    for i := 0 to |names|
      invariant seen == LowerForms(names[..i])
      invariant nested == Collisions(names[..i])
    {
      assert names[..i + 1][..i] == names[..i];
      assert SeenBefore(names[..i + 1], i) <==> Lower(names[i]) in seen by {
        if Lower(names[i]) in seen {
          var j :| 0 <= j < i && Lower(names[..i][j]) == Lower(names[i]);
          assert names[..i + 1][j] == names[j];
        }
      }
      if Lower(names[i]) in seen {
        nested := nested + [names[i]];
      }
      seen := seen + {Lower(names[i])};
      assert LowerForms(names[..i + 1]) == LowerForms(names[..i]) + {Lower(names[i])} by {
        assert forall j :: 0 <= j < i ==> names[..i + 1][j] == names[..i][j];
        assert names[..i + 1][i] == names[i];
      }
    }
    assert names[..|names|] == names;
  }

  /**
   * The nested names form a subsequence of the input in input order, and the
   * name at position `i` is among them exactly when its lowercase form was
   * seen before `i`; in particular the first name of each lowercase form
   * stays in the main folder.
   */
  lemma {:induction false} CollisionIndices(names: seq<string>) returns (idx: seq<nat>)
    ensures |idx| == |Collisions(names)|
    ensures forall k :: 0 <= k < |idx| ==> idx[k] < |names| && Collisions(names)[k] == names[idx[k]]
    ensures forall k, l :: 0 <= k < l < |idx| ==> idx[k] < idx[l]
    ensures forall i :: 0 <= i < |names| ==> (i in idx <==> SeenBefore(names, i))
    decreases |names|
  {
    if names == [] {
      idx := [];
    } else {
      var last := |names| - 1;
      var init := names[..last];
      var prev := CollisionIndices(init);
      assert forall i :: 0 <= i < last ==> init[i] == names[i];
      assert forall i :: 0 <= i < last ==> (SeenBefore(init, i) <==> SeenBefore(names, i)) by {
        forall i | 0 <= i < last ensures SeenBefore(init, i) <==> SeenBefore(names, i) {
          if SeenBefore(names, i) {
            var j :| 0 <= j < i && Lower(names[j]) == Lower(names[i]);
            assert Lower(init[j]) == Lower(init[i]);
          }
        }
      }
      if SeenBefore(names, last) {
        idx := prev + [last];
      } else {
        idx := prev;
      }
    }
  }

  /** The nested list is as long as the input less its number of distinct lowercase forms. */
  lemma {:induction false} CollisionCount(names: seq<string>)
    ensures |Collisions(names)| + |LowerForms(names)| == |names|
    decreases |names|
  {
    if names != [] {
      var last := |names| - 1;
      CollisionCount(names[..last]);
      LowerFormsStep(names);
    }
  }

  /** Adding a name adds its lowercase form, which is new exactly when it was not seen before. */
  lemma LowerFormsStep(names: seq<string>)
    requires names != []
    ensures LowerForms(names) == LowerForms(names[..|names| - 1]) + {Lower(names[|names| - 1])}
    ensures SeenBefore(names, |names| - 1) <==> Lower(names[|names| - 1]) in LowerForms(names[..|names| - 1])
  {
    var last := |names| - 1;
    var init := names[..last];
    assert forall j :: 0 <= j < last ==> init[j] == names[j];
    if Lower(names[last]) in LowerForms(init) {
      var j :| 0 <= j < last && Lower(init[j]) == Lower(names[last]);
      assert Lower(names[j]) == Lower(names[last]);
    }
  }

  /**
   * The documented limitation: of three or more names with one lowercase
   * form, all but the first go to the one nested folder, where they still
   * collide.
   */
  lemma ThreeVariantsCollide(names: seq<string>, i: nat, j: nat, k: nat)
    requires i < j < k < |names|
    requires Lower(names[i]) == Lower(names[j]) == Lower(names[k])
    ensures SeenBefore(names, j) && SeenBefore(names, k)
    ensures exists a, b :: 0 <= a < b < |Collisions(names)|
                        && Lower(Collisions(names)[a]) == Lower(Collisions(names)[b])
  {
    var idx := CollisionIndices(names);
    assert j in idx && k in idx;
    var a :| 0 <= a < |idx| && idx[a] == j;
    var b :| 0 <= b < |idx| && idx[b] == k;
    assert a < b;
  }

  lemma LowerOne(s: string)
    requires |s| == 1
    ensures Lower(s) == [LowerChar(s[0])]
  {
  }

  lemma CollisionExample()
    ensures Collisions(["a", "A", "B", "b", "c"]) == ["A", "b"]
  {
    var s := ["a", "A", "B", "b", "c"];
    LowerOne("a");
    LowerOne("A");
    LowerOne("B");
    LowerOne("b");
    LowerOne("c");
    assert s[..1] == ["a"] && s[..2] == ["a", "A"] && s[..3] == ["a", "A", "B"];
    assert s[..4] == ["a", "A", "B", "b"];
    assert s[..2][..1] == s[..1] && s[..3][..2] == s[..2] && s[..4][..3] == s[..3] && s[..4] == s[..4][..4];
    assert s[..1][..0] == [];
    assert Collisions(s[..1]) == [];
    assert SeenBefore(s[..2], 1) by { assert Lower(s[..2][0]) == Lower(s[..2][1]); }
    assert Collisions(s[..2]) == ["A"];
    assert !SeenBefore(s[..3], 2);
    assert Collisions(s[..3]) == ["A"];
    assert SeenBefore(s[..4], 3) by { assert Lower(s[..4][2]) == Lower(s[..4][3]); }
    assert Collisions(s[..4]) == ["A", "b"];
    assert !SeenBefore(s, 4);
    assert s[..4] == s[..|s| - 1];
  }

  // ---------------------------------------------------------------------
  // get_font_format, validate_font_paths
  // ---------------------------------------------------------------------

  datatype FontFormat = OTF | TTF | WOFF | WOFF2

  /** `get_font_format`, given the text of the file's first four bytes. */
  function GetFontFormat(head: string): Option<FontFormat> {
    if head == "OTTO" then Some(OTF)
    else if head == "\0\U{1}\0\0" || head == "true" then Some(TTF)
    else if head == "wOFF" then Some(WOFF)
    else if head == "wOF2" then Some(WOFF2)
    else None
  }

  /** The legacy `getFontFormat` of fonts2svg.py and addSVGtable.py: OpenType and TrueType only. */
  function LegacyGetFontFormat(head: string): Option<FontFormat> {
    if head == "OTTO" then Some(OTF)
    else if head == "\0\U{1}\0\0" || head == "true" then Some(TTF)
    else None
  }

  /** The big-endian 32-bit value of four byte-sized characters: how the standards write the tags. */
  function Tag(head: string): nat
    requires |head| == 4
  {
    ((head[0] as nat * 256 + head[1] as nat) * 256 + head[2] as nat) * 256 + head[3] as nat
  }

  /**
   * The classification agrees with the signatures the standards define: an
   * `sfntVersion` of 0x00010000 or 'OTTO' in the OpenType table directory
   * (and 'true' for Apple TrueType), the 'wOFF' signature 0x774F4646 of
   * WOFF 1.0 and the 'wOF2' signature 0x774F4632 of WOFF 2.0.
   */
  lemma FontFormatBySignature(head: string)
    requires |head| == 4 && forall i :: 0 <= i < 4 ==> head[i] as nat < 256
    ensures GetFontFormat(head) == Some(OTF) <==> Tag(head) == 0x4F54544F
    ensures GetFontFormat(head) == Some(TTF) <==> Tag(head) == 0x00010000 || Tag(head) == 0x74727565
    ensures GetFontFormat(head) == Some(WOFF) <==> Tag(head) == 0x774F4646
    ensures GetFontFormat(head) == Some(WOFF2) <==> Tag(head) == 0x774F4632
  {
    TagInjective(head, "OTTO");
    TagInjective(head, "\0\U{1}\0\0");
    TagInjective(head, "true");
    TagInjective(head, "wOFF");
    TagInjective(head, "wOF2");
  }

  lemma TagInjective(a: string, b: string)
    requires |a| == 4 && forall i :: 0 <= i < 4 ==> a[i] as nat < 256
    requires |b| == 4 && forall i :: 0 <= i < 4 ==> b[i] as nat < 256
    ensures Tag(a) == Tag(b) <==> a == b
  {
    if Tag(a) == Tag(b) {
      var a1, b1 := a[0] as nat * 256 + a[1] as nat, b[0] as nat * 256 + b[1] as nat;
      var a2, b2 := a1 * 256 + a[2] as nat, b1 * 256 + b[2] as nat;
      DigitStep(a2, b2, a[3] as nat, b[3] as nat);
      DigitStep(a1, b1, a[2] as nat, b[2] as nat);
      DigitStep(a[0] as nat, b[0] as nat, a[1] as nat, b[1] as nat);
      assert forall i :: 0 <= i < 4 ==> a[i] == b[i];
    }
  }

  /** One base-256 digit and the rest are determined by the value. */
  lemma DigitStep(x: nat, y: nat, c: nat, d: nat)
    requires c < 256 && d < 256 && x * 256 + c == y * 256 + d
    ensures x == y && c == d
  {
  }

  /** The legacy classification is the package's, restricted to OpenType and TrueType. */
  lemma LegacyFontFormatRestricts(head: string)
    ensures LegacyGetFontFormat(head)
         == (if GetFontFormat(head) in {Some(OTF), Some(TTF)} then GetFontFormat(head) else None)
  {
  }

  /**
   * `validate_font_paths`. `files` maps each path that is a file to the text
   * of its first four bytes; `accepted` is the set of formats the tool
   * takes.
   */
  method ValidateFontPaths(paths: seq<string>, files: map<string, string>, accepted: set<FontFormat>)
    returns (valid: seq<string>)
    ensures valid == ValidFontPaths(paths, files, accepted)
  {
    valid := [];
    for i := 0 to |paths|
      invariant valid == ValidFontPaths(paths[..i], files, accepted)
    {
      var path := paths[i];
      assert paths[..i + 1][..i] == paths[..i];
      if path in files && GetFontFormat(files[path]) in (set f | f in accepted :: Some(f)) {
        valid := valid + [path];
      }
    }
    assert paths[..|paths|] == paths;
  }

  predicate IsValidFontPath(path: string, files: map<string, string>, accepted: set<FontFormat>) {
    path in files && GetFontFormat(files[path]).Some? && GetFontFormat(files[path]).value in accepted
  }

  /** The paths that are font files of an accepted format, in input order. */
  function ValidFontPaths(paths: seq<string>, files: map<string, string>, accepted: set<FontFormat>): (r: seq<string>)
    ensures forall p :: p in r <==> p in paths && IsValidFontPath(p, files, accepted)
    ensures |r| <= |paths|
    decreases |paths|
  {
    if paths == [] then []
    else
      var last := paths[|paths| - 1];
      var init := ValidFontPaths(paths[..|paths| - 1], files, accepted);
      assert forall p :: p in paths <==> p in paths[..|paths| - 1] || p == last;
      init + (if IsValidFontPath(last, files, accepted) then [last] else [])
  }

  // ---------------------------------------------------------------------
  // final_message
  // ---------------------------------------------------------------------

  /** The count at the head of the message: `No` for zero. */
  function CountWord(filesSaved: nat): (r: string)
    ensures r != [] && (IsDigit(r[0]) <==> filesSaved > 0)
  {
    if filesSaved == 0 then "No" else NatToString(filesSaved)
  }

  /** `final_message`: the count, or `No`, and a plural unless exactly one file was saved. */
  function FinalMessage(filesSaved: nat): (r: string)
    ensures filesSaved != 1 ==> EndsWith(r, " SVG files saved.")
    ensures filesSaved == 1 ==> EndsWith(r, " SVG file saved.")
    ensures CountWord(filesSaved) <= r
    ensures |r| == |CountWord(filesSaved)| + (if filesSaved != 1 then 17 else 16)
  {
    var tail := if filesSaved != 1 then " SVG files saved." else " SVG file saved.";
    HeadAndTail(CountWord(filesSaved), tail);
    CountWord(filesSaved) + tail
  }

  lemma HeadAndTail(a: string, b: string)
    ensures EndsWith(a + b, b) && a <= a + b
  {
  }

  /** A non-zero count reads back from the front of the message. */
  lemma FinalMessageCount(filesSaved: nat)
    requires filesSaved > 0
    ensures ParseInt(FinalMessage(filesSaved)).Some?
    ensures ParseInt(FinalMessage(filesSaved)).value.0 == filesSaved
    ensures ParseInt(FinalMessage(filesSaved)).value.1
            == (if filesSaved == 1 then " SVG file saved." else " SVG files saved.")
  {
    var tail := if filesSaved != 1 then " SVG files saved." else " SVG file saved.";
    ParseIntRoundTrip(filesSaved, tail);
  }

  /** The legacy message: always plural. */
  function LegacyFinalMessage(filesSaved: nat): (r: string)
    ensures filesSaved != 1 ==> r == FinalMessage(filesSaved)
    ensures filesSaved == 1 ==> r == "1 SVG files saved."
  {
    assert NatToString(1) == "1";
    CountWord(filesSaved) + " SVG files saved."
  }

  /** The message unfolded into its two parts. */
  lemma FinalMessageParts(filesSaved: nat)
    ensures FinalMessage(filesSaved)
            == CountWord(filesSaved) + (if filesSaved != 1 then " SVG files saved." else " SVG file saved.")
  {
  }

  lemma FinalMessageNone()
    ensures FinalMessage(0) == "No SVG files saved."
  {
    FinalMessageParts(0);
  }

  lemma FinalMessageOne()
    ensures FinalMessage(1) == "1 SVG file saved."
  {
    var count := CountWord(1);
    assert count == NatToString(1) == [DigitChar(1)];
    assert DigitChar(1) == '1';
    FinalMessageParts(1);
    assert FinalMessage(1) == count + " SVG file saved." == "1" + " SVG file saved.";
  }

  lemma FinalMessageTwo()
    ensures FinalMessage(2) == "2 SVG files saved."
  {
    var count := CountWord(2);
    assert count == NatToString(2) == [DigitChar(2)];
    assert DigitChar(2) == '2';
    FinalMessageParts(2);
    assert FinalMessage(2) == count + " SVG files saved." == "2" + " SVG files saved.";
  }
}
