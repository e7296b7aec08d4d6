/**
 * addsvg: which SVG files are taken (`validateSVGfiles`), which glyph each
 * one is for (`getGlyphNameFromFileName`), and the document list that goes
 * into the font's `SVG ` table (`processFont`): one `[document, gid, gid]`
 * record per glyph, sorted by glyph ID. The font is reduced to its glyph
 * name to glyph ID lookup, and the files to a map from path to text.
 */
module AddSvg {
  import opened Wrappers
  import opened Text
  import opened FontCopy
  import opened SvgEdit
  import opened Cleanup

  // ---------------------------------------------------------------- getGlyphNameFromFileName

  /** The file name without its folder and extension. */
  function GlyphName(path: string): string {
    SplitExt(BaseName(path)).0
  }

  lemma {:induction false} TailFromIs(p: string, k: nat, i: nat)
    requires i <= k <= |p| && (i > 0 ==> p[i - 1] == '/')
    requires forall j :: i <= j < k ==> p[j] != '/'
    ensures TailFrom(p, k) == i
    decreases k
  {
    if k > i {
      TailFromIs(p, k - 1, i);
    }
  }

  /**
   * A file saved as `<name>.svg` in any folder is read back as the glyph
   * `name`, dots in the name included, as long as the name is not all dots.
   */
  lemma GlyphNameOfFile(dir: string, name: string)
    requires '/' !in name && NonDotBefore(name, |name|)
    ensures GlyphName(PathJoin(dir, name + ".svg")) == name
  {
    var file := name + ".svg";
    assert file[0] == name[0];
    var pre := JoinPrefix(dir);
    JoinIsPrefix(dir, file);
    var p := pre + file;
    assert forall j :: |pre| <= j < |p| ==> p[j] == file[j - |pre|];
    assert forall j :: 0 <= j < |file| ==> file[j] != '/' by {
      forall j | 0 <= j < |file| ensures file[j] != '/' {
        if j < |name| {
          assert file[j] == name[j];
        }
      }
    }
    TailFromIs(p, |p|, |pre|);
    assert p[|pre|..] == file;
    assert file[|name|] == '.' && file[|name| + 1..] == "svg";
    assert LastDot(file, |file|) == Some(|name|);
    var j :| 0 <= j < |name| && name[j] != '.';
    assert file[j] == name[j];
    assert file[..|name|] == name;
  }

  // ---------------------------------------------------------------- validateSVGfiles

  /** `pat` occurs at position `j` of `s`. */
  predicate MatchAt(s: string, pat: string, j: nat) {
    j + |pat| <= |s| && s[j..j + |pat|] == pat
  }

  /** The first occurrence of `pat` at or after `from`. */
  function SearchFrom(s: string, pat: string, from: nat): (r: Option<nat>)
    ensures r.Some? ==> from <= r.value && MatchAt(s, pat, r.value)
    ensures r.Some? ==> forall j :: from <= j < r.value ==> !MatchAt(s, pat, j)
    ensures r.None? ==> forall j :: from <= j ==> !MatchAt(s, pat, j)
    decreases |s| - from
  {
    if from + |pat| > |s| then None
    else if s[from..from + |pat|] == pat then Some(from)
    else SearchFrom(s, pat, from + 1)
  }

  lemma SearchFromFinds(s: string, pat: string, from: nat, x: nat)
    requires from <= x && MatchAt(s, pat, x)
    ensures SearchFrom(s, pat, from).Some? && SearchFrom(s, pat, from).value <= x
  {
  }

  /**
   * `re.search(open + ".+?>.+?" + close, s, re.DOTALL)` succeeds: the first
   * `open`, the first `>` at least one character after it, then `close` at
   * least one character after that.
   */
  function ElementSearch(s: string, open: string, close: string): bool {
    match SearchFrom(s, open, 0)
    case None => false
    case Some(i) =>
      match SearchFrom(s, ">", i + |open| + 1)
      case None => false
      case Some(j) => SearchFrom(s, close, j + 2).Some?
  }

  /** What the pattern means: `open`, one or more characters, `>`, one or more characters, `close`. */
  ghost predicate ElementIn(s: string, open: string, close: string) {
    exists i: nat, j: nat, k: nat :: MatchAt(s, open, i) && i + |open| < j && MatchAt(s, ">", j)
                                   && j + 1 < k && MatchAt(s, close, k)
  }

  /** The scanner finds an element exactly when the text holds one. */
  lemma ElementSearchIff(s: string, open: string, close: string)
    ensures ElementSearch(s, open, close) <==> ElementIn(s, open, close)
  {
    if ElementIn(s, open, close) {
      var i0: nat, j0: nat, k0: nat :| MatchAt(s, open, i0) && i0 + |open| < j0 && MatchAt(s, ">", j0)
                                     && j0 + 1 < k0 && MatchAt(s, close, k0);
      SearchFromFinds(s, open, 0, i0);
      var i := SearchFrom(s, open, 0).value;
      SearchFromFinds(s, ">", i + |open| + 1, j0);
      var j := SearchFrom(s, ">", i + |open| + 1).value;
      SearchFromFinds(s, close, j + 2, k0);
    }
    if ElementSearch(s, open, close) {
      var i := SearchFrom(s, open, 0).value;
      var j := SearchFrom(s, ">", i + |open| + 1).value;
      var k := SearchFrom(s, close, j + 2).value;
      assert MatchAt(s, open, i) && i + |open| < j && MatchAt(s, ">", j) && j + 1 < k && MatchAt(s, close, k);
    }
  }

  /** Hidden files: names that start with a dot. */
  predicate Hidden(name: string) {
    name != [] && name[0] == '.'
  }

  /** The two name checks: not hidden, and `.svg` in any letter case at the end. */
  predicate SvgNamed(path: string) {
    var name := BaseName(path);
    !Hidden(name) && EndsWith(Lower(name), ".svg")
  }

  /** The two content checks: an `<svg>` element and no `<text>` element. */
  predicate SvgContent(data: string) {
    ElementSearch(data, "<svg", "</svg>") && !ElementSearch(data, "<text", "</text>")
  }

  /**
   * `validateSVGfiles`: the paths that pass all four checks, in input order;
   * a path with a good name that is not a file stops everything with an
   * error naming it.
   */
  function ValidSvgPaths(paths: seq<string>, files: map<string, string>): (r: Result<seq<string>, string>)
    decreases |paths|
  {
    if paths == [] then Success([])
    else
      var p := paths[|paths| - 1];
      match ValidSvgPaths(paths[..|paths| - 1], files)
      case Failure(e) => Failure(e)
      case Success(v) =>
        if !SvgNamed(p) then Success(v)
        else if p !in files then Failure(p)
        else if SvgContent(files[p]) then Success(v + [p])
        else Success(v)
  }

  /** Once a path has failed, later paths do not matter. */
  lemma {:induction false} FailureKept(paths: seq<string>, files: map<string, string>, m: nat)
    requires m <= |paths| && ValidSvgPaths(paths[..m], files).Failure?
    ensures ValidSvgPaths(paths, files) == ValidSvgPaths(paths[..m], files)
    decreases |paths| - m
  {
    if m < |paths| {
      assert paths[..m + 1][..m] == paths[..m];
      FailureKept(paths, files, m + 1);
    } else {
      assert paths[..m] == paths;
    }
  }

  method ValidateSvgFiles(paths: seq<string>, files: map<string, string>) returns (r: Result<seq<string>, string>)
    ensures r == ValidSvgPaths(paths, files)
  {
    var valid: seq<string> := [];
    for i := 0 to |paths|
      invariant ValidSvgPaths(paths[..i], files) == Success(valid)
    {
      var path := paths[i];
      assert paths[..i + 1][..i] == paths[..i];
      var name := BaseName(path);
      if Hidden(name) {
        continue;
      }
      if !EndsWith(Lower(name), ".svg") {
        continue;
      }
      if path !in files {
        FailureKept(paths, files, i + 1);
        return Failure(path);
      }
      var data := files[path];
      if !ElementSearch(data, "<svg", "</svg>") {
        continue;
      }
      if ElementSearch(data, "<text", "</text>") {
        continue;
      }
      valid := valid + [path];
    }
    assert paths[..|paths|] == paths;
    r := Success(valid);
  }

  /**
   * The check fails exactly when a path with a good name is not a file;
   * otherwise it keeps exactly the paths that pass all four checks.
   */
  lemma {:induction false} ValidSvgPathsIff(paths: seq<string>, files: map<string, string>)
    ensures ValidSvgPaths(paths, files).Success? <==> forall p :: p in paths && SvgNamed(p) ==> p in files
    ensures ValidSvgPaths(paths, files).Success? ==>
      forall p :: p in ValidSvgPaths(paths, files).value <==> p in paths && SvgNamed(p) && SvgContent(files[p])
    decreases |paths|
  {
    if paths != [] {
      var init := paths[..|paths| - 1];
      var p := paths[|paths| - 1];
      ValidSvgPathsIff(init, files);
      assert forall q :: q in paths <==> q in init || q == p;
    }
  }

  // ---------------------------------------------------------------- processFont

  /** A record of the table's document list: the document and the glyph range it covers. */
  datatype Doc = Doc(text: string, startGid: nat, endGid: nat)

  /** The document added for glyph `gid`: id set, viewBox removed if asked, cleaned and stripped. */
  function DocText(data: string, gid: nat, stripViewBox: bool): string
    requires IdLiteral(data)
  {
    var withId := SetIdValue(data, gid);
    Strip(Cleaned(if stripViewBox then StripViewBox(withId) else withId))
  }

  /** Every file is there to read and its id attribute, if any, is a plain text. */
  predicate Readable(paths: seq<string>, files: map<string, string>) {
    forall i :: 0 <= i < |paths| ==> paths[i] in files && IdLiteral(files[paths[i]])
  }

  /** The state of `processFont`'s loop: the documents by glyph ID, the names taken, the count. */
  datatype Collected = Collected(docs: map<nat, Doc>, seen: seq<string>, added: nat)

  /** One file: skipped when excluded, not in the font, or already taken; otherwise its document is set. */
  function CollectStep(c: Collected, path: string, files: map<string, string>, exclude: seq<string>,
                       gids: map<string, nat>, stripViewBox: bool): Collected
    requires path in files && IdLiteral(files[path])
  {
    var name := GlyphName(path);
    if name in exclude || name !in gids || name in c.seen then c
    else
      var gid := gids[name];
      Collected(c.docs[gid := Doc(DocText(files[path], gid, stripViewBox), gid, gid)], c.seen + [name], c.added + 1)
  }

  function Collect(paths: seq<string>, files: map<string, string>, exclude: seq<string>,
                   gids: map<string, nat>, stripViewBox: bool): Collected
    requires Readable(paths, files)
    decreases |paths|
  {
    if paths == [] then Collected(map[], [], 0)
    else
      var last := |paths| - 1;
      CollectStep(Collect(paths[..last], files, exclude, gids, stripViewBox), paths[last], files, exclude, gids, stripViewBox)
  }

  lemma MinBelow(keys: set<nat>, x: nat)
    requires x in keys
    ensures exists k :: k in keys && forall j :: j in keys ==> k <= j
    decreases x
  {
    if !(forall j :: j in keys ==> x <= j) {
      var y :| y in keys && y < x;
      MinBelow(keys, y);
    }
  }

  /** The smallest glyph ID of a non-empty set. */
  function MinKey(keys: set<nat>): (k: nat)
    requires keys != {}
    ensures k in keys && forall j :: j in keys ==> k <= j
  {
    var x :| x in keys;
    MinBelow(keys, x);
    var k :| k in keys && forall j :: j in keys ==> k <= j;
    k
  }

  /** `sorted(keys)`. */
  function SortedKeys(keys: set<nat>): (r: seq<nat>)
    ensures forall i, j :: 0 <= i < j < |r| ==> r[i] < r[j]
    ensures forall k :: k in r <==> k in keys
    decreases |keys|
  {
    if keys == {} then []
    else
      var k := MinKey(keys);
      [k] + SortedKeys(keys - {k})
  }

  /** `[svgDocsDict[index] for index in sorted(svgDocsDict.keys())]` */
  function DocList(docs: map<nat, Doc>): (r: seq<Doc>)
    ensures |r| == |SortedKeys(docs.Keys)|
    ensures forall i :: 0 <= i < |r| ==> r[i] == docs[SortedKeys(docs.Keys)[i]]
  {
    var ids := SortedKeys(docs.Keys);
    seq(|ids|, i requires 0 <= i < |ids| => docs[ids[i]])
  }

  /**
   * `processFont` up to the table: collect a document per glyph, then list
   * them by glyph ID. `None` when there is nothing to add, where the source
   * stops without touching the font.
   */
  method ProcessFont(paths: seq<string>, files: map<string, string>, exclude: seq<string>,
                     gids: map<string, nat>, stripViewBox: bool) returns (docList: Option<seq<Doc>>, added: nat)
    requires Readable(paths, files)
    ensures var c := Collect(paths, files, exclude, gids, stripViewBox);
      added == c.added && docList == (if c.docs == map[] then None else Some(DocList(c.docs)))
  {
    var docs: map<nat, Doc> := map[];
    var seen: seq<string> := [];
    added := 0;
    for i := 0 to |paths|
      invariant Collected(docs, seen, added) == Collect(paths[..i], files, exclude, gids, stripViewBox)
    {
      ghost var before := Collect(paths[..i], files, exclude, gids, stripViewBox);
      var path := paths[i];
      assert paths[..i + 1][..i] == paths[..i] && paths[..i + 1][i] == path;
      assert Collect(paths[..i + 1], files, exclude, gids, stripViewBox)
          == CollectStep(before, path, files, exclude, gids, stripViewBox);
      var name := GlyphName(path);
      if name in exclude {
        continue;
      }
      if name !in gids {
        continue;
      }
      var gid := gids[name];
      if name in seen {
        continue;
      }
      seen := seen + [name];
      var data := SetIdValue(files[path], gid);
      if stripViewBox {
        data := StripViewBox(data);
      }
      data := CleanupSvgDoc(data);
      assert Strip(data) == DocText(files[path], gid, stripViewBox);
      docs := docs[gid := Doc(Strip(data), gid, gid)];
      added := added + 1;
    }
    assert paths[..|paths|] == paths;
    if docs == map[] {
      return None, added;
    }
    docList := Some(DocList(docs));
  }

  /** The name of the file at some position is taken: not excluded and in the font. */
  predicate Eligible(x: string, exclude: seq<string>, gids: map<string, nat>) {
    x !in exclude && x in gids
  }

  /** The glyph name of each file, in order. */
  function GlyphNames(paths: seq<string>): (r: seq<string>)
    ensures |r| == |paths| && forall i :: 0 <= i < |paths| ==> r[i] == GlyphName(paths[i])
  {
    seq(|paths|, i requires 0 <= i < |paths| => GlyphName(paths[i]))
  }

  /** Some file is for glyph `x`, which is eligible. */
  predicate Named(paths: seq<string>, exclude: seq<string>, gids: map<string, nat>, x: string) {
    Eligible(x, exclude, gids) && x in GlyphNames(paths)
  }

  predicate NoDuplicates(s: seq<string>) {
    forall i, j :: 0 <= i < j < |s| ==> s[i] != s[j]
  }

  /** Each document is a one-glyph record under its own glyph ID. */
  predicate Singletons(docs: map<nat, Doc>) {
    forall k :: k in docs ==> docs[k].startGid == k && docs[k].endGid == k
  }

  /**
   * What each step keeps: no name taken twice, the count is the number of
   * names taken, each document is a one-glyph record under the glyph ID of
   * a name taken, and every name taken has one.
   */
  predicate Shaped(c: Collected, gids: map<string, nat>) {
    && NoDuplicates(c.seen) && c.added == |c.seen|
    && Singletons(c.docs)
    && (forall x :: x in c.seen ==> x in gids && gids[x] in c.docs)
    && (forall k :: k in c.docs ==> exists x :: x in c.seen && x in gids && gids[x] == k)
  }

  lemma StepShaped(c: Collected, path: string, files: map<string, string>, exclude: seq<string>,
                   gids: map<string, nat>, stripViewBox: bool)
    requires path in files && IdLiteral(files[path]) && Shaped(c, gids)
    ensures Shaped(CollectStep(c, path, files, exclude, gids, stripViewBox), gids)
  {
    var name := GlyphName(path);
    if !(name in exclude || name !in gids || name in c.seen) {
      var gid := gids[name];
      AddShaped(c, gids, name, Doc(DocText(files[path], gid, stripViewBox), gid, gid));
    }
  }

  /** Taking a new name with a one-glyph record under its glyph ID keeps the shape. */
  lemma AddShaped(c: Collected, gids: map<string, nat>, name: string, doc: Doc)
    requires Shaped(c, gids) && name !in c.seen && name in gids
    requires doc.startGid == gids[name] && doc.endGid == gids[name]
    ensures Shaped(Collected(c.docs[gids[name] := doc], c.seen + [name], c.added + 1), gids)
  {
    var d := Collected(c.docs[gids[name] := doc], c.seen + [name], c.added + 1);
    assert forall i :: 0 <= i < |c.seen| ==> d.seen[i] == c.seen[i];
    assert forall x :: x in d.seen <==> x in c.seen || x == name;
    forall k | k in d.docs ensures exists x :: x in d.seen && x in gids && gids[x] == k {
      if k != gids[name] {
        var x :| x in c.seen && x in gids && gids[x] == k;
        assert x in d.seen;
      } else {
        assert name in d.seen;
      }
    }
  }

  lemma {:induction false} CollectShaped(paths: seq<string>, files: map<string, string>, exclude: seq<string>,
                                         gids: map<string, nat>, stripViewBox: bool)
    requires Readable(paths, files)
    ensures Shaped(Collect(paths, files, exclude, gids, stripViewBox), gids)
    decreases |paths|
  {
    if paths != [] {
      var last := |paths| - 1;
      CollectShaped(paths[..last], files, exclude, gids, stripViewBox);
      StepShaped(Collect(paths[..last], files, exclude, gids, stripViewBox), paths[last], files, exclude, gids, stripViewBox);
    }
  }

  /** The names taken are exactly the eligible names of the files. */
  lemma {:induction false} CollectNamed(paths: seq<string>, files: map<string, string>, exclude: seq<string>,
                                        gids: map<string, nat>, stripViewBox: bool)
    requires Readable(paths, files)
    ensures forall x :: x in Collect(paths, files, exclude, gids, stripViewBox).seen <==> Named(paths, exclude, gids, x)
    decreases |paths|
  {
    if paths != [] {
      var last := |paths| - 1;
      CollectNamed(paths[..last], files, exclude, gids, stripViewBox);
      NamedStep(paths, exclude, gids);
    }
  }

  /**
   * The loop takes each eligible name once: the names taken are the
   * eligible names of the files, without repeats, and the count is their
   * number; each document is a one-glyph record under the glyph ID of a
   * name taken, and every name taken has one.
   */
  lemma CollectInvariant(paths: seq<string>, files: map<string, string>, exclude: seq<string>,
                         gids: map<string, nat>, stripViewBox: bool)
    requires Readable(paths, files)
    ensures var c := Collect(paths, files, exclude, gids, stripViewBox);
      && (forall x :: x in c.seen <==> Named(paths, exclude, gids, x))
      && NoDuplicates(c.seen) && c.added == |c.seen|
      && Singletons(c.docs)
      && (forall x :: x in c.seen ==> x in gids && gids[x] in c.docs)
      && (forall k :: k in c.docs ==> exists x :: x in c.seen && x in gids && gids[x] == k)
  {
    CollectNamed(paths, files, exclude, gids, stripViewBox);
    CollectShaped(paths, files, exclude, gids, stripViewBox);
  }

  lemma NamedStep(paths: seq<string>, exclude: seq<string>, gids: map<string, nat>)
    requires paths != []
    ensures forall x :: Named(paths, exclude, gids, x) <==>
      Named(paths[..|paths| - 1], exclude, gids, x) || (x == GlyphName(paths[|paths| - 1]) && Eligible(x, exclude, gids))
  {
    var last := |paths| - 1;
    assert GlyphNames(paths) == GlyphNames(paths[..last]) + [GlyphName(paths[last])];
  }

  /** Glyph names are distinct per glyph ID, as in a font's glyph order. */
  predicate Injective(gids: map<string, nat>) {
    forall x, y :: x in gids && y in gids && x != y ==> gids[x] != gids[y]
  }

  /** The file at `i` is the first one for its glyph name. */
  predicate FirstFor(paths: seq<string>, i: nat)
    requires i < |paths|
  {
    forall j :: 0 <= j < i ==> GlyphName(paths[j]) != GlyphName(paths[i])
  }

  /**
   * The first file wins: the document for an eligible glyph is made from the
   * first file named after it; later files for the same glyph are skipped.
   */
  lemma {:induction false} FirstFileWins(paths: seq<string>, files: map<string, string>, exclude: seq<string>,
                                         gids: map<string, nat>, stripViewBox: bool, i: nat)
    requires Readable(paths, files) && Injective(gids)
    requires i < |paths| && FirstFor(paths, i) && Eligible(GlyphName(paths[i]), exclude, gids)
    ensures var gid := gids[GlyphName(paths[i])];
      var docs := Collect(paths, files, exclude, gids, stripViewBox).docs;
      gid in docs && docs[gid] == Doc(DocText(files[paths[i]], gid, stripViewBox), gid, gid)
    decreases |paths|
  {
    var last := |paths| - 1;
    var init := paths[..last];
    var name := GlyphName(paths[i]);
    var c := Collect(init, files, exclude, gids, stripViewBox);
    CollectSeen(init, files, exclude, gids, stripViewBox);
    if i < last {
      assert init[i] == paths[i];
      forall j | 0 <= j < i ensures GlyphName(init[j]) != GlyphName(init[i]) {
        assert init[j] == paths[j];
      }
      FirstFileWins(init, files, exclude, gids, stripViewBox, i);
      assert Named(init, exclude, gids, name);
      StepKeeps(c, paths[last], files, exclude, gids, stripViewBox, name);
    }
  }

  /** The loop's later steps leave the document of a glyph already taken alone. */
  lemma StepKeeps(c: Collected, path: string, files: map<string, string>, exclude: seq<string>,
                  gids: map<string, nat>, stripViewBox: bool, name: string)
    requires path in files && IdLiteral(files[path]) && Injective(gids)
    requires name in c.seen && name in gids && gids[name] in c.docs
    ensures var d := CollectStep(c, path, files, exclude, gids, stripViewBox).docs;
      gids[name] in d && d[gids[name]] == c.docs[gids[name]]
  {
  }

  /** The names taken are exactly the eligible names of the files. */
  lemma CollectSeen(paths: seq<string>, files: map<string, string>, exclude: seq<string>,
                    gids: map<string, nat>, stripViewBox: bool)
    requires Readable(paths, files)
    ensures var c := Collect(paths, files, exclude, gids, stripViewBox);
      (forall x :: x in c.seen <==> Named(paths, exclude, gids, x))
      && (forall x :: x in c.seen ==> x in gids && gids[x] in c.docs)
  {
    CollectNamed(paths, files, exclude, gids, stripViewBox);
    CollectShaped(paths, files, exclude, gids, stripViewBox);
  }

  /** The documents are keyed by exactly the glyph IDs of the eligible files. */
  lemma CollectKeys(paths: seq<string>, files: map<string, string>, exclude: seq<string>,
                    gids: map<string, nat>, stripViewBox: bool)
    requires Readable(paths, files)
    ensures var c := Collect(paths, files, exclude, gids, stripViewBox);
      forall k :: k in c.docs <==> GidOfNamed(paths, exclude, gids, k)
  {
    var c := Collect(paths, files, exclude, gids, stripViewBox);
    CollectNamed(paths, files, exclude, gids, stripViewBox);
    CollectShaped(paths, files, exclude, gids, stripViewBox);
    forall k ensures k in c.docs <==> GidOfNamed(paths, exclude, gids, k) {
      if k in c.docs {
        var x :| x in c.seen && x in gids && gids[x] == k;
        assert Named(paths, exclude, gids, x);
      }
    }
  }

  /**
   * The table's document list is sorted by glyph ID without repeats, each
   * record covers one glyph, and the glyphs listed are exactly those of the
   * eligible files.
   */
  lemma DocListShape(paths: seq<string>, files: map<string, string>, exclude: seq<string>,
                     gids: map<string, nat>, stripViewBox: bool)
    requires Readable(paths, files)
    ensures var r := DocList(Collect(paths, files, exclude, gids, stripViewBox).docs);
      && (forall i, j :: 0 <= i < j < |r| ==> r[i].startGid < r[j].startGid)
      && (forall i :: 0 <= i < |r| ==> r[i].startGid == r[i].endGid)
      && (forall k :: (exists i :: 0 <= i < |r| && r[i].startGid == k) <==> GidOfNamed(paths, exclude, gids, k))
  {
    var c := Collect(paths, files, exclude, gids, stripViewBox);
    CollectShaped(paths, files, exclude, gids, stripViewBox);
    CollectKeys(paths, files, exclude, gids, stripViewBox);
    DocListKeys(c.docs);
  }

  /** A list of one-glyph records in glyph ID order, one per key. */
  lemma DocListKeys(docs: map<nat, Doc>)
    requires Singletons(docs)
    ensures var r := DocList(docs);
      && (forall i, j :: 0 <= i < j < |r| ==> r[i].startGid < r[j].startGid)
      && (forall i :: 0 <= i < |r| ==> r[i].startGid == r[i].endGid)
      && (forall k :: (exists i :: 0 <= i < |r| && r[i].startGid == k) <==> k in docs)
  {
    var ids := SortedKeys(docs.Keys);
    var r := DocList(docs);
    assert forall i :: 0 <= i < |r| ==> r[i].startGid == ids[i];
    forall k | k in docs ensures exists i :: 0 <= i < |r| && r[i].startGid == k {
      var i :| 0 <= i < |ids| && ids[i] == k;
      assert r[i].startGid == k;
    }
  }

  /** `k` is the glyph ID of some eligible file's glyph. */
  predicate GidOfNamed(paths: seq<string>, exclude: seq<string>, gids: map<string, nat>, k: nat) {
    exists x :: x in gids && Named(paths, exclude, gids, x) && gids[x] == k
  }

  /** Every document added has no white space alone between two tags. */
  lemma DocTextTight(data: string, gid: nat, stripViewBox: bool)
    requires IdLiteral(data)
    ensures NoBlankBetweenTags(DocText(data, gid, stripViewBox))
  {
    var withId := SetIdValue(data, gid);
    var r := Cleaned(if stripViewBox then StripViewBox(withId) else withId);
    CleanedHasNoGap(if stripViewBox then StripViewBox(withId) else withId);
    var a: nat, b: nat :| a <= b <= |r| && Strip(r) == r[a..b] && AllSpace(r[..a]) && AllSpace(r[b..]);
    SliceTight(r, a, b);
  }

  lemma SliceTight(r: string, a: nat, b: nat)
    requires a <= b <= |r| && NoBlankBetweenTags(r)
    ensures NoBlankBetweenTags(r[a..b])
  {
    var t := r[a..b];
    forall i, j | 0 <= i && i + 1 < j < |t| && t[i] == '>' && t[j] == '<' ensures !AllSpace(t[i + 1..j]) {
      assert r[a + i] == '>' && r[a + j] == '<';
      assert forall k :: i + 1 <= k < j ==> t[k] == r[a + k];
      assert t[i + 1..j] == r[a + i + 1..a + j];
      assert !AllSpace(r[a + i + 1..a + j]);
    }
  }
}
