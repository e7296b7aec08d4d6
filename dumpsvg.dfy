/**
 * dumpsvg: saving a font's `SVG ` table as one SVG file per glyph
 * (`processFont`). Each record `[document, startGid, endGid]` of the
 * table's document list is written once for every glyph ID of its range,
 * under the glyph's name; an ID past the end of the glyph order gets a made
 * up name `_unnamed<k>`. The font is reduced to its glyph order and its
 * document list, and the files written to a list of `SvgFile`s.
 */
module Dump {
  import opened Wrappers
  import opened Decimal
  import opened Ordering
  import opened SvgEdit
  import opened Utils

  /** A record of the table's document list. */
  datatype Record = Record(doc: string, startGid: nat, endGid: nat)

  /** What stays fixed during the loop: the glyph order, the names skipped, the names nested. */
  datatype Context = Context(order: seq<string>, skip: seq<string>, nested: seq<string>)

  /**
   * What the loop changes: the list of names to write (made up names are
   * added to it), the number the next made up name gets, the files written.
   */
  datatype Visit = Visit(names: seq<string>, next: nat, files: seq<SvgFile>)

  /** `p + s`, one character of `p` at a time. */
  function Prefixed(p: string, s: string): string {
    if p == [] then s else [p[0]] + Prefixed(p[1..], s)
  }

  lemma {:induction false} PrefixedIs(p: string, s: string)
    ensures Prefixed(p, s) == p + s
  {
    if p != [] {
      PrefixedIs(p[1..], s);
      assert p == [p[0]] + p[1..];
    }
  }

  /** The name of the `k`th glyph ID past the glyph order: `_unnamed<k>`. */
  function UnnamedName(k: nat): (r: string)
  {
    Prefixed("_unnamed", NatToString(k))
  }

  /** Two made up names are the same only for the same number. */
  lemma UnnamedDistinct(a: nat, b: nat)
    ensures UnnamedName(a) == UnnamedName(b) ==> a == b
  {
    var p := "_unnamed";
    PrefixedIs(p, NatToString(a));
    PrefixedIs(p, NatToString(b));
    if UnnamedName(a) == UnnamedName(b) {
      assert UnnamedName(a)[|p|..] == NatToString(a);
      assert UnnamedName(b)[|p|..] == NatToString(b);
      NatToStringInjective(a, b);
    }
  }

  /** `_unnamed1`, …, `_unnamed<n>`. */
  function UnnamedNames(n: nat): (r: seq<string>)
    ensures |r| == n
    ensures forall i :: 0 <= i < n ==> r[i] == UnnamedName(i + 1)
  {
    if n == 0 then [] else UnnamedNames(n - 1) + [UnnamedName(n)]
  }

  /** One glyph ID: find its name, making one up past the glyph order, and write the document unless skipped. */
  function VisitGid(v: Visit, c: Context, doc: string, gid: nat): Visit {
    if gid < |c.order| then
      var name := c.order[gid];
      if name !in v.names || name in c.skip then v
      else v.(files := v.files + [SvgFile(name, name in c.nested, doc)])
    else
      // the made up name has just been appended to the names list, so it is always listed
      var name := UnnamedName(v.next);
      var w := Visit(v.names + [name], v.next + 1, v.files);
      if name in c.skip then w
      else w.(files := w.files + [SvgFile(name, name in c.nested, doc)])
  }

  /** The IDs `gid`, …, `end` in ascending order. */
  function VisitRange(v: Visit, c: Context, doc: string, gid: nat, end: nat): Visit
    requires gid <= end + 1
    decreases end + 1 - gid
  {
    if gid == end + 1 then v else VisitRange(VisitGid(v, c, doc, gid), c, doc, gid + 1, end)
  }

  /** `while startGID != endGID + 1` ends only when the range is not reversed by more than one. */
  predicate Terminates(records: seq<Record>) {
    forall i :: 0 <= i < |records| ==> records[i].startGid <= records[i].endGid + 1
  }

  /** Every viewBox text the reset would use as a pattern is a plain text. */
  predicate ResettableDocs(records: seq<Record>) {
    forall i :: 0 <= i < |records| ==> ResetLiteral(records[i].doc)
  }

  /** The document of a record as written: viewBox reset if asked; `None` where the reset fails. */
  function RecordDoc(r: Record, reset: bool): (d: Option<string>)
    requires reset ==> ResetLiteral(r.doc)
    ensures !reset ==> d == Some(r.doc)
  {
    if reset then ResetViewBox(r.doc) else Some(r.doc)
  }

  /** Where the loop over the records stops: its state, and whether a reset failed there. */
  datatype Run = Run(state: Visit, crashed: bool)

  /** The records from the `i`th on, in order; a failed reset stops the run with what was written so far. */
  function VisitRecords(v: Visit, c: Context, records: seq<Record>, i: nat, reset: bool): Run
    requires i <= |records| && Terminates(records) && (reset ==> ResettableDocs(records))
    decreases |records| - i
  {
    if i == |records| then Run(v, false)
    else
      var r := records[i];
      match RecordDoc(r, reset)
      case None => Run(v, true)
      case Some(doc) => VisitRecords(VisitRange(v, c, doc, r.startGid, r.endGid), c, records, i + 1, reset)
  }

  /** What `processFont` ends with. */
  datatype DumpOutcome =
    | NoSvgTable              // "The font does not have the SVG table."
    | EmptyTable              // "The SVG table has no data that can be output."
    | NoNamesToWrite        // no glyph names: "can't produce any SVG files"
    | ResetFailed(files: seq<SvgFile>)  // `resetViewBox` raised an `IndexError` after these files
    | Saved(files: seq<SvgFile>)        // the files written, then `final_message(len(files))`

  /** The names to write before the loop: the requested ones if any, else the glyph order, sorted. */
  function RequestedNames(order: seq<string>, generate: seq<string>): (r: seq<string>)
    ensures multiset(r) == multiset(if generate != [] then generate else order)
  {
    Sort(if generate != [] then generate else order)
  }

  /** The table's precondition for `processFont`: its loops end and its viewBox patterns are plain. */
  predicate Dumpable(table: Option<seq<Record>>, reset: bool) {
    table.Some? ==> Terminates(table.value) && (reset ==> ResettableDocs(table.value))
  }

  /** `processFont` as a function of the glyph order and the table (`None`: no `SVG ` table). */
  function Dumped(order: seq<string>, table: Option<seq<Record>>, generate: seq<string>, exclude: seq<string>,
                  reset: bool): DumpOutcome
    requires Dumpable(table, reset)
  {
    match table
    case None => NoSvgTable
    case Some(records) =>
      if records == [] then EmptyTable
      else
        var names := RequestedNames(order, generate);
        if names == [] then NoNamesToWrite
        else
          var c := Context(order, [".notdef"] + exclude, Collisions(names));
          var run := VisitRecords(Visit(names, 1, []), c, records, 0, reset);
          if run.crashed then ResetFailed(run.state.files) else Saved(run.state.files)
  }

  method DumpFont(order: seq<string>, table: Option<seq<Record>>, generate: seq<string>, exclude: seq<string>,
                  reset: bool) returns (outcome: DumpOutcome)
    requires Dumpable(table, reset)
    ensures outcome == Dumped(order, table, generate, exclude, reset)
  {
    if table.None? {
      return NoSvgTable;
    }
    var records := table.value;
    if |records| == 0 {
      return EmptyTable;
    }
    var names := RequestedNames(order, generate);
    if names == [] {
      return NoNamesToWrite;
    }
    var skip := [".notdef"] + exclude;
    var nested := NestedFolderNames(names);
    var c := Context(order, skip, nested);
    ghost var start := Visit(names, 1, []);
    var next := 1;
    var files: seq<SvgFile> := [];
    for i := 0 to |records|
      invariant VisitRecords(Visit(names, next, files), c, records, i, reset) == VisitRecords(start, c, records, 0, reset)
    {
      var doc := records[i].doc;
      if reset {
        var d := ResetViewBox(doc);
        if d.None? {
          return ResetFailed(files);
        }
        doc := d.value;
      }
      names, next, files := WriteRange(names, next, files, c, doc, records[i].startGid, records[i].endGid);
    }
    return Saved(files);
  }

  /** The inner `while` of `processFont`: the glyph IDs of one record, in ascending order. */
  method WriteRange(names0: seq<string>, next0: nat, files0: seq<SvgFile>, c: Context, doc: string, start: nat, end: nat)
    returns (names: seq<string>, next: nat, files: seq<SvgFile>)
    requires start <= end + 1
    ensures Visit(names, next, files) == VisitRange(Visit(names0, next0, files0), c, doc, start, end)
  {
    names, next, files := names0, next0, files0;
    ghost var target := VisitRange(Visit(names0, next0, files0), c, doc, start, end);
    var gid := start;
    while gid != end + 1
      invariant gid <= end + 1
      invariant VisitRange(Visit(names, next, files), c, doc, gid, end) == target
      decreases end + 1 - gid
    {
      ghost var here := Visit(names, next, files);
      assert VisitRange(VisitGid(here, c, doc, gid), c, doc, gid + 1, end) == target;
      var name;
      if gid < |c.order| {
        name := c.order[gid];
      } else {
        name := UnnamedName(next);
        names := names + [name];
        next := next + 1;
      }
      if name !in names || name in c.skip {
        assert Visit(names, next, files) == VisitGid(here, c, doc, gid);
        gid := gid + 1;
        continue;
      }
      files := files + [SvgFile(name, name in c.nested, doc)];
      assert Visit(names, next, files) == VisitGid(here, c, doc, gid);
      gid := gid + 1;
    }
  }

  // ---------------------------------------------------------------- what the loop keeps

  /** The names list is the starting list followed by the made up names so far. */
  predicate NamesKept(v: Visit, names0: seq<string>) {
    v.next >= 1 && v.names == names0 + UnnamedNames(v.next - 1)
  }

  /**
   * Every file written is for a name of the names list that is not skipped,
   * nested only when the name is in the nested list.
   */
  predicate FilesKept(v: Visit, c: Context) {
    && (forall i :: 0 <= i < |v.files| ==> v.files[i].name in v.names && v.files[i].name !in c.skip)
    && (forall i :: 0 <= i < |v.files| ==> (v.files[i].nested <==> v.files[i].name in c.nested))
  }

  lemma GidNamesKept(v: Visit, c: Context, doc: string, gid: nat, names0: seq<string>)
    requires NamesKept(v, names0)
    ensures NamesKept(VisitGid(v, c, doc, gid), names0)
  {
    if gid >= |c.order| {
      assert UnnamedNames(v.next) == UnnamedNames(v.next - 1) + [UnnamedName(v.next)];
      assert v.names + [UnnamedName(v.next)] == names0 + UnnamedNames(v.next);
    }
  }

  lemma GidFilesKept(v: Visit, c: Context, doc: string, gid: nat)
    requires FilesKept(v, c)
    ensures FilesKept(VisitGid(v, c, doc, gid), c)
  {
    var w := VisitGid(v, c, doc, gid);
    assert forall i :: 0 <= i < |v.files| ==> w.files[i] == v.files[i];
    assert forall x :: x in v.names ==> x in w.names;
  }

  /** One ID makes up a name only past the glyph order, and writes at most one file. */
  lemma GidCounts(v: Visit, c: Context, doc: string, gid: nat)
    ensures VisitGid(v, c, doc, gid).next == v.next + (if gid < |c.order| then 0 else 1)
    ensures |VisitGid(v, c, doc, gid).files| <= |v.files| + 1
  {
  }

  /** The number of IDs of `lo..hi` at or past `n`. */
  function Beyond(lo: nat, hi: nat, n: nat): (k: nat)
    ensures k <= hi + 1 - lo || hi + 1 < lo
  {
    var from := if lo < n then n else lo;
    if hi + 1 <= from then 0 else hi + 1 - from
  }

  /** A range keeps the names list made of the starting list and the made up names. */
  lemma {:induction false} RangeNamesKept(v: Visit, c: Context, doc: string, gid: nat, end: nat, names0: seq<string>)
    requires gid <= end + 1 && NamesKept(v, names0)
    ensures NamesKept(VisitRange(v, c, doc, gid, end), names0)
    decreases end + 1 - gid
  {
    if gid != end + 1 {
      var w := VisitGid(v, c, doc, gid);
      GidNamesKept(v, c, doc, gid, names0);
      RangeNamesKept(w, c, doc, gid + 1, end, names0);
      assert VisitRange(v, c, doc, gid, end) == VisitRange(w, c, doc, gid + 1, end);
    }
  }

  /** A range writes only files for listed, unskipped names, nested as the nested list says. */
  lemma {:induction false} RangeFilesKept(v: Visit, c: Context, doc: string, gid: nat, end: nat)
    requires gid <= end + 1 && FilesKept(v, c)
    ensures FilesKept(VisitRange(v, c, doc, gid, end), c)
    decreases end + 1 - gid
  {
    if gid != end + 1 {
      var w := VisitGid(v, c, doc, gid);
      GidFilesKept(v, c, doc, gid);
      RangeFilesKept(w, c, doc, gid + 1, end);
      assert VisitRange(v, c, doc, gid, end) == VisitRange(w, c, doc, gid + 1, end);
    }
  }

  /** A range makes up one name for each of its IDs past the glyph order, and writes at most one file per ID. */
  lemma {:induction false} RangeCounts(v: Visit, c: Context, doc: string, gid: nat, end: nat)
    requires gid <= end + 1
    ensures var w := VisitRange(v, c, doc, gid, end);
      w.next == v.next + Beyond(gid, end, |c.order|) && |w.files| <= |v.files| + (end + 1 - gid)
    decreases end + 1 - gid
  {
    if gid != end + 1 {
      GidCounts(v, c, doc, gid);
      RangeCounts(VisitGid(v, c, doc, gid), c, doc, gid + 1, end);
    }
  }

  /** All the records keep the names list made of the starting list and the made up names. */
  lemma {:induction false} RecordsNamesKept(v: Visit, c: Context, records: seq<Record>, i: nat, reset: bool,
                                            names0: seq<string>)
    requires i <= |records| && Terminates(records) && (reset ==> ResettableDocs(records)) && NamesKept(v, names0)
    ensures NamesKept(VisitRecords(v, c, records, i, reset).state, names0)
    decreases |records| - i
  {
    if i < |records| {
      var r := records[i];
      var d := RecordDoc(r, reset);
      if d.Some? {
        RangeNamesKept(v, c, d.value, r.startGid, r.endGid, names0);
        RecordsNamesKept(VisitRange(v, c, d.value, r.startGid, r.endGid), c, records, i + 1, reset, names0);
      }
    }
  }

  /** All the records write only files for listed, unskipped names, nested as the nested list says. */
  lemma {:induction false} RecordsFilesKept(v: Visit, c: Context, records: seq<Record>, i: nat, reset: bool)
    requires i <= |records| && Terminates(records) && (reset ==> ResettableDocs(records)) && FilesKept(v, c)
    ensures FilesKept(VisitRecords(v, c, records, i, reset).state, c)
    decreases |records| - i
  {
    if i < |records| {
      var r := records[i];
      var d := RecordDoc(r, reset);
      if d.Some? {
        RangeFilesKept(v, c, d.value, r.startGid, r.endGid);
        RecordsFilesKept(VisitRange(v, c, d.value, r.startGid, r.endGid), c, records, i + 1, reset);
      }
    }
  }

  /** The nested names are among the names they were found in. */
  lemma CollisionsWithin(names: seq<string>, x: string)
    requires x in Collisions(names)
    ensures x in names
  {
    var idx := CollisionIndices(names);
    var k :| 0 <= k < |Collisions(names)| && Collisions(names)[k] == x;
    assert names[idx[k]] == x;
  }

  /** Each file kept is for a listed name, not skipped, nested exactly when its name is in the nested list. */
  lemma KeptFile(v: Visit, c: Context, names0: seq<string>, i: nat)
    requires NamesKept(v, names0) && FilesKept(v, c) && i < |v.files|
    ensures v.files[i].name !in c.skip
    ensures v.files[i].name in names0 || exists k :: 1 <= k && v.files[i].name == UnnamedName(k)
    ensures v.files[i].nested <==> v.files[i].name in c.nested
  {
    var x := v.files[i].name;
    if x !in names0 {
      var j :| 0 <= j < |v.names| && v.names[j] == x;
      assert UnnamedNames(v.next - 1)[j - |names0|] == x;
    }
  }

  /**
   * What is written: never `.notdef` or an excluded name; only a requested
   * name (the sorted glyph order by default) or a made up `_unnamed<k>`;
   * and a file goes to the nested folder exactly when its name is in the
   * collision list made before the loop, so only for a name of that list:
   * a made up name is nested only if it was also requested.
   */
  lemma DumpedFiles(order: seq<string>, table: Option<seq<Record>>, generate: seq<string>, exclude: seq<string>,
                    reset: bool)
    requires Dumpable(table, reset)
    ensures var out := Dumped(order, table, generate, exclude, reset);
      var names := RequestedNames(order, generate);
      (out.Saved? || out.ResetFailed?) ==> forall i :: 0 <= i < |out.files| ==>
        && out.files[i].name != ".notdef" && out.files[i].name !in exclude
        && (out.files[i].name in names || exists k :: 1 <= k && out.files[i].name == UnnamedName(k))
        && (out.files[i].nested <==> out.files[i].name in Collisions(names))
        && (out.files[i].nested ==> out.files[i].name in names)
  {
    var out := Dumped(order, table, generate, exclude, reset);
    if out.Saved? || out.ResetFailed? {
      var records := table.value;
      var names := RequestedNames(order, generate);
      var c := Context(order, [".notdef"] + exclude, Collisions(names));
      var v0 := Visit(names, 1, []);
      assert v0.names == names + UnnamedNames(0);
      RecordsNamesKept(v0, c, records, 0, reset, names);
      RecordsFilesKept(v0, c, records, 0, reset);
      var v := VisitRecords(v0, c, records, 0, reset).state;
      assert out.files == v.files;
      forall i | 0 <= i < |v.files|
        ensures v.files[i].name != ".notdef" && v.files[i].name !in exclude
        ensures v.files[i].name in names || exists k :: 1 <= k && v.files[i].name == UnnamedName(k)
        ensures v.files[i].nested <==> v.files[i].name in Collisions(names)
        ensures v.files[i].nested ==> v.files[i].name in names
      {
        KeptFile(v, c, names, i);
        if v.files[i].nested {
          CollisionsWithin(names, v.files[i].name);
        }
      }
    }
  }

  // ---------------------------------------------------------------- ranges inside the glyph order

  /** The files for a run of glyph names when the names list does not grow: those listed and not skipped. */
  function Written(gnames: seq<string>, names: seq<string>, c: Context, doc: string): (r: seq<SvgFile>)
    ensures |r| <= |gnames|
    decreases |gnames|
  {
    if gnames == [] then []
    else
      var x := gnames[0];
      (if x in names && x !in c.skip then [SvgFile(x, x in c.nested, doc)] else []) + Written(gnames[1..], names, c, doc)
  }

  /**
   * A range inside the glyph order visits each ID once, in ascending order:
   * the files written are those of the slice of the glyph order it covers,
   * filtered by the names list and the skip list, and nothing else changes.
   */
  lemma {:induction false} RangeInOrder(v: Visit, c: Context, doc: string, gid: nat, end: nat)
    requires gid <= end + 1 && end < |c.order|
    ensures VisitRange(v, c, doc, gid, end) == v.(files := v.files + Written(c.order[gid..end + 1], v.names, c, doc))
    decreases end + 1 - gid
  {
    if gid == end + 1 {
      assert v.files + [] == v.files;
    } else {
      var s := c.order[gid..end + 1];
      assert s[0] == c.order[gid] && s[1..] == c.order[gid + 1..end + 1];
      var w := VisitGid(v, c, doc, gid);
      RangeInOrder(w, c, doc, gid + 1, end);
      var x := c.order[gid];
      var head: seq<SvgFile> := if x in v.names && x !in c.skip then [SvgFile(x, x in c.nested, doc)] else [];
      assert w == v.(files := v.files + head);
      assert v.files + head + Written(s[1..], v.names, c, doc) == v.files + (head + Written(s[1..], v.names, c, doc));
    }
  }

  /**
   * The made up names are numbered by one counter over the whole table: a
   * table whose records cover `k` IDs past the glyph order in all makes up
   * `_unnamed1` to `_unnamed<k>`, each once.
   */
  lemma {:induction false} UnnamedCount(v: Visit, c: Context, records: seq<Record>, i: nat, reset: bool)
    requires i <= |records| && Terminates(records) && (reset ==> ResettableDocs(records))
    ensures var w := VisitRecords(v, c, records, i, reset);
      !w.crashed ==> w.state.next == v.next + BeyondAll(records, i, |c.order|)
    decreases |records| - i
  {
    if i < |records| {
      var r := records[i];
      var d := RecordDoc(r, reset);
      if d.Some? {
        RangeCounts(v, c, d.value, r.startGid, r.endGid);
        UnnamedCount(VisitRange(v, c, d.value, r.startGid, r.endGid), c, records, i + 1, reset);
      }
    }
  }

  /**
   * After a run over the whole table, the list of names to write is the
   * starting list followed by `_unnamed1` … `_unnamed<k>`, where `k` is the
   * number of IDs past the glyph order in all the records.
   */
  lemma RunNames(c: Context, records: seq<Record>, reset: bool, names0: seq<string>)
    requires Terminates(records) && (reset ==> ResettableDocs(records))
    ensures var run := VisitRecords(Visit(names0, 1, []), c, records, 0, reset);
      !run.crashed ==> run.state.names == names0 + UnnamedNames(BeyondAll(records, 0, |c.order|))
  {
    var v0 := Visit(names0, 1, []);
    assert v0.names == names0 + UnnamedNames(0);
    RecordsNamesKept(v0, c, records, 0, reset, names0);
    UnnamedCount(v0, c, records, 0, reset);
  }

  /** The number of IDs past `n` over the ranges of the records from the `i`th on. */
  function BeyondAll(records: seq<Record>, i: nat, n: nat): nat
    requires i <= |records| && Terminates(records)
    decreases |records| - i
  {
    if i == |records| then 0
    else Beyond(records[i].startGid, records[i].endGid, n) + BeyondAll(records, i + 1, n)
  }
}
