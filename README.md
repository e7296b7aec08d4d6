# opentype-svg, modelled in Dafny

This project models the core of Adobe's opentype-svg tools. These tools move glyph artwork between font outlines and the OpenType `'SVG '` table. The table's SVG Document Index holds `(document, startGlyphID, endGlyphID)` records.

- **fonts2svg** draws each glyph of one or more fonts with an SVG path pen. It writes one SVG file per glyph, with one filled `<path>` per font.
- **addsvg** turns a folder of SVG files into the table's document list. Before adding each document it sets its id, strips its viewBox if asked, and cleans it up.
- **dumpsvg** expands the table's glyph ranges back into one SVG file per glyph. It makes up `_unnamedN` names for glyph IDs past the glyph order, and can reset the viewBox.
- Shared helpers:
  - comma splitting;
  - the case-insensitive collision list that decides which files go to a nested folder;
  - font-format detection from the first four bytes of a file;
  - the final message;
  - the hex-colour check and the fitting of the colour list to the number of fonts.

Both generations of the code are modelled: the package `lib/opentypesvg/` and the older top-level scripts. Where the older scripts behave differently, the difference is a member of its own, with a lemma relating it to the package behaviour:
- `Utils.LegacyGetFontFormat` recognises only OTF and TTF in `fonts2svg.py` and `addSVGtable.py`;
- `Utils.LegacyFinalMessage`;
- `ViewBox.LegacyViewBox`;
- `Colors.ColorList.ValidateRawColorsStr` drops invalid colours instead of raising.

## How the model is built

| Module | File | Covers |
|---|---|---|
| `Wrappers` | wrappers.dfy | `Option` and `Result`. |
| `Text` | text.dfy | Python's string primitives as used by the tools: `lower()` (ASCII letters), `str.isspace`, `strip`, `split`, `join`, `str.replace` (`ReplaceAll`), searching, and whitespace-separated words. |
| `Decimal` | decimal.dfy | Printing and reading integers in decimal, with round-trip lemmas. |
| `Ordering` | ordering.dfy | Python's string ordering (code point by code point), `sorted`, and `sorted(set(...))`. |
| `Utils` | utils.dfy | `split_comma_sequence`, the nested-folder collision list, `get_font_format`, `validate_font_paths`, `final_message`. |
| `PathPen` | pathpen.dfy | The SVG pen as a class (`SVGPen`) with fields `d`, `lastX`, `lastY`. Also the pen's behaviour as functions over a call sequence, and the geometry path data draws by section 8.3 of SVG 1.1. |
| `ViewBox` | viewbox.dfy | `viewbox_settings` and the legacy UPM viewBox. |
| `Colors` | colors.dfy | `RE_HEXCOLOR`, `validate_hex_values`, and the colour list as a class with in-place append and truncation. |
| `GlyphSelection` | glyphsel.dfy | The glyph-name selection of `processFonts`. |
| `Generate` | generate.dfy | `processFonts` of fonts2svg: documents, `<path>` elements, opacity, and which files are saved where. |
| `SvgEdit` | svgedit.dfy | `setIDvalue`, `stripViewBox`, `resetViewBox`. Each is an explicit scanner that makes the same lazy or greedy choices as the regular expression it replaces. |
| `Cleanup` | cleanup.dfy | `cleanupSVGdoc`. It is a method that reassigns the document once per text found up front, like the source's `str.replace` loops. |
| `FontCopy` | fontcopy.dfy | `makeFontCopyPath`, with a `while` loop over a finite set of existing paths. |
| `AddSvg` | addsvg.dfy | `getGlyphNameFromFileName`, `validateSVGfiles`, and the doc-list construction of `processFont`. |
| `Dump` | dumpsvg.dfy | The decode loop of dumpsvg's `processFont`. It is a method (`WriteRange`) proved against a function (`VisitRange`). |

Modelling choices:
- **Font library inputs.** Fonts are given as data: the glyph order, a name-to-glyph-ID map (a missing key is `getGlyphID`'s `KeyError`), glyph outlines as contours of integer points, and the `head` table's fields.
- **Files.** The files on disk are a map from path to text. "Exists" is a finite set of paths.
- **Output.** Writing files is modelled as a returned list of `SvgFile(name, nested, text)`.
- **Regular-expression substitutions.** `re.sub(matched_text, …)` reuses a matched text as a pattern. It is modelled as a literal replace-all, under the precondition that the text holds no regular-expression metacharacter (`SvgEdit.IdLiteral`, `SvgEdit.ResetLiteral`).

## Model

| member | source | states |
|---|---|---|
| `Text.Lower` | lib/opentypesvg/utils.py:123-129 | The lowercase form has the input's length; each ASCII capital becomes its small letter and every other character is kept. |
| `Text.Strip` | lib/opentypesvg/utils.py:53-54 | The result is a slice of the input with only whitespace cut on either side, and it neither starts nor ends with whitespace. |
| `Text.Split` | lib/opentypesvg/utils.py:53-54 | `str.split(sep)` yields at least one field and no field contains the separator. |
| `Text.SplitJoin` | lib/opentypesvg/utils.py:53-54 | Splitting a join of separator-free fields gives back the fields. |
| `Text.JoinSplit` | lib/opentypesvg/utils.py:53-54 | Joining the split fields gives back the text, and there is one field more than there are separators. |
| `Text.Words` | lib/opentypesvg/dumpsvg.py:37 | `str.split()` yields non-empty words that contain no whitespace. |
| `Text.WordsOfJoin` | lib/opentypesvg/dumpsvg.py:37-39 | Splitting a single-space join of words gives back the words. |
| `Text.FindFrom` | lib/opentypesvg/addsvg.py:32 | The first occurrence of a pattern at or after a position, with no earlier match; `None` iff there is none. |
| `Text.ReplaceAllAbsent` | lib/opentypesvg/addsvg.py:69-70 | `str.replace` of a pattern that does not occur changes nothing. |
| `Text.ReplaceAllIdentity` | lib/opentypesvg/addsvg.py:69-70 | Replacing a pattern with itself changes nothing. |
| `Text.ReplaceAllInsertUndo` | lib/opentypesvg/addsvg.py:39 | Replacing every `p` with `p + x` and then every `p + x` with `p` restores the text. |
| `Text.ReplaceAllAt` | lib/opentypesvg/dumpsvg.py:40 | When the first occurrence is at `p`, the result is the text before `p`, the replacement, then the rest replaced. |
| `Text.ReplaceAllKeepsNonSpace` | lib/opentypesvg/addsvg.py:73-78 | Replacing a pattern with text that has the same non-whitespace characters keeps the document's non-whitespace characters. |
| `Text.NonSpaceConcat` | lib/opentypesvg/addsvg.py:64-80 | The non-whitespace characters of a concatenation are those of each part, in order. |
| `Decimal.NatToStringValue` | lib/opentypesvg/dumpsvg.py:99 | The decimal digits printed for `n` have value `n`. |
| `Decimal.NatToStringInjective` | lib/opentypesvg/dumpsvg.py:99 | Different counters print differently. |
| `Decimal.IntToString` | lib/opentypesvg/fonts2svg.py:204 | `str(i)` is non-empty and starts with `-` iff `i` is negative. |
| `Decimal.IntToStringInjective` | lib/opentypesvg/fonts2svg.py:204 | Different integers print differently. |
| `Decimal.ParseIntRoundTrip` | lib/opentypesvg/fonts2svg.py:204 | Reading back a printed integer that is followed by a non-digit gives the integer and the rest. |
| `Decimal.NumsRoundTrip` | lib/opentypesvg/fonts2svg.py:204 | Reading back a space-separated list of printed integers gives the list and the rest. |
| `Ordering.StrLeTotal` | lib/opentypesvg/fonts2svg.py:100 | Python's string order is total. |
| `Ordering.StrLeAntisymmetric` | lib/opentypesvg/fonts2svg.py:100 | Python's string order is antisymmetric. |
| `Ordering.StrLeTransitive` | lib/opentypesvg/fonts2svg.py:100 | Python's string order is transitive. |
| `Ordering.Sort` | lib/opentypesvg/fonts2svg.py:100 | `sorted(xs)` is sorted and a permutation of `xs`, with duplicates kept. |
| `Ordering.Insert` | lib/opentypesvg/fonts2svg.py:100 | Inserting into a sorted list keeps it sorted and adds exactly the one element. |
| `Ordering.Dedup` | lib/opentypesvg/fonts2svg.py:112 | Dropping repeats from a sorted list gives a strictly sorted list with the same members. |
| `Ordering.SortedSet` | lib/opentypesvg/fonts2svg.py:103-104 | `sorted(list(set(xs)))` is strictly sorted and has exactly the members of `xs`. |
| `Utils.SplitCommaSequence` | lib/opentypesvg/utils.py:53-54 | One item per comma-separated field (commas plus one), each item the stripped field. |
| `Utils.SplitCommaItems` | lib/opentypesvg/utils.py:53-54 | No item holds a comma or starts or ends with whitespace. |
| `Utils.SplitCommaJoin` | lib/opentypesvg/utils.py:53-54 | Splitting the comma-join of stripped, comma-free items gives back the items. |
| `Utils.SplitCommaExample` | tests/options_test.py:171-175 | `'a , b'` gives `['a', 'b']`. |
| `Utils.NestedFolderNames` | lib/opentypesvg/utils.py:110-129 | The seen-set loop returns exactly `Collisions(names)`: the names whose lowercase form occurred earlier, in input order. |
| `Utils.CollisionIndices` | lib/opentypesvg/utils.py:123-129 | The collision list is a subsequence of the input, and a position is in it iff an earlier name has the same lowercase form. |
| `Utils.CollisionCount` | lib/opentypesvg/utils.py:123-129 | The collision list is the input's length minus the number of distinct lowercase forms, so each form's first name stays in the main folder. |
| `Utils.LowerFormsStep` | lib/opentypesvg/utils.py:126-128 | The seen set grows by one lowercase form per name, and a name collides iff its form was already in the set. |
| `Utils.ThreeVariantsCollide` | lib/opentypesvg/utils.py:118-120 | With three case variants of one name, the second and third both collide and land in the same nested folder, which is the documented limitation. |
| `Utils.CollisionExample` | tests/shared_utils_test.py:121-124 | `['a','A','B','b','c']` gives `['A','b']`. |
| `Utils.FontFormatBySignature` | lib/opentypesvg/utils.py:25-37 | On four bytes: OTF iff the tag is `OTTO`; TTF iff it is 0x00010000 or `true`; WOFF iff `wOFF`; WOFF2 iff `wOF2`. |
| `Utils.TagInjective` | shared_utils.py:49-61 | Two four-byte headers have the same tag iff they are equal. |
| `Utils.LegacyFontFormatRestricts` | addSVGtable.py:251-259 | The legacy detection gives OTF or TTF where the package one does, and `None` for everything else, WOFF and WOFF2 included. |
| `Utils.ValidateFontPaths` | shared_utils.py:64-74 | The loop returns `ValidFontPaths`: the paths that are files with an accepted format, in input order. |
| `Utils.ValidFontPaths` | lib/opentypesvg/utils.py:40-50 | A path is kept iff it is in the input, is a file, and its format is accepted; never more paths than given. |
| `Utils.FinalMessage` | lib/opentypesvg/utils.py:57-62 | The message is exactly the count word (a number iff something was saved) followed by ` SVG file saved.` for one file and ` SVG files saved.` otherwise: it starts with the one, ends with the other, and has the length of both together. |
| `Utils.FinalMessageCount` | lib/opentypesvg/utils.py:57-62 | For a positive count the message reads back as that number followed by exactly ` SVG file saved.` (one) or ` SVG files saved.` (more). |
| `Utils.LegacyFinalMessage` | dumpSVGtable.py:176-178 | The older scripts print the same message except `1 SVG files saved.` for one file. |
| `Utils.FinalMessageNone` | tests/shared_utils_test.py:51-62 | `No SVG files saved.` for none. |
| `Utils.FinalMessageOne` | tests/shared_utils_test.py:51-62 | `1 SVG file saved.` for one. |
| `Utils.FinalMessageTwo` | tests/shared_utils_test.py:51-62 | `2 SVG files saved.` for two. |
| `PathPen.FormatAllAppend` | lib/opentypesvg/fonts2svg.py:40-76 | The path data of two command lists is the concatenation of their path data. |
| `PathPen.LetterArgs` | lib/opentypesvg/fonts2svg.py:40-76 | Each command's letter determines its number of arguments, and the letter with the arguments rebuilds the command. |
| `PathPen.PathRoundTrip` | lib/opentypesvg/fonts2svg.py:40-76 | Reading back the path data the pen writes gives back its command list. |
| `PathPen.DrawAppend` | lib/opentypesvg/fonts2svg.py:33-80 | Driving the pen with two call lists in turn appends the commands of the second, drawn from the state the first leaves. |
| `PathPen.DrawOne` | lib/opentypesvg/fonts2svg.py:33-80 | One call emits its own commands and moves the pen to its next state. |
| `PathPen.RenderAppend` | lib/opentypesvg/fonts2svg.py:33-80 | Section 8.3 of SVG 1.1: the pieces drawn by two command lists are those of the first, then those of the second from where the first ends. |
| `PathPen.SegsDrawn` | lib/opentypesvg/fonts2svg.py:45-69 | lineTo, curveTo and qCurveTo calls from a current point draw exactly their segments, and leave the pen at the last point. `H`, `V` and elided lines draw the same segments as `L`. |
| `PathPen.ContourDrawn` | lib/opentypesvg/fonts2svg.py:40-76 | A contour draws its segments and then a closing line to its start, whether it ends with closePath or endPath; afterwards the pen has no current point. |
| `PathPen.GlyphDrawn` | lib/opentypesvg/fonts2svg.py:33-80 | The path data of a glyph draws exactly its outline, each contour closed. |
| `PathPen.EmptyPathIffNoContours` | lib/opentypesvg/fonts2svg.py:154-155 | `d` is empty iff the glyph has no contours. |
| `PathPen.PathDataDrawsOutline` | lib/opentypesvg/fonts2svg.py:148-152 | The pen's `d` parses as path data and draws the glyph's outline. |
| `PathPen.SVGPen.constructor` | lib/opentypesvg/fonts2svg.py:35-38 | A new pen has an empty `d` and no current point. |
| `PathPen.SVGPen.MoveTo` | lib/opentypesvg/fonts2svg.py:40-43 | Appends `M x y` and makes the point current. |
| `PathPen.SVGPen.LineTo` | lib/opentypesvg/fonts2svg.py:45-55 | Appends nothing when the target is the current point, otherwise `V y` when only y changes, `H x` when only x changes, and `L x y` when both do. The target becomes the current point. |
| `PathPen.SVGPen.CurveTo` | lib/opentypesvg/fonts2svg.py:57-63 | Appends `C` with the six coordinates; the end point becomes current. |
| `PathPen.SVGPen.QCurveTo` | lib/opentypesvg/fonts2svg.py:65-69 | Appends `Q` with the four coordinates; the end point becomes current. |
| `PathPen.SVGPen.ClosePath` | lib/opentypesvg/fonts2svg.py:71-73 | Appends `Z` and clears the current point. |
| `PathPen.SVGPen.EndPath` | lib/opentypesvg/fonts2svg.py:75-76 | Appends `Z` and clears the current point, so an open contour is closed too. |
| `PathPen.EndLikeClose` | fonts2svg.py:96-101 | Ending a contour with endPath writes the same data and leaves the same state as closePath. |
| `PathPen.Step` | fonts2svg.py:59-104 | Every pen call only appends to `d`: what it emits depends only on the state the earlier calls left. |
| `ViewBox.FittedViewBoxSpans` | lib/opentypesvg/fonts2svg.py:197-204 | The adjusted viewBox reads back as a box from `xMin` to `xMax` across and from `-yMax` to `-yMin` down, which is the font's bounding box with y flipped. |
| `ViewBox.EmViewBoxSpans` | lib/opentypesvg/fonts2svg.py:205-210 | The default viewBox reads back as `0 -upm upm upm`. |
| `ViewBox.DefaultViewBoxSpans` | lib/opentypesvg/fonts2svg.py:211-213 | With no `head` table both modes give `0 -1000 1000 1000`. |
| `ViewBox.BoxReadBack` | lib/opentypesvg/fonts2svg.py:204 | Any box printed as four numbers reads back as itself. |
| `ViewBox.LegacyViewBoxAgrees` | fonts2svg.py:165-178 | The legacy UPM viewBox, with 1000 when the UPM cannot be read, equals the package default. |
| `ViewBox.ViewBoxExamples` | tests/fonts2svg_test.py:6-13 | The fitted viewBox of the test font is `-168 -850 998 1151`; the default and no-`head` ones are `0 -1000 1000 1000`. |
| `Colors.HexColorDigits` | lib/opentypesvg/fonts2svg.py:216 | `RE_HEXCOLOR` matches iff, after one optional trailing newline (the regex's `$`), the text is exactly 6 or 8 hex digits. |
| `Colors.StrippedHexColor` | lib/opentypesvg/fonts2svg.py:216-225 | For a stripped item the check is exactly "6 or 8 hex digits". |
| `Colors.InvalidHexColorExamples` | tests/options_test.py:158-169 | `xxx`, `xxxxxx`, `aaa` and `aaaxxx` are rejected. |
| `Colors.ValidHexColorExamples` | tests/options_test.py:158-169 | `aaabbb`, `cccdddee`, `000000` and `ffffff00` are accepted. |
| `Colors.FirstInvalid` | lib/opentypesvg/fonts2svg.py:221-224 | `None` iff every item is a hex colour, else the first item that is not. |
| `Colors.ValidateHexValues` | lib/opentypesvg/fonts2svg.py:219-225 | Succeeds iff every split item is a hex colour, and then returns the split list; otherwise fails with `X is not a valid hex color.` for the first item that is not a colour. |
| `Colors.HexColorsOf` | fonts2svg.py:300-306 | The items kept by the legacy loop are exactly the valid colours among the fields, never more than the fields. |
| `Colors.Fitted` | lib/opentypesvg/fonts2svg.py:313-320 | The fitted list has one colour per font: the given colours first, padded with `000000`. |
| `Colors.ColorList.constructor` | fonts2svg.py:265 | The class-level colour list starts empty. |
| `Colors.ColorList.ValidateRawColorsStr` | fonts2svg.py:300-306 | Appends to the shared list, in order, the fields of the comma split that are valid colours; invalid ones are dropped. |
| `Colors.ColorList.FitToFontCount` | fonts2svg.py:330-339 | The list becomes `Fitted(old, n)` in place; the colours it drops are returned, and the old list is the kept list followed by them. |
| `Colors.WarnedAsWritten` | lib/opentypesvg/fonts2svg.py:318-323 | The package warning as written: the last `min(extra, n)` of the `n` colours that were kept, so every colour it names is a kept one. |
| `Colors.WarnedNamesNoDropped` | lib/opentypesvg/fonts2svg.py:318-323 | For distinct colours and at least one font, the warning is non-empty, names none of the dropped colours, and so is never the list of dropped colours. |
| `Colors.WarnedAsWrittenExample` | lib/opentypesvg/fonts2svg.py:318-323 | With colours `aaaaaa bbbbbb cccccc` and two fonts, the package warning lists `bbbbbb`, a kept colour, while `cccccc` is the one dropped. |
| `GlyphSelection.AllNames` | lib/opentypesvg/fonts2svg.py:103-104 | A name is in the fonts' concatenated glyph lists iff some font has it. |
| `GlyphSelection.Common` | lib/opentypesvg/fonts2svg.py:106-107 | A name is kept iff it is listed and every font has it. |
| `GlyphSelection.SelectGlyphNames` | lib/opentypesvg/fonts2svg.py:95-112 | No fonts gives `None`, where the source raises. An explicit list is sorted with duplicates kept (a permutation). Otherwise the result is strictly sorted: with `-u` it holds the names of some font; else the names of every font plus the added ones. |
| `GlyphSelection.UnionIgnoresAdded` | lib/opentypesvg/fonts2svg.py:102-112 | With `-u` the added names make no difference. |
| `GlyphSelection.IntersectionWithinUnion` | lib/opentypesvg/fonts2svg.py:102-107 | Every name of the intersection is in the union. |
| `GlyphSelection.SelectionIgnoresFontOrder` | fonts2svg.py:128-138 | Swapping two fonts does not change the selection when names come from the fonts. |
| `GlyphSelection.StrictlySortedUnique` | lib/opentypesvg/fonts2svg.py:103-112 | Two strictly sorted lists with the same members are equal, so `sorted(set(...))` is determined by its members. |
| `Generate.FlipYTwice` | lib/opentypesvg/fonts2svg.py:149 | The transform `(1, 0, 0, -1, 0, 0)` is its own inverse. |
| `Generate.PathData` | lib/opentypesvg/fonts2svg.py:148-155 | The glyph's `d` is empty iff it has no contours. |
| `Generate.PathDataDrawsFlipped` | lib/opentypesvg/fonts2svg.py:148-152 | The glyph's `d` parses and draws its outline with y flipped. |
| `Generate.HundredthsBounds` | lib/opentypesvg/fonts2svg.py:163 | The hundredths printed by `%.2f` of `alpha / 255` are in 0..100 and within half a hundredth of the exact value. |
| `Generate.OpacityText` | lib/opentypesvg/fonts2svg.py:163 | The opacity is printed as four characters, `d.dd`. |
| `Generate.OpacityExamples` | lib/opentypesvg/fonts2svg.py:163 | Alphas 0, 255 and 128 print as `0.00`, `1.00` and `0.50`. |
| `Generate.OpaqueAlpha` | lib/opentypesvg/fonts2svg.py:157-162 | An 8-digit colour with alpha `ff` (any case) paints exactly like its 6-digit colour, with no opacity. |
| `Generate.TranslucentAlpha` | lib/opentypesvg/fonts2svg.py:157-163 | Any other alpha adds ` opacity="…"` with its value, then the 6-digit fill. |
| `Generate.ElementFor` | lib/opentypesvg/fonts2svg.py:154-166 | A font adds an element iff its `d` is non-empty, and the element starts with `<path` after a tab. |
| `Generate.GlyphData` | lib/opentypesvg/fonts2svg.py:142-155 | A font's data is empty iff the glyph is missing from it, is skipped, or has no contours. |
| `Generate.GlyphDocument` | lib/opentypesvg/fonts2svg.py:139-167 | The document method builds `GlyphSvg`: the header with the viewBox, one element per drawing font, then `</svg>`. |
| `Generate.FontElements` | lib/opentypesvg/fonts2svg.py:142-166 | The per-font loop concatenates each font's element in font order. |
| `Generate.AddFontElement` | lib/opentypesvg/fonts2svg.py:143-166 | One loop step appends that font's element, or nothing. |
| `Generate.GlyphSvgHasPath` | lib/opentypesvg/fonts2svg.py:169-171 | A document contains `<path` iff some font draws the glyph. |
| `Generate.SkipList` | lib/opentypesvg/fonts2svg.py:120-123 | The skip list holds `.notdef` and every excluded name. |
| `Generate.ProcessFonts` | lib/opentypesvg/fonts2svg.py:83-191 | The method computes `Processed`: no fonts, nothing to process, or the files saved. |
| `Generate.SaveGlyphs` | lib/opentypesvg/fonts2svg.py:138-188 | The saving loop returns `SavedFiles`: one file per name whose document has a path, in name order. |
| `Generate.SavedIndices` | lib/opentypesvg/fonts2svg.py:138-188 | The saved files are, in order, exactly the flagged names, each with its document and its nested flag. |
| `Generate.SavedExactly` | lib/opentypesvg/fonts2svg.py:138-188 | A name gets a file iff it is in the list and some font draws it. |
| `Generate.SavedInOrder` | lib/opentypesvg/fonts2svg.py:138-188 | Files are saved in strictly ascending name order. |
| `Generate.MainFolderNoCaseClash` | lib/opentypesvg/fonts2svg.py:126-127 | No two files saved in the main folder have the same lowercase name. |
| `Generate.GlyphFileIff` | lib/opentypesvg/fonts2svg.py:83-191 | In all three selection modes, a glyph is saved iff it is selected and some font draws it. |
| `SvgEdit.IdSearch` | lib/opentypesvg/addsvg.py:32 | A match of `<svg[^>]+?(id=".*?").+?>` locates an `id="…"` text after `<svg`. |
| `SvgEdit.IdFrom` | lib/opentypesvg/addsvg.py:32 | The id text is found without crossing a `>`, so it is inside the `<svg` tag. |
| `SvgEdit.IdAttribute` | lib/opentypesvg/addsvg.py:38 | `id="glyph<gid>"` is an id text and holds no regex metacharacter. |
| `SvgEdit.SetIdInserts` | lib/opentypesvg/addsvg.py:39 | Without an id in an `<svg` tag, the only change is the inserted `id="glyph<gid>"` after every `<svg`: removing it restores the document. |
| `SvgEdit.SetIdKeepsOwnId` | lib/opentypesvg/addsvg.py:35-38 | A document whose id already is `id="glyph<gid>"` is unchanged. |
| `SvgEdit.SetIdWithoutSvg` | addSVGtable.py:73-79 | A document with no `<svg` is unchanged. |
| `SvgEdit.AttrAt` | lib/opentypesvg/addsvg.py:44-45 | A viewBox match at a position is whitespace, `viewBox=`, a quote, value characters, a quote, and then text up to a `>`. |
| `SvgEdit.StripMatch` | lib/opentypesvg/addsvg.py:44-45 | A match keeps at least `<svg` and one character before the attribute, and what it removes is a viewBox attribute. |
| `SvgEdit.StripViewBox` | lib/opentypesvg/addsvg.py:48-55 | Without a match the document is returned unchanged; with one it gets shorter. |
| `SvgEdit.StripOne` | lib/opentypesvg/addsvg.py:54 | With a single match, exactly the viewBox attribute and its leading whitespace are removed; the text before and after is kept. |
| `SvgEdit.StripKeepsTagBlank` | addSVGtable.py:86-93 | A document starting `<svg ` still starts `<svg ` after stripping. |
| `SvgEdit.StripWithoutViewBox` | addSVGtable.py:86-93 | A document without `viewBox=` is returned unchanged. |
| `SvgEdit.FindViewBox` | lib/opentypesvg/dumpsvg.py:30 | The first (leftmost, shortest) match of `viewBox=["\|']([\d, ])+?["\|']`, with no match before it; `None` iff nothing matches. |
| `SvgEdit.ViewBoxText` | lib/opentypesvg/dumpsvg.py:34 | The matched text is `viewBox=`, a quote, digits, commas and spaces, and a closing quote. |
| `SvgEdit.ResetSkipsSigned` | lib/opentypesvg/dumpsvg.py:30 | A value with `-` or `.` before its closing quote never matches there. |
| `SvgEdit.ResetText` | lib/opentypesvg/dumpsvg.py:37-39 | The rewritten text has the same fields, except that the second one is `0`. |
| `SvgEdit.ResetViewBoxOutcome` | lib/opentypesvg/dumpsvg.py:33-41 | With no match the document is unchanged; the reset fails (`IndexError`) iff the matched text has fewer than two fields. |
| `SvgEdit.ResetMatch` | lib/opentypesvg/dumpsvg.py:37-40 | With at least two fields, every occurrence of the matched text is replaced by the rewritten text. |
| `SvgEdit.ResetIdempotent` | lib/opentypesvg/dumpsvg.py:33-41 | For a viewBox of three or more fields, a reset document is left unchanged by a second reset. |
| `SvgEdit.ResetTextFixed` | dumpSVGtable.py:63-70 | Rewriting a rewritten text changes nothing. |
| `SvgEdit.ResetFirstInResult` | lib/opentypesvg/dumpsvg.py:34-40 | In the reset document, the first match is the rewritten text. |
| `Cleanup.DeclAt` | lib/opentypesvg/addsvg.py:58 | `<?xml .*?>` matches from `<?xml ` to the last `?>` on that line. |
| `Cleanup.DropDeclsAbsent` | lib/opentypesvg/addsvg.py:66 | A document without `<?xml ` loses nothing. |
| `Cleanup.DeclRemoved` | lib/opentypesvg/addsvg.py:66 | A one-line declaration is removed entirely. |
| `Cleanup.Backgrounds` | lib/opentypesvg/addsvg.py:59 | Every text found for removal is an ` enable-background=` attribute. |
| `Cleanup.ReplaceFound` | addSVGtable.py:106-115 | The replace loop over the texts found up front computes `ReplaceEach`. |
| `Cleanup.Gaps` | lib/opentypesvg/addsvg.py:60 | Each text found between elements is `>`, whitespace, `<`. |
| `Cleanup.BetweenStep` | lib/opentypesvg/addsvg.py:73-74 | Replacing one gap text with `><` removes it and creates no new gap. |
| `Cleanup.BetweenClears` | lib/opentypesvg/addsvg.py:73-74 | After the loop over the gaps found, no gap is left. |
| `Cleanup.Runs` | lib/opentypesvg/addsvg.py:61 | Each run found is non-empty whitespace. |
| `Cleanup.WithinClears` | lib/opentypesvg/addsvg.py:77-78 | Replacing whitespace runs with one space creates no gap. |
| `Cleanup.CleanupSvgDoc` | lib/opentypesvg/addsvg.py:64-80 | The method's result is `Cleaned(data)`: declarations removed, then backgrounds, gaps and runs replaced one after another. |
| `Cleanup.CleanedHasNoGap` | lib/opentypesvg/addsvg.py:60 | After cleanup no `>` is followed by whitespace and then `<`. |
| `Cleanup.NoGapBetween` | addSVGtable.py:109-111 | In a gap-free document, the text between any `>` and a later `<` is not all whitespace. |
| `Cleanup.CleanedKeepsContent` | lib/opentypesvg/addsvg.py:64-80 | Cleanup keeps every non-whitespace character in order, except those of the removed declaration and background texts. |
| `Cleanup.NotACollapse` | lib/opentypesvg/addsvg.py:76-78 | The "within" loop is no collapse: `a  b   c` becomes `a b  c`. |
| `FontCopy.BaseName` | lib/opentypesvg/addsvg.py:87 | The file name part holds no `/`. |
| `FontCopy.SplitExt` | lib/opentypesvg/addsvg.py:88 | Stem and extension concatenate back to the file name. |
| `FontCopy.StripCounterNumbered` | lib/opentypesvg/addsvg.py:83-89 | A stem ending in `#<digits>` loses exactly that counter. |
| `FontCopy.StripCounterNone` | lib/opentypesvg/addsvg.py:89 | A stem without `#` is kept. |
| `FontCopy.StripCounterExample` | addSVGtable.py:120-125 | `font#1` becomes `font`. |
| `FontCopy.NumberedDistinct` | lib/opentypesvg/addsvg.py:93-94 | Candidates with different counters differ, and none equals the unnumbered one. |
| `FontCopy.MakeFontCopyPath` | lib/opentypesvg/addsvg.py:86-96 | The loop returns a path that does not exist, and it is the first free path of `stem.ext`, `stem#0.ext`, `stem#1.ext`, …. |
| `FontCopy.FirstFreeUnique` | addSVGtable.py:122-131 | The first free candidate is unique. |
| `AddSvg.GlyphNameOfFile` | lib/opentypesvg/addsvg.py:27-29 | The glyph name of `dir/name.svg` is `name`. |
| `AddSvg.ElementSearchIff` | lib/opentypesvg/addsvg.py:179-180 | The search for `<svg.+?>.+?</svg>` (or the `text` one) succeeds iff an opening tag with content, a `>`, more content and the closing tag occur in order. |
| `AddSvg.ValidateSvgFiles` | lib/opentypesvg/addsvg.py:183-221 | The loop computes `ValidSvgPaths`, and a path that is not a file fails it. |
| `AddSvg.ValidSvgPathsIff` | addSVGtable.py:213-248 | Success iff every non-hidden `.svg` path (any case) is a file. A path is kept iff it is such a file containing an `<svg` element and no `<text` element, in input order. |
| `AddSvg.ProcessFont` | lib/opentypesvg/addsvg.py:99-149 | The font loop yields the count added, and no doc list when nothing was added, else `DocList` of the collected documents. |
| `AddSvg.CollectInvariant` | lib/opentypesvg/addsvg.py:107-141 | The names taken are exactly the file names that are not excluded, are in the font and come first. They hold no duplicates, and their count is the number added. Each document is a singleton record of its glyph's ID. |
| `AddSvg.FirstFileWins` | lib/opentypesvg/addsvg.py:121-126 | For each taken name, the document kept is the one built from its first file. |
| `AddSvg.SortedKeys` | lib/opentypesvg/addsvg.py:149 | `sorted(svgDocsDict.keys())`: strictly ascending, with exactly the dictionary's keys. |
| `AddSvg.DocList` | lib/opentypesvg/addsvg.py:149 | The doc list holds the dictionary's records in sorted key order. |
| `AddSvg.DocListShape` | lib/opentypesvg/addsvg.py:140-149 | The doc list is strictly ascending by glyph ID, each record is `[doc, gid, gid]`, and its IDs are exactly those of the names taken. |
| `AddSvg.DocTextTight` | addSVGtable.py:162-174 | Each stored document, cleaned and stripped, has no whitespace between tags. |
| `Dump.UnnamedDistinct` | lib/opentypesvg/dumpsvg.py:99 | Different counters give different `_unnamedN` names. |
| `Dump.UnnamedNames` | lib/opentypesvg/dumpsvg.py:84-101 | The first `n` made-up names are `_unnamed1` … `_unnamedN`. |
| `Dump.RecordDoc` | lib/opentypesvg/dumpsvg.py:92-93 | Without the reset option each record's document is written as stored. |
| `Dump.RequestedNames` | lib/opentypesvg/dumpsvg.py:62-65 | The names to write are the requested names, or else the glyph order, sorted (a permutation). |
| `Dump.WriteRange` | lib/opentypesvg/dumpsvg.py:95-127 | The `while` loop over `startGID` computes `VisitRange`, given `start <= end + 1`. |
| `Dump.DumpFont` | lib/opentypesvg/dumpsvg.py:44-130 | The method computes `Dumped`: no table, empty table, nothing to process, a failed reset, or the files written. |
| `Dump.RangeNamesKept` | lib/opentypesvg/dumpsvg.py:96-101 | Over a range, the names list only grows by `_unnamed1`, `_unnamed2`, … from one counter. |
| `Dump.RangeFilesKept` | lib/opentypesvg/dumpsvg.py:107-126 | Every file written has a listed name that is not skipped, and it is nested iff the name is in the collision list. |
| `Dump.RangeCounts` | lib/opentypesvg/dumpsvg.py:95-127 | Each gid of the range is visited once: the counter grows by the number of gids past the glyph order, and at most one file is written per gid. |
| `Dump.RangeInOrder` | dumpSVGtable.py:126-172 | Inside the glyph order, a range writes the files of its glyphs in ascending gid order. |
| `Dump.UnnamedCount` | dumpSVGtable.py:121-142 | Over the whole table the counter grows by the number of gids past the glyph order. |
| `Dump.RunNames` | lib/opentypesvg/dumpsvg.py:84-105 | One counter serves the whole table: after all records the names list is the original followed by `_unnamed1` … `_unnamedK`. |
| `Dump.DumpedFiles` | lib/opentypesvg/dumpsvg.py:62-126 | No file is named `.notdef` or an excluded name. Each file name is requested or made up. A file is nested iff its name is in the collision list of the requested names, so a made-up name is nested only if it is also a requested name that collides. |

## Left out

- Calls into fontTools (`TTFont`, glyph sets, `glyph.draw`, `TransformPen`, `newTable`, `save`, table compression, WOFF/WOFF2 output) are not part of this model. The glyph order, the name-to-glyph-ID lookup, the glyph outlines and the `head` fields are inputs.
- File and folder I/O is not part of this model: reading and writing files, creating the output and nested folders, `os.walk`, `realpath` and `copy2`. Files are a map from path to text, "exists" is a set of paths, and written files are returned as a list.
- Option parsing (`argparse`/`getopt`, `get_options`, `Options.__init__`, `parseOptions`, `main`, `run`), exit codes and the fontTools version checks are not part of this model.
- Console warnings and errors are not modelled, apart from the final message and the text of the hex-colour error.
- `PathPen.SVGPen`: coordinates are integers. The float printing of `_isInt` (`1.0` printed as `1`, other floats by `repr`) is not modelled.
- `Generate.HundredthsBounds`: the opacity `%.2f` of `alpha / 255` is computed in integers. `100 * alpha / 255` is never exactly halfway between two hundredths, so the rounding is exact; binary floating-point error is not modelled.
- `Text.Lower`: `lower()` is modelled for ASCII letters only, and `\d` for ASCII digits; Python also lowercases and matches non-ASCII letters and digits.
- `SvgEdit.SetIdValue`: requires (`SvgEdit.IdLiteral`) that the id text found contains no regular-expression metacharacter, because the source reuses it as a pattern.
- `SvgEdit.ResetViewBox`: requires (`SvgEdit.ResetLiteral`) the same of the matched viewBox text. A value of commas only makes the source raise `IndexError`; the model returns `None`, and `Dump.DumpFont` stops with the files written so far.
- `SvgEdit.ResetIdempotent`: proved only for a matched value with three or more fields. With two fields, the source's join drops the closing quote, so a second reset need not find the same text.
- `Dump.WriteRange`: requires `start <= end + 1` (and `Dump.DumpFont` requires it of every record, `Dump.Terminates`), because otherwise the source's `!=` loop never ends.
- `Dump.VisitGid`: for a gid past the glyph order, this function omits the test "name is in the names list". The name has just been appended to that list, so the test always holds; the method `Dump.WriteRange` keeps it.
- `Generate.ProcessFonts`: requires one valid colour per font. `main` establishes this with `Colors.ColorList.FitToFontCount` and `Colors.ValidateHexValues`.
- `AddSvg.ProcessFont`: the stored text is `strip()`ped after `cleanupSVGdoc`. The final "N SVG glyphs were successfully added" message and the font copy (`FontCopy.MakeFontCopyPath` models only the path) are not modelled.
- `Utils.ValidateFontPaths`: the file's first four bytes are given as the text of each entry in the file map. The format test is a parameter (`accepted`), because the package accepts all four formats and the legacy fonts2svg only OTF and TTF.

## Findings

| source | as written | input that shows it | evidently intended | confidence | as-written member | corrected member |
|---|---|---|---|---|---|---|
| lib/opentypesvg/fonts2svg.py:318-323 | The surplus colours are deleted (`del` on line 320) before the warning prints `hex_colors_list[-num_xtr_col:]`, so the warning lists the last colours that were kept. | Colours `aaaaaa,bbbbbb,cccccc` with two fonts: the warning names `bbbbbb`, but `cccccc` was dropped. | The warning lists the dropped colours, as the legacy `run` does by printing before deleting (fonts2svg.py:335-339). | not executed | `Colors.WarnedNamesNoDropped` | `Colors.ColorList.FitToFontCount` |

Behaviour of the code worth knowing when reading the model:
- `stripViewBox` (lib/opentypesvg/addsvg.py:48-55): the lazy `(<svg.+?)` keeps at least one character after `<svg`, so `<svg viewBox="…" x>` becomes `<svg  x>`, with two spaces (`SvgEdit.StripMatch`).
- `viewbox_settings` (lib/opentypesvg/fonts2svg.py:194-213): the adjusted min-y is the negated `yMax` of the `head` table, so for `yMin = -1110` and `yMax = -460` the box is `-904 460 1573 650` (`ViewBox.FittedViewBoxSpans`).
- Final message of the legacy scripts: always plural (`Utils.LegacyFinalMessage`).
- Legacy font-format detection: `dumpSVGtable.py` and `shared_utils.py` recognise WOFF and WOFF2. `fonts2svg.py` and `addSVGtable.py` recognise only OTF and TTF (`Utils.LegacyFontFormatRestricts`).
