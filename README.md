# TWL Theme Editor core, modelled in Dafny

This project models the core of the TWL Theme Editor, a Java editor for TWL
GUI themes, in its two halves.

**Font generator.**
- `FontData` reads a TrueType/OpenType file through its table directory.
- From the tables it takes:
  - the units per em, from `head`;
  - a display name of the form "family" or "family,subfamily", from `name`;
  - the glyph-to-codepoint map and the set of defined codepoints, from a
    format-4 or format-12 `cmap` subtable;
  - the horizontal kerning pairs, from `kern`.
- It turns the kerning pairs into pixel kernings between codepoints of a
  character set.
- `FontDisplay` holds the generator settings. It submits at most one font
  generation job at a time and folds the requests that arrive while a job
  runs into a single follow-up job.
- It also works out the automatic padding of the effects and reuses its
  pixel buffer.
- An `Effect` copies its property values into a fresh instance.
  `ColorConvertProperty` shows an AWT colour property as a TWL colour
  property.

**Theme data model.**
- `AttributeProperty` is a string property stored in one attribute of a
  theme DOM element.
- `CreateChildOperation` inserts a new child element into the parent's
  content, indented one level deeper than the parent.
- `CreateNewImages` and `CreateNewSplit` are two concrete "create a node"
  operations built on it.

Modules:

| module | what it holds |
|---|---|
| `Wrappers` | `Option`, `Result` and `Outcome`. `JavaException` stands for the exceptions the Java code throws. |
| `Bytes` | The big-endian readers `readUShort`, `readShort` and `readInt`. |
| `Sfnt` | The table directory and section lookup. |
| `NameTable` | The `name` reader. |
| `Cmap` | The `cmap` reader. |
| `Kern` | The `kern` reader. |
| `Kernings` | Unit conversion and the kerning expansion. |
| `Ordered` | The ascending walk over the defined codepoints. |
| `FontGen` | The class `FontData`. Its loaders are loops proved against the functions of the modules above. |
| `FontGui` | The class `FontDisplay`, its update protocol and `ByteBuffer`. |
| `Effects` | Effects and their properties. |
| `Dom` | The slice of JDOM that the operations use. |
| `CreateChild` | `CreateChildOperation` and the indentation rules. |
| `Properties` | `AttributeProperty`. |
| `CreateNewImagesOp` | The `CreateNewImages` operation. |
| `CreateNewSplitOp` | The `CreateNewSplit` operation. |

How the Java code is represented:
- An exception becomes an `Err`/`Fail` value carrying the exception. An
  `ArrayIndexOutOfBoundsException` from reading past the end of a table
  becomes `IndexOutOfBounds`.
- A file becomes the sequence of its bytes.
- A `float` becomes a `real`.
- A Java `int` or `short` read from a table is written out with its
  two's-complement range.

## Model

Paths are relative to the repository root.

| member | source | states |
|---|---|---|
| Bytes.ReadUShort | src/de/matthiasmann/twlthemeeditor/fontgen/FontData.java:435-438 | Succeeds exactly when two bytes exist at the offset. The value is their big-endian unsigned word, in 0..65535. |
| Bytes.ReadShort | src/de/matthiasmann/twlthemeeditor/fontgen/FontData.java:440-442 | Fails exactly where the unsigned read fails. The value is the same word read as a signed 16-bit number. |
| Bytes.ReadInt | src/de/matthiasmann/twlthemeeditor/fontgen/FontData.java:444-449 | Succeeds exactly when four bytes exist. The value is a Java `int` congruent, modulo 2^32, to the big-endian 32-bit word. |
| Bytes.ReadIntHalves | src/de/matthiasmann/twlthemeeditor/fontgen/FontData.java:435-449 | A 32-bit read equals, modulo 2^32, the word at the offset times 2^16 plus the word two bytes later. |
| Bytes.SignedByte | src/de/matthiasmann/twlthemeeditor/fontgen/FontData.java:369 | A byte of the directory compares as a Java `byte`: in -128..127 and congruent to the byte modulo 256. |
| Sfnt.ReadDirTable | src/de/matthiasmann/twlthemeeditor/fontgen/FontData.java:352-361 | The directory is the `16 * numTables` bytes from offset 12, with numTables read at offset 4. The read succeeds exactly when the file has the count and either declares no tables or is long enough for them. An empty directory reads even from a file shorter than 12 bytes. Otherwise the read fails with EndOfFile. |
| FontGen.EmptyDirectoryMissesHead | src/de/matthiasmann/twlthemeeditor/fontgen/FontData.java:352-395 | An eight-byte file that declares no tables has an empty directory, and the constructor then fails with "Missing 'head' section". |
| Sfnt.SectionAt | src/de/matthiasmann/twlthemeeditor/fontgen/FontData.java:376-382 | A section of length `length` at `offset` is exactly those bytes of the file. A negative length or offset, or a section running past the end of the file, is an error. |
| Sfnt.TagMatchesFromMeaning | src/de/matthiasmann/twlthemeeditor/fontgen/FontData.java:366-373 | The tag comparison succeeds exactly when the four directory bytes, as signed bytes, equal the four tag characters. |
| Sfnt.LookupFindsFirstEntry | src/de/matthiasmann/twlthemeeditor/fontgen/FontData.java:363-387 | Without a matching entry the lookup yields no section. Otherwise it yields the section of the FIRST matching entry, or that entry's read error. |
| Sfnt.LookupMissing | src/de/matthiasmann/twlthemeeditor/fontgen/FontData.java:363-387 | When no entry from the starting one on carries the tag, the lookup yields no section and no error. |
| Sfnt.LookupFirst | src/de/matthiasmann/twlthemeeditor/fontgen/FontData.java:363-387 | When entry k is the first one carrying the tag, the lookup yields entry k's section, or the error of reading it. |
| Sfnt.ReadSectionOptional | src/de/matthiasmann/twlthemeeditor/fontgen/FontData.java:363-387 | The loop over directory entries and tag bytes computes exactly the first-match lookup. |
| Sfnt.ReadSection | src/de/matthiasmann/twlthemeeditor/fontgen/FontData.java:389-395 | An absent section is the IOException "Missing '<tag>' section". A present section is returned. A lookup error propagates. |
| Sfnt.ReadUpem | src/de/matthiasmann/twlthemeeditor/fontgen/FontData.java:397-399 | Units per em are the unsigned word at offset 18 of `head`. The read fails when `head` is shorter than 20 bytes. |
| JavaText.DecodeUtf16BeExamples | src/de/matthiasmann/twlthemeeditor/fontgen/FontData.java:451-461 | UTF-16BE names decode with malformed input replaced, as Java's decoder does. A surrogate pair is one character. A high surrogate followed by another unit, a truncated pair and the reversed mark U+FFFE are each a single U+FFFD. A lone low surrogate is U+FFFD, and the text after it decodes normally. |
| NameTable.ReadString | src/de/matthiasmann/twlthemeeditor/fontgen/FontData.java:451-461 | A non-positive length gives "". Otherwise the read succeeds exactly when the bytes exist. The bytes are decoded as UTF-16BE when the first is 0 and as Latin-1 otherwise. A Latin-1 string has one character per byte. |
| NameTable.DisplayName | src/de/matthiasmann/twlthemeeditor/fontgen/FontData.java:428-432 | The result is the family alone exactly when the subfamily is empty, "Regular" or "Roman". Otherwise it is "family,subfamily". |
| NameTable.DisplayNameExamples | src/de/matthiasmann/twlthemeeditor/fontgen/FontData.java:428-432 | ("Arial","Bold") gives "Arial,Bold". ("Arial","Regular") gives "Arial". |
| NameTable.ReadName | src/de/matthiasmann/twlthemeeditor/fontgen/FontData.java:401-433 | The record loop computes the display name of the (family, subfamily) pair folded over all name records. |
| NameTable.NamesFromAppend | src/de/matthiasmann/twlthemeeditor/fontgen/FontData.java:408-426 | Reading one more record applies that record to the names gathered so far. An error of either step propagates. |
| NameTable.RecordNameIDs | src/de/matthiasmann/twlthemeeditor/fontgen/FontData.java:412-424 | Only records with name ID 1 or 2 contribute a string. |
| NameTable.RecordFilter | src/de/matthiasmann/twlthemeeditor/fontgen/FontData.java:412-424 | A record contributes a string exactly when its platform is 1 or 3, its encoding 0 or 1, its name ID 1 or 2 and its string reads. The string is then tagged with that name ID. A record whose platform or encoding does not match is skipped without further reads. |
| NameTable.LastRecordWins | src/de/matthiasmann/twlthemeeditor/fontgen/FontData.java:417-424 | The family (ID 1) or subfamily (ID 2) is the text of the LAST accepted record with that ID. |
| Cmap.Register | src/de/matthiasmann/twlthemeeditor/fontgen/FontData.java:212-221 | The codepoint is appended to its glyph's list, which is created when absent. Every other glyph's list is unchanged. |
| Cmap.RegisterAllAt | src/de/matthiasmann/twlthemeeditor/fontgen/FontData.java:212-221 | After a batch of registrations, a glyph's list is its old list followed by the batch's codepoints for it, in order. A glyph is present exactly when it was before or the batch names it. |
| Cmap.GetRegister | src/de/matthiasmann/twlthemeeditor/fontgen/FontData.java:212-221 | One registration appends its codepoint to its own glyph's list. Every other glyph's list is unchanged. |
| Cmap.RegisterAllGet | src/de/matthiasmann/twlthemeeditor/fontgen/FontData.java:212-221 | After a batch, a glyph's list is its old list followed by the batch's codepoints for that glyph, in order. |
| Cmap.RegisterAllKeys | src/de/matthiasmann/twlthemeeditor/fontgen/FontData.java:212-221 | After a batch, a glyph has an entry exactly when it had one before or some registration of the batch names it. |
| Cmap.RegisterAllAppend | src/de/matthiasmann/twlthemeeditor/fontgen/FontData.java:212-221 | Registering `xs + ys` equals registering `xs` and then `ys`. |
| Cmap.CodepointsAppend | src/de/matthiasmann/twlthemeeditor/fontgen/FontData.java:222 | The defined set of `xs + ys` is the union of the two sets. |
| Cmap.CodepointsMembers | src/de/matthiasmann/twlthemeeditor/fontgen/FontData.java:222 | A codepoint becomes defined exactly when some registration names it. |
| Cmap.RegisteredCodepointIsListed | src/de/matthiasmann/twlthemeeditor/fontgen/FontData.java:212-221 | Every registered codepoint ends up in its glyph's list. |
| Cmap.CodepointsForHas | src/de/matthiasmann/twlthemeeditor/fontgen/FontData.java:212-221 | A registration's codepoint is among the batch's codepoints for its glyph. |
| Cmap.ReadSegment | src/de/matthiasmann/twlthemeeditor/fontgen/FontData.java:254-259 | The start and end codes of a segment are 16-bit values. |
| Cmap.SegmentRegsStops | src/de/matthiasmann/twlthemeeditor/fontgen/FontData.java:267-282 | A failed glyph read inside a segment ends the segment's registrations with that error. |
| Cmap.SegmentRegsAdvance | src/de/matthiasmann/twlthemeeditor/fontgen/FontData.java:267-282 | One step of the segment loop registers the codepoint only when its glyph is not 0. The glyph-array position advances 2 bytes only when idRangeOffset is not 0. |
| Cmap.SegmentRegsExact | src/de/matthiasmann/twlthemeeditor/fontgen/FontData.java:262-282 | A segment registers every codepoint of `[startCount, endCount]` except 0xFFFF whose glyph is not 0, with that glyph, and nothing else. The glyph is `(c + idDelta) mod 65536`, or the glyph-array word plus idDelta when that word is not 0. |
| Cmap.DirectSegment | src/de/matthiasmann/twlthemeeditor/fontgen/FontData.java:269-279 | With idRangeOffset 0, codepoint `c` maps to `(c + idDelta) mod 65536` whenever that is not 0. |
| Cmap.Segments4Bounds | src/de/matthiasmann/twlthemeeditor/fontgen/FontData.java:245-284 | Format 4 registers only glyphs in 1..65535 and codepoints in 0..65534. |
| Cmap.SegmentRegsBounds | src/de/matthiasmann/twlthemeeditor/fontgen/FontData.java:267-282 | One segment registers only glyphs in 1..65535 and codepoints in 0..65534. |
| Cmap.Segments4Stops | src/de/matthiasmann/twlthemeeditor/fontgen/FontData.java:253-283 | An error inside a segment ends the whole subtable with that error. |
| Cmap.Segments4Advance | src/de/matthiasmann/twlthemeeditor/fontgen/FontData.java:253-283 | The segment loop appends each segment's registrations in order. |
| Cmap.Format4 | src/de/matthiasmann/twlthemeeditor/fontgen/FontData.java:246-249 | A subtable whose format word is not 4 is the IOException "Unsupported unicode table format: <n>". |
| Cmap.RangeRegs | src/de/matthiasmann/twlthemeeditor/fontgen/FontData.java:299-301 | A group registers `end - start + 1` pairs (none when empty). Its k-th pair is glyph `startGlyph + k` for codepoint `start + k`. |
| Cmap.RangeRegsSnoc | src/de/matthiasmann/twlthemeeditor/fontgen/FontData.java:299-301 | Widening a group by one code adds exactly one registration at the end. |
| Cmap.Groups12Bounds | src/de/matthiasmann/twlthemeeditor/fontgen/FontData.java:294-302 | A successful format-12 read registers only non-negative codepoints. |
| Cmap.Groups12Stops | src/de/matthiasmann/twlthemeeditor/fontgen/FontData.java:299-301 | A non-empty group starting below 0 fails with an index error, because the defined-codepoint bitset refuses a negative index. |
| Cmap.Groups12Advance | src/de/matthiasmann/twlthemeeditor/fontgen/FontData.java:294-302 | The group loop appends each group's range registrations in order. |
| Cmap.Format12 | src/de/matthiasmann/twlthemeeditor/fontgen/FontData.java:287-290 | A subtable whose format word is not 12 is the IOException "Unsupported unicode table format: <n>". |
| Cmap.GroupsRegisterRanges | src/de/matthiasmann/twlthemeeditor/fontgen/FontData.java:294-302 | Every codepoint `i` of every group is registered with glyph `startGlyphID + (i - startCharCode)`. |
| Cmap.GroupsRegisterOnlyRanges | src/de/matthiasmann/twlthemeeditor/fontgen/FontData.java:294-302 | Conversely, every registration comes from the range of some group, with that group's glyph for its codepoint. |
| Cmap.WideGroupsMapRanges | src/de/matthiasmann/twlthemeeditor/fontgen/FontData.java:292-302 | With 32-bit field reads, every codepoint inside a group's 32-bit range is registered with the glyph the group assigns it. |
| Cmap.UpperCaseTableReading | src/de/matthiasmann/twlthemeeditor/fontgen/FontData.java:295-297 | For one group 'A'..'Z' mapped to glyphs 3..28, the 16-bit field reads register only codepoint 0 to glyph 0. The 32-bit reads register the 26 letters. |
| Cmap.UpperCaseTableFields | src/de/matthiasmann/twlthemeeditor/fontgen/FontData.java:287-297 | The example table has format 12 and one group. Its group reads as (0, 0, 0) with 16-bit reads and as (0x41, 0x5A, 3) with 32-bit reads. |
| Cmap.UpperCaseTableNarrow | src/de/matthiasmann/twlthemeeditor/fontgen/FontData.java:294-301 | Read as written, the example table registers only codepoint 0, to glyph 0. |
| Cmap.UpperCaseTableWide | src/de/matthiasmann/twlthemeeditor/fontgen/FontData.java:294-301 | With 32-bit field reads, the example table registers the 26 codepoints 'A'..'Z' to glyphs 3..28, starting with 'A' to glyph 3. |
| Cmap.WideGroupFields | src/de/matthiasmann/twlthemeeditor/fontgen/FontData.java:295-297 | A group read with 32-bit reads holds the three 32-bit words of its 12-byte record. |
| Cmap.NoUnicodeRecordFails | src/de/matthiasmann/twlthemeeditor/fontgen/FontData.java:228-242 | When no encoding record is (3,1) or (3,10), the reader fails with "No unicode mapping table found". |
| Cmap.FirstUnicodeRecordWins | src/de/matthiasmann/twlthemeeditor/fontgen/FontData.java:228-239 | The FIRST (3,1) or (3,10) record decides. (3,1) selects format 4 and (3,10) selects format 12, at the record's 32-bit offset. |
| Cmap.CmapCodepoints | src/de/matthiasmann/twlthemeeditor/fontgen/FontData.java:225-243 | A successful `cmap` read defines only non-negative codepoints. |
| Kern.Pairs0WellFormed | src/de/matthiasmann/twlthemeeditor/fontgen/FontData.java:322-329 | A format-0 subtable yields only non-zero 16-bit adjustments between 16-bit glyph indices. |
| Kern.Pairs0Stops | src/de/matthiasmann/twlthemeeditor/fontgen/FontData.java:323-325 | A failed read of a pair's fields ends the pair loop with that read's error. |
| Kern.Pairs0Advance | src/de/matthiasmann/twlthemeeditor/fontgen/FontData.java:322-329 | One pair step stores the pair only when kpx is not 0, and moves 6 bytes on. |
| Kern.SubtableEvents | src/de/matthiasmann/twlthemeeditor/fontgen/FontData.java:315-336 | A subtable that is not horizontal contributes nothing. A horizontal subtable whose format is not 0 contributes one warning carrying the format and the table version. |
| Kern.SubtablesStops | src/de/matthiasmann/twlthemeeditor/fontgen/FontData.java:311-340 | An error inside a subtable ends the walk with that error. |
| Kern.SubtablesAdvance | src/de/matthiasmann/twlthemeeditor/fontgen/FontData.java:311-340 | The walk appends each subtable's events. The next subtable starts `length` bytes after the current one. |
| Kern.EventsWellFormed | src/de/matthiasmann/twlthemeeditor/fontgen/FontData.java:305-341 | Every event is a non-zero pair between 16-bit glyphs, or a warning for a horizontal subtable of format 1..255. |
| Kern.AddKerning | src/de/matthiasmann/twlthemeeditor/fontgen/FontData.java:343-350 | The (from, to) adjustment is set, and from's row is created when absent. Every other row is unchanged. |
| Kern.Warnings | src/de/matthiasmann/twlthemeeditor/fontgen/FontData.java:332-335 | The warnings are events of the table that report unsupported formats. |
| Kern.ApplyKernSnoc | src/de/matthiasmann/twlthemeeditor/fontgen/FontData.java:326-328 | One more event adds its pair, or leaves the table as it is for a warning. |
| Kern.ApplyKernAppend | src/de/matthiasmann/twlthemeeditor/fontgen/FontData.java:311-340 | Applying `xs + ys` equals applying `xs` and then `ys`. |
| Kern.WarningsOfPairs | src/de/matthiasmann/twlthemeeditor/fontgen/FontData.java:318-330 | Format-0 pairs log no warning. |
| Kern.WarningsAppend | src/de/matthiasmann/twlthemeeditor/fontgen/FontData.java:311-340 | The warnings of `xs + ys` are those of `xs` followed by those of `ys`. |
| Kern.LastPairWins | src/de/matthiasmann/twlthemeeditor/fontgen/FontData.java:343-350 | After a batch, (from, to) holds the kpx of the batch's LAST pair for it, or its earlier value when the batch has none. |
| Kern.NoZeroStored | src/de/matthiasmann/twlthemeeditor/fontgen/FontData.java:326-328 | A table without zero adjustments keeps that property under events with non-zero kpx. |
| Kernings.Round | src/de/matthiasmann/twlthemeeditor/fontgen/FontData.java:209 | `Math.round` always gives a value in the Java `int` range. |
| Kernings.RoundNearest | src/de/matthiasmann/twlthemeeditor/fontgen/FontData.java:209 | Inside the `int` range, `Math.round(x)` lies in `(x - 1/2, x + 1/2]`. |
| Kernings.ConvertUnitToEm | src/de/matthiasmann/twlthemeeditor/fontgen/FontData.java:208-210 | The pixel value is always an `int`. |
| Kernings.ConvertNearest | src/de/matthiasmann/twlthemeeditor/fontgen/FontData.java:208-210 | With units per em set, the result is the nearest integer to `units * size / upem`. |
| Kernings.ConvertWithoutUpem | src/de/matthiasmann/twlthemeeditor/fontgen/FontData.java:208-210 | With units per em 0, the result is 0 for a zero product. Otherwise it is the `int` bound of the product's sign. |
| Kernings.ConvertExample | src/de/matthiasmann/twlthemeeditor/fontgen/FontData.java:208-210 | 100 units at 10 points and 1000 units per em give 1 pixel. |
| Kernings.RowForMembers | src/de/matthiasmann/twlthemeeditor/fontgen/FontData.java:114-118 | The inner loop yields exactly the triples (lc, rc, value) with rc a right codepoint in the character set. |
| Kernings.ExpandMembers | src/de/matthiasmann/twlthemeeditor/fontgen/FontData.java:111-121 | The expansion yields exactly the triples whose left and right codepoints both come from the lists and lie in the character set. |
| Kernings.ExpandLeftMajor | src/de/matthiasmann/twlthemeeditor/fontgen/FontData.java:112-120 | The expansion is ordered by left codepoint: splitting the left list splits the result. |
| Kernings.PairsOfSnoc | src/de/matthiasmann/twlthemeeditor/fontgen/FontData.java:89-97 | One more right glyph adds its expansion exactly when it is included and its converted value is not 0. |
| Kernings.LeftsOfSnoc | src/de/matthiasmann/twlthemeeditor/fontgen/FontData.java:86-99 | One more left glyph adds its row exactly when it is included. |
| Kernings.PairsOfMembers | src/de/matthiasmann/twlthemeeditor/fontgen/FontData.java:89-97 | A row's triples are exactly those produced by its kerning pairs. |
| Kernings.LeftsOfMembers | src/de/matthiasmann/twlthemeeditor/fontgen/FontData.java:86-99 | The triples of a list of left glyphs are exactly those produced by their pairs. |
| Kernings.KerningsExact | src/de/matthiasmann/twlthemeeditor/fontgen/FontData.java:84-101 | `getKernings` yields a triple exactly when some pair produces it: both glyphs are mapped and included, the converted value is not 0, and both codepoints are in the set and belong to the glyphs. |
| Kernings.KerningsNonZero | src/de/matthiasmann/twlthemeeditor/fontgen/FontData.java:84-101 | Every kerning has a non-zero value between two codepoints of the character set. |
| Ordered.SortedKeysSound | src/de/matthiasmann/twlthemeeditor/fontgen/FontData.java:86 | The iteration order used for the glyph maps lists every key exactly once, strictly ascending. |
| Ordered.SortedKeysAscending | src/de/matthiasmann/twlthemeeditor/fontgen/FontData.java:86 | The iteration order of the glyph maps is strictly ascending. |
| Ordered.NextAbove | src/de/matthiasmann/twlthemeeditor/fontgen/FontData.java:124 | For `c >= -1`, the next set bit above `c` is the least member greater than `c`, or -1 exactly when there is none. |
| Ordered.NextSetBitAfter | src/de/matthiasmann/twlthemeeditor/fontgen/FontData.java:124 | `nextSetBit(c + 1)` on a Java `int` `c` throws `IndexOutOfBoundsException` exactly when `c < -1` or `c` is the largest `int`, where `c + 1` wraps to a negative index. Otherwise it gives `NextAbove`. |
| Ordered.WalkAscends | src/de/matthiasmann/twlthemeeditor/fontgen/FontData.java:123-136 | When no member is the largest `int`, stepping with the next set bit from `c` visits the members above `c` in ascending order and ends without an exception. |
| Ordered.WalkReachesIntMax | src/de/matthiasmann/twlthemeeditor/fontgen/FontData.java:123-136 | When the largest `int` is a member, the walk from any `c` below it ends in `IndexOutOfBoundsException`. |
| Ordered.WalkFromStart | src/de/matthiasmann/twlthemeeditor/fontgen/FontData.java:129-135 | From -1 the walk visits every defined codepoint, ascending, when all lie in 0 up to (not including) the largest `int`. |
| FontGen.IndexOf | src/de/matthiasmann/twlthemeeditor/fontgen/FontData.java:172 | `indexOf` gives the first position of the character, or -1 exactly when it is absent. |
| FontGen.StyleOf | src/de/matthiasmann/twlthemeeditor/fontgen/FontData.java:171-181 | Without a comma the style is plain. Otherwise it is bold exactly when the text after the first comma contains "Bold", and italic exactly when it contains "Italic". |
| FontGen.StyleOfDisplayName | src/de/matthiasmann/twlthemeeditor/fontgen/FontData.java:171-181 | For a name read from the font, the style is decided by the subfamily alone. |
| FontGen.ParsedWellFormed | src/de/matthiasmann/twlthemeeditor/fontgen/FontData.java:139-187 | A loaded font has units per em below 65536, only non-negative defined codepoints and no zero kerning adjustment. |
| FontGen.PairsNonZero | src/de/matthiasmann/twlthemeeditor/fontgen/FontData.java:159-161 | A missing `kern` table gives no pairs. The pairs of a present one are non-zero. |
| FontGen.FontData.Empty | src/de/matthiasmann/twlthemeeditor/fontgen/FontData.java:139-144 | A new font data starts with empty maps, no defined codepoints, no name and units per em 0. |
| FontGen.FontData.Derive | src/de/matthiasmann/twlthemeeditor/fontgen/FontData.java:189-198 | A derived font shares every table of the source. Only its size and its Java font's style and size are new. |
| FontGen.FontData.DeriveFont | src/de/matthiasmann/twlthemeeditor/fontgen/FontData.java:200-202 | A fresh font data with the same tables and style at the new size. |
| FontGen.FontData.DeriveFontStyle | src/de/matthiasmann/twlthemeeditor/fontgen/FontData.java:204-206 | A fresh font data with the same tables, at the new size and style. |
| FontGen.FontData.GetNextCodepoint | src/de/matthiasmann/twlthemeeditor/fontgen/FontData.java:123-125 | `IndexOutOfBoundsException` exactly when `c < -1` or `c` is the largest `int`. Otherwise the result is the least defined codepoint above `c`, or -1 exactly when there is none. |
| FontGen.FontData.AddGlyphCodePoint | src/de/matthiasmann/twlthemeeditor/fontgen/FontData.java:212-223 | The codepoint is appended to the glyph's list and marked defined. A negative codepoint fails at the bitset after the list was updated. Every other table is unchanged. |
| FontGen.FontData.ExtendsChain | src/de/matthiasmann/twlthemeeditor/fontgen/FontData.java:212-221 | Two batches of registrations applied one after the other act as their concatenation applied at once. The other tables stay as they were. |
| FontGen.FontData.RegisterNext | src/de/matthiasmann/twlthemeeditor/fontgen/FontData.java:280 | One `addGlyphCodePoint` call with a codepoint of at least 0 extends the batch applied so far by that registration. |
| FontGen.FontData.RegisterCodepoint | src/de/matthiasmann/twlthemeeditor/fontgen/FontData.java:268-281 | One codepoint of the format-4 loop fails exactly when its glyph lookup fails. Otherwise it registers the pair when the glyph is not 0, and what remains is the rest of the segment. |
| FontGen.FontData.GlyphIndex | src/de/matthiasmann/twlthemeeditor/fontgen/FontData.java:268-277 | With idRangeOffset 0 the glyph is `(codepoint + idDelta) mod 65536`. Otherwise it is the glyph-array word at the current position: a word of 0 stays 0, any other word becomes `(word + idDelta) mod 65536`, and a read past the subtable fails with that read's error. Every glyph is in 0..65535. |
| FontGen.FontData.RegisterSegment | src/de/matthiasmann/twlthemeeditor/fontgen/FontData.java:262-282 | The inner loop performs exactly the segment's registrations, or fails with the segment's error. The other tables are unchanged. |
| FontGen.FontData.RegisterSegments | src/de/matthiasmann/twlthemeeditor/fontgen/FontData.java:253-283 | The segment loop performs exactly the format-4 registrations in order, or fails with their error. |
| FontGen.FontData.ReadCmapUsc2 | src/de/matthiasmann/twlthemeeditor/fontgen/FontData.java:245-284 | Reading a format-4 subtable registers exactly its mappings, or fails as the subtable's decoding fails. |
| FontGen.FontData.RegisterGroup | src/de/matthiasmann/twlthemeeditor/fontgen/FontData.java:299-301 | A group registers its whole range in order. A non-empty group starting below 0 fails with an index error. |
| FontGen.FontData.RegisterGroups | src/de/matthiasmann/twlthemeeditor/fontgen/FontData.java:294-302 | The group loop performs exactly the format-12 registrations, or fails as their decoding fails. With `wide` false the group fields are read as Java reads them, with `wide` true as 32-bit values. |
| FontGen.FontData.ReadCmapUsc4 | src/de/matthiasmann/twlthemeeditor/fontgen/FontData.java:286-303 | Reading a format-12 subtable registers exactly its group ranges under the chosen reading of the group fields, or fails as its decoding fails. |
| FontGen.FontData.ReadCmap | src/de/matthiasmann/twlthemeeditor/fontgen/FontData.java:225-243 | The `cmap` reader registers exactly the mappings of the first Unicode subtable, or fails with the decoding error. Only the glyph map and the defined set change. `wide` false is the reader as written. |
| FontGen.FontData.AddKerning | src/de/matthiasmann/twlthemeeditor/fontgen/FontData.java:343-350 | Only the kerning table changes: (from, to) is set to kpx. |
| FontGen.FontData.ReadPairs | src/de/matthiasmann/twlthemeeditor/fontgen/FontData.java:319-329 | The pair loop stores exactly the format-0 pairs, or fails with the read error. Only the kerning table changes. |
| FontGen.FontData.ReadSubtables | src/de/matthiasmann/twlthemeeditor/fontgen/FontData.java:310-340 | The subtable walk stores all pairs and appends all warnings of the table, in order. |
| FontGen.FontData.ReadSubtable | src/de/matthiasmann/twlthemeeditor/fontgen/FontData.java:313-337 | A horizontal format-0 subtable stores its non-zero pairs. A horizontal subtable of another format appends one warning. Any other subtable changes nothing. A failed read fails with its error. |
| FontGen.FontData.ReadKern | src/de/matthiasmann/twlthemeeditor/fontgen/FontData.java:305-341 | Reading `kern` applies exactly its events to the kerning table and logs exactly its warnings. Nothing else changes. |
| FontGen.FontData.ExpandKerning | src/de/matthiasmann/twlthemeeditor/fontgen/FontData.java:111-121 | The nested loops append exactly the expansion of the two codepoint lists to the list. |
| FontGen.FontData.ExpandKerningGlyphs | src/de/matthiasmann/twlthemeeditor/fontgen/FontData.java:103-109 | When both glyphs are mapped, their codepoint lists are expanded. Otherwise the list is unchanged. |
| FontGen.FontData.RowKernings | src/de/matthiasmann/twlthemeeditor/fontgen/FontData.java:87-98 | The inner loop over one left glyph's row yields exactly that row's triples. |
| FontGen.FontData.GetKernings | src/de/matthiasmann/twlthemeeditor/fontgen/FontData.java:84-101 | The result is exactly the specified kerning list. The lemmas above characterise that list. |
| FontGen.FontData.ReadSections | src/de/matthiasmann/twlthemeeditor/fontgen/FontData.java:149-153 | The four lookups of the constructor, in order, with the first exception winning. |
| FontGen.FontData.ReadTables | src/de/matthiasmann/twlthemeeditor/fontgen/FontData.java:155-161 | The tables are decoded in the constructor's order: units per em, name, cmap, then kern when present. |
| FontGen.FontData.Load | src/de/matthiasmann/twlthemeeditor/fontgen/FontData.java:139-187 | The constructor succeeds exactly when the file parses and the Java font is created. Its tables are then the parsed ones and its style follows the display name. A font-format failure is "Failed to read font". |
| FontGui.AutoPaddingCovers | src/de/matthiasmann/twlthemeeditor/fontgen/gui/FontDisplay.java:142-150 | The automatic padding is at least ZERO and at least every padding an effect requests. |
| FontGui.AutoPaddingLeast | src/de/matthiasmann/twlthemeeditor/fontgen/gui/FontDisplay.java:142-150 | The automatic padding is the least such padding. |
| FontGui.Renderers | src/de/matthiasmann/twlthemeeditor/fontgen/gui/FontDisplay.java:115-122 | There is one renderer per effect. |
| FontGui.RenderersAt | src/de/matthiasmann/twlthemeeditor/fontgen/gui/FontDisplay.java:115-122 | The i-th renderer is the i-th effect's renderer. |
| FontGui.UpdateKeepsInv | src/de/matthiasmann/twlthemeeditor/fontgen/gui/FontDisplay.java:128-139 | `update` keeps at most one job in flight, and remembers a request only while one runs. |
| FontGui.DoneKeepsInv | src/de/matthiasmann/twlthemeeditor/fontgen/gui/FontDisplay.java:217-224 | `updateDone` keeps that invariant. |
| FontGui.UpdatesWhileRunning | src/de/matthiasmann/twlthemeeditor/fontgen/gui/FontDisplay.java:132-133 | While a job runs, any number of requests submit nothing and leave one remembered request. |
| FontGui.Coalesce | src/de/matthiasmann/twlthemeeditor/fontgen/gui/FontDisplay.java:217-224 | n > 0 requests during a job lead, when it ends, to exactly one new job with the current settings. |
| FontGui.UpdateWhenIdle | src/de/matthiasmann/twlthemeeditor/fontgen/gui/FontDisplay.java:134-137 | With ready settings and no job running, a request submits one job and marks it running. |
| FontGui.NotReadySubmitsNothing | src/de/matthiasmann/twlthemeeditor/fontgen/gui/FontDisplay.java:129-131 | Incomplete settings or no GUI make a request do nothing. |
| FontGui.ByteBuffer.SetLimit | src/de/matthiasmann/twlthemeeditor/fontgen/gui/FontDisplay.java:191 | A limit outside 0..capacity is refused with IllegalArgument and changes nothing. Otherwise the limit is set and the position is clamped to it. |
| FontGui.FontDisplay.constructor | src/de/matthiasmann/twlthemeeditor/fontgen/gui/FontDisplay.java:73-76 | A new display starts with Java's field defaults. It has no GUI, texture size 0, and no font data, padding, character set, effects, generator method or buffer. No update is pending or running, no job has been submitted and the callback has not run, so the update invariant holds. |
| FontGui.FontDisplay.ComputePadding | src/de/matthiasmann/twlthemeeditor/fontgen/gui/FontDisplay.java:141-155 | The padding is the automatic padding of the renderers when automatic, else the manual padding. |
| FontGui.FontDisplay.Update | src/de/matthiasmann/twlthemeeditor/fontgen/gui/FontDisplay.java:128-139 | The flags and the job list move as the update protocol says. The settings are unchanged. |
| FontGui.FontDisplay.UpdateDone | src/de/matthiasmann/twlthemeeditor/fontgen/gui/FontDisplay.java:217-224 | Ending a job serves a remembered request by one update and always runs the callback. |
| FontGui.FontDisplay.SetTextureSize | src/de/matthiasmann/twlthemeeditor/fontgen/gui/FontDisplay.java:78-81 | Only the texture size changes, then an update follows. |
| FontGui.FontDisplay.SetFontData | src/de/matthiasmann/twlthemeeditor/fontgen/gui/FontDisplay.java:83-86 | Only the font data changes, then an update follows. |
| FontGui.FontDisplay.SetPaddingManual | src/de/matthiasmann/twlthemeeditor/fontgen/gui/FontDisplay.java:88-92 | A manual padding is set and automatic padding is switched off, then an update follows. |
| FontGui.FontDisplay.SetPaddingAutomatic | src/de/matthiasmann/twlthemeeditor/fontgen/gui/FontDisplay.java:94-98 | The manual padding is cleared and automatic padding is switched on, then an update follows. |
| FontGui.FontDisplay.SetUseAA | src/de/matthiasmann/twlthemeeditor/fontgen/gui/FontDisplay.java:100-103 | Only the anti-aliasing flag changes, then an update follows. |
| FontGui.FontDisplay.SetGeneratorMethod | src/de/matthiasmann/twlthemeeditor/fontgen/gui/FontDisplay.java:105-108 | Only the generator method changes, then an update follows. |
| FontGui.FontDisplay.SetCharSet | src/de/matthiasmann/twlthemeeditor/fontgen/gui/FontDisplay.java:110-113 | Only the character set changes, then an update follows. |
| FontGui.FontDisplay.SetEffects | src/de/matthiasmann/twlthemeeditor/fontgen/gui/FontDisplay.java:115-122 | The renderers become one per effect, in order, then an update follows. |
| FontGui.FontDisplay.GetBuffer | src/de/matthiasmann/twlthemeeditor/fontgen/gui/FontDisplay.java:187-193 | The buffer is reused when its capacity suffices, else a fresh one of exactly `size` is allocated. It is cleared and limited to `size`. A negative size is an IllegalArgument. |
| Effects.ToByte | src/de/matthiasmann/twlthemeeditor/fontgen/Effect.java:77-88 | The `(byte)` cast of a channel keeps its value modulo 256. |
| Effects.Unsigned | src/de/matthiasmann/twlthemeeditor/fontgen/Effect.java:89-99 | `b & 255` keeps the byte's value modulo 256. |
| Effects.UnsignedToByte | src/de/matthiasmann/twlthemeeditor/fontgen/Effect.java:77-99 | Masking a cast channel gives the channel back. |
| Effects.ToByteUnsigned | src/de/matthiasmann/twlthemeeditor/fontgen/Effect.java:77-99 | Casting a masked byte gives the byte back. |
| Effects.NarrowWiden | src/de/matthiasmann/twlthemeeditor/fontgen/Effect.java:77-99 | A TWL colour that is set reads back unchanged. |
| Effects.WidenNarrow | src/de/matthiasmann/twlthemeeditor/fontgen/Effect.java:77-99 | Writing back a colour that was read leaves the AWT colour unchanged. |
| Effects.ColorConvertProperty.constructor | src/de/matthiasmann/twlthemeeditor/fontgen/Effect.java:65-67 | The colour view wraps exactly the given base property. |
| Effects.ColorConvertProperty.GetPropertyValue | src/de/matthiasmann/twlthemeeditor/fontgen/Effect.java:77-88 | The value is null exactly when the base value is null. Otherwise it is the base colour with each channel cast to a byte. |
| Effects.ColorConvertProperty.SetPropertyValue | src/de/matthiasmann/twlthemeeditor/fontgen/Effect.java:89-99 | Null is passed on. A colour is passed on with its channels masked to 0..255. Reading back gives the value set. |
| Effects.ColorConvertProperty.AddValueChangedCallback | src/de/matthiasmann/twlthemeeditor/fontgen/Effect.java:103-105 | The callback is registered on the base property. |
| Effects.ColorConvertProperty.RemoveValueChangedCallback | src/de/matthiasmann/twlthemeeditor/fontgen/Effect.java:106-108 | The callback is removed from the base property. |
| Effects.ForwardsBase | src/de/matthiasmann/twlthemeeditor/fontgen/Effect.java:68-76 | Name, read-only flag and can-be-null flag are the base property's. |
| Effects.CopyThrough | src/de/matthiasmann/twlthemeeditor/fontgen/Effect.java:77-99 | A get followed by a set of the same value leaves the base property as it was. |
| Effects.Effect.MakeCopy | src/de/matthiasmann/twlthemeeditor/fontgen/Effect.java:51-60 | A fresh effect whose i-th property has the name, read-only flag and can-be-null flag of this effect's i-th property and holds its value. This effect's values are unchanged. |
| Effects.Effect.PrePageRender | src/de/matthiasmann/twlthemeeditor/fontgen/Effect.java:42 | The default hook draws nothing. |
| Effects.Effect.PreGlyphRender | src/de/matthiasmann/twlthemeeditor/fontgen/Effect.java:43 | The default hook draws nothing. |
| Effects.Effect.PostGlyphRender | src/de/matthiasmann/twlthemeeditor/fontgen/Effect.java:44 | The default hook draws nothing. |
| Effects.Effect.PostPageRender | src/de/matthiasmann/twlthemeeditor/fontgen/Effect.java:45 | The default hook draws nothing. |
| CreateChild.LastIndexOf | src/de/matthiasmann/twlthemeeditor/datamodel/operations/CreateChildOperation.java:63 | `lastIndexOf` gives the last position holding the character, or -1 when there is none. |
| CreateChild.IndentAfterColumn | src/de/matthiasmann/twlthemeeditor/datamodel/operations/CreateChildOperation.java:61-64 | The indentation taken from a text node is the column where it ends plus 4. |
| CreateChild.ColumnIsTrailingRun | src/de/matthiasmann/twlthemeeditor/datamodel/operations/CreateChildOperation.java:63 | That column counts exactly the trailing characters after the last line break. |
| CreateChild.IndexFromSound | src/de/matthiasmann/twlthemeeditor/datamodel/operations/CreateChildOperation.java:57-60 | The search finds the first occurrence of the element, and fails only when there is none. |
| CreateChild.IndentationInCases | src/de/matthiasmann/twlthemeeditor/datamodel/operations/CreateChildOperation.java:53-71 | At the element's first occurrence after the first entry, the base indentation is the column of the preceding text plus 4, or 0 when the entry before is not text. |
| CreateChild.IndentationInAbsent | src/de/matthiasmann/twlthemeeditor/datamodel/operations/CreateChildOperation.java:53-71 | Without an occurrence after the first entry the indentation is 0. |
| CreateChild.BaseIndentationNonNegative | src/de/matthiasmann/twlthemeeditor/datamodel/operations/CreateChildOperation.java:53-71 | The base indentation is never negative. |
| CreateChild.CreateIndentation | src/de/matthiasmann/twlthemeeditor/datamodel/operations/CreateChildOperation.java:73-78 | The indentation text is a line break followed by exactly n spaces. |
| CreateChild.WithChild | src/de/matthiasmann/twlthemeeditor/datamodel/operations/CreateChildOperation.java:82-88 | Exactly two entries, the indentation text and then the child, are inserted at the insertion point. Removing them gives the old content back. |
| CreateChild.WithChildKeepsTrailingText | src/de/matthiasmann/twlthemeeditor/datamodel/operations/CreateChildOperation.java:83-86 | The parent's trailing text node stays last. |
| CreateChild.WithChildAppends | src/de/matthiasmann/twlthemeeditor/datamodel/operations/CreateChildOperation.java:82-88 | Without a trailing text node the two entries are appended. |
| CreateChild.CreateChildOperation.constructor | src/de/matthiasmann/twlthemeeditor/datamodel/operations/CreateChildOperation.java:48-51 | The operation keeps its action ID and the parent node's DOM element as its target, and has not refreshed the tree yet. |
| CreateChild.CreateChildOperation.GetBaseIndentation | src/de/matthiasmann/twlthemeeditor/datamodel/operations/CreateChildOperation.java:53-71 | The search loop computes exactly the base indentation. |
| CreateChild.CreateChildOperation.AddChild | src/de/matthiasmann/twlthemeeditor/datamodel/operations/CreateChildOperation.java:80-91 | The parent's content gains the indentation and the child at the insertion point. The child's parent is the target. The tree node is refreshed once. |
| CreateChild.CreateChildOperation.AddIndentation | src/de/matthiasmann/twlthemeeditor/datamodel/operations/CreateChildOperation.java:93-107 | An element without content is left as it is. |
| Properties.AssignReadBack | src/de/matthiasmann/twlthemeeditor/properties/AttributeProperty.java:82-95 | After setting, the attribute is present exactly for a non-null value, and holds it. |
| Properties.AssignFrames | src/de/matthiasmann/twlthemeeditor/properties/AttributeProperty.java:82-95 | Every other attribute is untouched. |
| Properties.AssignCurrent | src/de/matthiasmann/twlthemeeditor/properties/AttributeProperty.java:86-87 | Assigning the current value changes nothing. |
| Properties.AssignIdempotent | src/de/matthiasmann/twlthemeeditor/properties/AttributeProperty.java:82-95 | Assigning twice equals assigning once. |
| Properties.Capitalize | src/de/matthiasmann/twlthemeeditor/properties/AttributeProperty.java:49 | The first character is upper-cased and the rest is kept. |
| Properties.AttributeProperty.constructor | src/de/matthiasmann/twlthemeeditor/properties/AttributeProperty.java:48-50 | The two-argument form names the property after its capitalised attribute and refuses null. |
| Properties.AttributeProperty.Named | src/de/matthiasmann/twlthemeeditor/properties/AttributeProperty.java:52-60 | The full form takes name and null acceptance as given. |
| Properties.AttributeProperty.IsReadOnly | src/de/matthiasmann/twlthemeeditor/properties/AttributeProperty.java:66-68 | The property is never read-only. |
| Properties.AttributeProperty.GetValue | src/de/matthiasmann/twlthemeeditor/properties/AttributeProperty.java:78-80 | The value is the attribute's value, or null exactly when the attribute is absent. |
| Properties.AttributeProperty.SetValue | src/de/matthiasmann/twlthemeeditor/properties/AttributeProperty.java:82-95 | Null on a property that refuses null is a NullPointerException and changes nothing. Otherwise the value reads back, and the callbacks fire exactly when the value changed. |
| Properties.AttributeProperty.GetPropertyValue | src/de/matthiasmann/twlthemeeditor/properties/AttributeProperty.java:97-99 | Same as `getValue`. |
| Properties.AttributeProperty.SetPropertyValue | src/de/matthiasmann/twlthemeeditor/properties/AttributeProperty.java:101-103 | Same as `setValue`. |
| Properties.SetTwice | src/de/matthiasmann/twlthemeeditor/properties/AttributeProperty.java:82-95 | Setting is idempotent: a second equal set gives the same outcome, changes nothing and fires nothing. |
| CreateNewImagesOp.FileOf | src/de/matthiasmann/twlthemeeditor/datamodel/operations/CreateNewImages.java:56-65 | Not exactly one argument is "Wrong number of arguments". A non-string, non-null argument is "PNG file not specified". Null means no file. |
| CreateNewImagesOp.CreateNewImages.constructor | src/de/matthiasmann/twlthemeeditor/datamodel/operations/CreateNewImages.java:43-45 | The action ID is "opNewNodeImages". |
| CreateNewImagesOp.CreateNewImages.GetParameter | src/de/matthiasmann/twlthemeeditor/datamodel/operations/CreateNewImages.java:47-52 | One parameter: a "PNG file" with extension ".png". |
| CreateNewImagesOp.CreateNewImages.ExecuteAt | src/de/matthiasmann/twlthemeeditor/datamodel/operations/CreateNewImages.java:54-72 | A fresh empty "images" element is created, with a `file` attribute exactly when a file was given, and is added at `pos`. Argument errors add nothing. |
| CreateNewSplitOp.ActionID | src/de/matthiasmann/twlthemeeditor/datamodel/operations/CreateNewSplit.java:47 | "opNewNode" followed by the tag name with its first letter upper-cased. An empty tag name is an index error. |
| CreateNewSplitOp.SplitAttributes | src/de/matthiasmann/twlthemeeditor/datamodel/operations/CreateNewSplit.java:55-66 | Exactly the attributes `name="new<time>"`, x=y=0 and width=height=1. `splitx`/`splity` are "0,0" only when requested. |
| CreateNewSplitOp.CreateNewSplit.constructor | src/de/matthiasmann/twlthemeeditor/datamodel/operations/CreateNewSplit.java:46-51 | The operation carries the derived action ID, the tag name and the split flags. |
| CreateNewSplitOp.CreateNewSplit.NewSplitElement | src/de/matthiasmann/twlthemeeditor/datamodel/operations/CreateNewSplit.java:55-66 | A fresh parentless element named after the tag, holding exactly the split attributes. |
| CreateNewSplitOp.CreateNewSplit.Execute | src/de/matthiasmann/twlthemeeditor/datamodel/operations/CreateNewSplit.java:53-68 | A fresh element named after the tag, holding exactly the split attributes, is added below the target as `addChild` adds a child. The content gains the indentation and the element, and the element's parent is the target. The target's attributes and parent stay as they were, and the tree is refreshed once. |

## Left out

**Not modelled.**
- `getDefinedBlocks`: it needs Java's Unicode block table. `Ordered.WalkFromStart` and `Ordered.WalkReachesIntMax` state the codepoint walk it performs.
- `AttributeProperty.addCallback` and `removeCallback` (AttributeProperty.java:105-111): they register and unregister a listener in `AbstractProperty`'s callback list, which is not modelled.
- The two `getType` methods (AttributeProperty.java:74-76 and Effect.java:100-102): they return a Java `Class` object, which has no counterpart in the model.
- Trivial getters of `FontData`: `getName`, `getFamilyName`, `getSize`, `getJavaFont`, `getFontFile` and `getRawKerning`. Of `FontDisplay`: `getLastFontGen`. They return a field. Of `AttributeProperty`, `getName` and `canBeNull` (AttributeProperty.java:62-64 and 70-72) are modelled as `Properties.AttributeProperty.GetName` and `Properties.AttributeProperty.CanBeNull` without a contract of their own; they return a field. Of `Effect.ColorConvertProperty`, `getName`, `isReadOnly` and `canBeNull` (Effect.java:68-76) are modelled as `Effects.ColorConvertProperty.GetName`, `IsReadOnly` and `CanBeNull`, and `Effects.ForwardsBase` states that they forward to the base property.
- The font generation job `GenFont` is left out, together with `updateImage`, `destroy`, `destroyImage`, `paintWidget` and the preferred sizes. They run on other threads or draw through the GUI renderer.
- Job submission is recorded as a list of jobs (`submitted`) instead of running on an executor. Concurrency between the job and the GUI thread is not modelled.

**The file and the Java font.**
- The file is the sequence of its bytes, so `RandomAccessFile` and its I/O errors are not modelled.
- `Font.createFont` is a parameter that either creates the font or reports one of its two exceptions.
- The console and logger output of `FontData` are not modelled. The kerning warnings are recorded as a list (`warnings`) instead.

**Arithmetic.**
- `float` arithmetic is exact `real` arithmetic, so `convertUnitToEm` ignores rounding of the float product and quotient.
- Offsets are unbounded integers. A Java `int` offset that wraps around would give a negative index, and the model fails on those as well.
- Strings are sequences of Unicode scalar values, whereas a Java `String` is a sequence of UTF-16 units. A character outside the Basic Multilingual Plane counts 2 in `String.length()` and 1 here. So `CreateChild.IndentAfter` and `CreateChild.IndentAfterColumn` (src/de/matthiasmann/twlthemeeditor/datamodel/operations/CreateChildOperation.java:61-64) count such a character once where Java counts it twice. Lone surrogates cannot occur in a string of the model.
- The iteration order of `IntMap` is not given by the source. The model walks keys in ascending order, which fixes the order of `getKernings`' result.

**Collaborators whose source is not part of this model.**
- `CharSet` is a pair of arbitrary inclusion predicates, for a single codepoint and for a codepoint list.
- `Padding.max` is taken to be the side-by-side maximum.
- `Effect.Renderer` creation is a function parameter of `SetEffects`.
- `Utils.capitalize` is taken to upper-case the first character.
- The callback list of `Property` (the base of `Effect`'s properties) is a sequence of identifiers. For `AttributeProperty`, only the firing of `AbstractProperty`'s callbacks is modelled, as the counter `fired`; its callback list is not.
- `createNew` takes the initial property values of the new instance as a parameter.
- `ThemeTreeNode.addChildren` is a refresh counter.
- JDOM is reduced to the element operations in `Dom`.
- `getGUI()` is a flag set by `SetGuiAttached`.
- Character upper-casing (`Character.toUpperCase`, `Utils.capitalize`) is ASCII only.
- `System.nanoTime()` is a parameter of `Execute`.

**Weaker or narrower contracts.**
- CreateChild.CreateChildOperation.AddIndentation: only elements without content are covered. The loop's update `i++` undoes the decrement in its test `i-- > 0`, so for an element with content the test sees the same positive value every time and the loop does not end. `AddChild` therefore requires an empty child.
- CreateNewImagesOp.CreateNewImages.ExecuteAt: `addChild(e, pos)` belongs to a base class revision that is not part of this model. The call is recorded in `added` instead of performed, and the element is returned instead of a tree node.
- FontGui.ByteBuffer.SetLimit: the exception carries the argument name, not the JDK's message text.
- FontGui.FontDisplay.GetBuffer: for a negative size the model states only that an `IllegalArgumentException` results. Which JDK call throws it is not modelled.
- FontGen.FontData.RegisterSegments, FontGen.FontData.RegisterSegment, FontGen.FontData.RegisterCodepoint, FontGen.FontData.RegisterGroups, FontGen.FontData.RegisterGroup, FontGen.FontData.RegisterNext and FontGen.FontData.ReadSubtable: they split the loops of `readCMAP_USC2`, `readCMAP_USC4` and `readKERN` into separate methods. This is structure only; the Java code has one method per table format.
- FontGen.FontData.Load, FontGen.FontData.ReadTables, FontGen.FontData.ReadCmap, FontGen.FontData.ReadCmapUsc4, FontGen.FontData.RegisterGroups, FontGen.Parse, FontGen.Decode and Cmap.CmapRegs: take a `wide` flag that the Java constructor does not have. With `wide = false` they read format-12 group fields with 16-bit reads, as the Java code does; with `wide = true` they use the evidently intended 32-bit reading (see Findings).

## Findings

| source | as written | input that shows it | evidently intended | confidence | as-written member | corrected member |
|---|---|---|---|---|---|---|
| src/de/matthiasmann/twlthemeeditor/fontgen/FontData.java:295-297 | The 32-bit fields `startCharCode`, `endCharCode` and `startGlyphID` of a format-12 group are read with 16-bit reads, which return the high half of each field. | A format-12 subtable with one group 'A'..'Z' (0x41..0x5A) mapped to glyphs 3..28. The high halves are all 0, so only codepoint 0 is registered, to glyph 0, and the 26 letters are lost. | Read the three fields with `readInt`, so each group maps its whole 32-bit range. | not executed | Cmap.UpperCaseTableReading | Cmap.WideGroupsMapRanges |
