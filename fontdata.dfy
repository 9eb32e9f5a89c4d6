/** The font reader of the bitmap font generator: it loads the 'head',
    'name', 'cmap' and 'kern' tables of a TrueType/OpenType file into a
    glyph-to-codepoint table, a set of defined codepoints and a kerning
    table, and answers the generator's queries about them. */
module FontGen {
  import opened Wrappers
  import opened Bytes
  import Sfnt
  import NameTable
  import opened Cmap
  import opened Kern
  import opened Kernings
  import opened Ordered

  /** The AWT font object the reader derives from the file; only its style
      bits and point size matter here. */
  datatype FontHandle = FontHandle(style: int, size: real)

  const PLAIN: int := 0
  const BOLD: int := 1
  const ITALIC: int := 2

  /** What `Font.createFont` makes of the file: a font, a FontFormatException,
      or an I/O failure. */
  datatype FontCreation = Created | FormatError | ReadError(error: JavaException)

  // ---------------------------------------------------------------- style

  /** `String.indexOf(char)`: the first position of `c`, or -1. */
  function IndexOf(s: string, c: char): (r: int)
    ensures -1 <= r < |s|
    ensures r == -1 <==> c !in s
    ensures r >= 0 ==> s[r] == c && c !in s[..r]
    decreases |s|
  {
    if s == [] then -1
    else if s[0] == c then 0
    else
      var k := IndexOf(s[1..], c);
      assert forall i :: 0 <= i < |s[1..]| ==> s[1..][i] == s[i + 1];
      if k == -1 then -1
      else
        assert s[..k + 1] == [s[0]] + s[1..][..k];
        k + 1
  }

  /** `String.indexOf(String) >= 0`. */
  predicate Contains(s: string, sub: string) {
    exists i :: 0 <= i <= |s| && sub <= s[i..]
  }

  /** The style the loader gives the font: with a comma in the name, BOLD when
      the part after the first comma mentions "Bold" and ITALIC when it
      mentions "Italic"; PLAIN otherwise. */
  function StyleOf(name: string): (style: int)
    ensures ',' !in name ==> style == PLAIN
    ensures ',' in name ==>
              var sub := name[IndexOf(name, ',') + 1..];
              (style == BOLD || style == BOLD + ITALIC <==> Contains(sub, "Bold")) &&
              (style == ITALIC || style == BOLD + ITALIC <==> Contains(sub, "Italic"))
  {
    var comma := IndexOf(name, ',');
    if comma < 0 then PLAIN
    else
      var sub := name[comma + 1..];
      (if Contains(sub, "Bold") then BOLD else PLAIN) + (if Contains(sub, "Italic") then ITALIC else PLAIN)
  }

  /** For a family name without a comma, the style follows the subfamily
      name the 'name' table gives: the display name is the family, or the
      family, a comma and the subfamily. */
  lemma StyleOfDisplayName(family: string, subFamily: string)
    requires ',' !in family
    ensures StyleOf(NameTable.DisplayName(family, subFamily)) ==
              if NameTable.DisplayName(family, subFamily) == family then PLAIN
              else (if Contains(subFamily, "Bold") then BOLD else PLAIN) +
                   (if Contains(subFamily, "Italic") then ITALIC else PLAIN)
  {
    var name := NameTable.DisplayName(family, subFamily);
    if name != family {
      assert name == family + "," + subFamily;
      assert name[|family|] == ',';
      assert name[..|family|] == family;
      assert IndexOf(name, ',') == |family|;
      assert name[|family| + 1..] == subFamily;
    }
  }

  // ---------------------------------------------------------------- loading

  /** Everything the loader reads from the file. */
  datatype Loaded = Loaded(
    upem: int,
    name: string,
    glyphToUnicode: map<int, seq<int>>,
    defined: set<int>,
    kerning: map<int, map<int, int>>,
    warnings: seq<KernEvent>)

  /** A required table: missing is an IOException naming it. */
  function Required(lookup: Result<Option<seq<Byte>>>, tag: string): Result<seq<Byte>> {
    var section :- lookup;
    if section.None? then Err(IOException("Missing '" + tag + "' section")) else Ok(section.value)
  }

  /** The tables the constructor reads. */
  datatype Sections = Sections(head: seq<Byte>, cmap: seq<Byte>, name: seq<Byte>, kern: Option<seq<Byte>>)

  /** The constructor's lookups, in its order: the table directory; the
      'head', 'cmap' and 'name' tables, which must be present, and 'kern',
      which may be absent. The first exception wins. */
  function FindSections(file: seq<Byte>): Result<Sections> {
    var dir :- Sfnt.ReadDirTable(file);
    var head :- Required(Sfnt.LookupFrom(file, dir, "head", 0), "head");
    var cmap :- Required(Sfnt.LookupFrom(file, dir, "cmap", 0), "cmap");
    var name :- Required(Sfnt.LookupFrom(file, dir, "name", 0), "name");
    var kern :- Sfnt.LookupFrom(file, dir, "kern", 0);
    Ok(Sections(head, cmap, name, kern))
  }

  /** The kerning events of the optional 'kern' table. */
  function KernOf(kern: Option<seq<Byte>>): Result<seq<KernEvent>> {
    if kern.Some? then KernEvents(kern.value) else Ok([])
  }

  /** The decoding of the tables, in the constructor's order: units per em,
      the display name, the codepoint mapping, then the kerning pairs. `wide`
      selects the reading of format-12 group fields, as in `Format12`. */
  function Decode(s: Sections, wide: bool): Result<Loaded> {
    var upem :- Sfnt.ReadUpem(s.head);
    var psName :- NameTable.NameOf(s.name);
    var regs :- CmapRegs(s.cmap, wide);
    var events :- KernOf(s.kern);
    Ok(Loaded(upem, psName, RegisterAll(map[], regs), Codepoints(regs), ApplyKern(map[], events), Warnings(events)))
  }

  /** The constructor's reading of the file. */
  function Parse(file: seq<Byte>, wide: bool): Result<Loaded> {
    var sections :- FindSections(file);
    Decode(sections, wide)
  }

  /** A file of eight bytes that declares no tables: the empty directory
      reads, and the constructor fails on the missing 'head' table. */
  lemma EmptyDirectoryMissesHead(wide: bool)
    ensures Sfnt.ReadDirTable([0, 1, 0, 0, 0, 0, 0, 0]) == Ok([])
    ensures Parse([0, 1, 0, 0, 0, 0, 0, 0], wide) == Err(IOException("Missing 'head' section"))
  {
    var file: seq<Byte> := [0, 1, 0, 0, 0, 0, 0, 0];
    assert ReadUShort(file, 4) == Ok(0);
    assert Sfnt.ReadDirTable(file) == Ok([]);
    assert Sfnt.LookupFrom(file, [], "head", 0) == Ok(None);
    assert "Missing '" + "head" + "' section" == "Missing 'head' section";
    assert FindSections(file) == Err(IOException("Missing 'head' section"));
  }

  /** What a successful load guarantees: units per em fit 16 bits, every
      defined codepoint is non-negative, and no stored adjustment is 0. */
  lemma ParsedWellFormed(file: seq<Byte>, wide: bool)
    requires Parse(file, wide).Ok?
    ensures 0 <= Parse(file, wide).value.upem < TwoTo16
    ensures forall c :: c in Parse(file, wide).value.defined ==> c >= 0
    ensures NoZeroAdjustment(Parse(file, wide).value.kerning)
  {
    var sections := FindSections(file).value;
    var regs := CmapRegs(sections.cmap, wide).value;
    var events := KernOf(sections.kern).value;
    assert Parse(file, wide).value.defined == Codepoints(regs);
    assert Parse(file, wide).value.kerning == ApplyKern(map[], events);
    CmapCodepoints(sections.cmap, wide);
    forall c | c in Codepoints(regs)
      ensures c >= 0
    {
      CodepointsMembers(regs, c);
    }
    PairsNonZero(sections.kern, events);
    NoZeroStored(map[], events);
  }

  lemma PairsNonZero(kern: Option<seq<Byte>>, events: seq<KernEvent>)
    requires KernOf(kern) == Ok(events)
    ensures forall e :: e in events && e.Pair? ==> e.kpx != 0
  {
    if kern.Some? {
      var a := kern.value;
      EventsWellFormed(a, ReadUShort(a, 0).value, ReadUShort(a, 2).value, 0, 4);
    }
  }

  // ---------------------------------------------------------------- the font

  class FontData {
    const fontFile: string
    const size: real
    var javaFont: FontHandle
    var upem: nat
    /** left glyph -> right glyph -> adjustment in design units */
    var kerning: map<int, map<int, int>>
    /** glyph -> the codepoints mapped to it, in registration order */
    var glyphToUnicode: map<int, seq<int>>
    /** the `defined` bitset: every codepoint some glyph maps */
    var defined: set<int>
    var postScriptName: string
    /** the WARNING records logged for unsupported kerning subtables */
    var warnings: seq<KernEvent>

    /** What the loader read, as one value. */
    function Contents(): Loaded
      reads this
    {
      Loaded(upem, postScriptName, glyphToUnicode, defined, kerning, warnings)
    }

    /** The tables the kerning export reads. */
    function KerningTables(): Tables
      reads this
    {
      Tables(kerning, glyphToUnicode, size, upem)
    }

    /** The object before its tables are read. */
    constructor Empty(file: string, size: real)
      ensures fontFile == file && this.size == size && javaFont == FontHandle(PLAIN, size)
      ensures Contents() == Loaded(0, "", map[], {}, map[], [])
    {
      fontFile := file;
      this.size := size;
      javaFont := FontHandle(PLAIN, size);
      upem := 0;
      kerning := map[];
      glyphToUnicode := map[];
      defined := {};
      postScriptName := "";
      warnings := [];
    }

    /** `FontData(src, size, style)` behind `deriveFont`: the same file and
        tables, a font of the given style and size. */
    constructor Derive(src: FontData, size: real, style: int)
      ensures fontFile == src.fontFile && this.size == size && javaFont == FontHandle(style, size)
      ensures Contents() == src.Contents()
    {
      fontFile := src.fontFile;
      this.size := size;
      javaFont := FontHandle(style, size);
      upem := src.upem;
      kerning := src.kerning;
      defined := src.defined;
      postScriptName := src.postScriptName;
      glyphToUnicode := src.glyphToUnicode;
      warnings := src.warnings;
    }

    /** `deriveFont(size)`: keeps the style of this font. */
    method DeriveFont(size: real) returns (f: FontData)
      ensures fresh(f) && f.fontFile == fontFile && f.size == size
      ensures f.javaFont == FontHandle(javaFont.style, size) && f.Contents() == Contents()
    {
      f := new FontData.Derive(this, size, javaFont.style);
    }

    /** `deriveFont(size, style)`. */
    method DeriveFontStyle(size: real, style: int) returns (f: FontData)
      ensures fresh(f) && f.fontFile == fontFile && f.size == size
      ensures f.javaFont == FontHandle(style, size) && f.Contents() == Contents()
    {
      f := new FontData.Derive(this, size, style);
    }

    /** `getNextCodepoint(c)`: the least defined codepoint above `c`, or -1;
        `nextSetBit` refuses the negative index that `c + 1` is for `c < -1`
        and, after wrapping, for the largest `int`. */
    ghost function GetNextCodepoint(c: int): (r: Result<int>)
      requires IntMin <= c <= IntMax
      reads this
      ensures r == Err(IndexOutOfBounds) <==> c < -1 || c == IntMax
      ensures r.Ok? ==> (r.value == -1 <==> forall x :: x in defined ==> x <= c)
      ensures r.Ok? && r.value != -1 ==> r.value in defined && r.value > c && forall x :: x in defined && x > c ==> r.value <= x
    {
      NextSetBitAfter(defined, c)
    }

    // -------------------------------------------------------------- cmap

    /** `addGlyphCodePoint`: append the codepoint to the glyph's list, then
        mark it defined; a negative codepoint is refused by the bitset, after
        the list has been updated. */
    method AddGlyphCodePoint(glyph: int, unicode: int) returns (o: Outcome)
      modifies this
      ensures o == if unicode >= 0 then Pass else Fail(IndexOutOfBounds)
      ensures glyphToUnicode == Register(old(glyphToUnicode), Reg(glyph, unicode))
      ensures defined == if unicode >= 0 then old(defined) + {unicode} else old(defined)
      ensures upem == old(upem) && postScriptName == old(postScriptName) && kerning == old(kerning) && warnings == old(warnings)
      ensures javaFont == old(javaFont)
    {
      var codepoints: seq<int>;
      if glyph !in glyphToUnicode {
        codepoints := [unicode];
        assert codepoints == Get(glyphToUnicode, glyph) + [unicode];
      } else {
        codepoints := glyphToUnicode[glyph] + [unicode];
      }
      glyphToUnicode := glyphToUnicode[glyph := codepoints];
      if unicode < 0 {
        return Fail(IndexOutOfBounds);
      }
      defined := defined + {unicode};
      return Pass;
    }

    /** One registration appended to a batch already applied. */
    lemma RegisterOneMore(g0: map<int, seq<int>>, d0: set<int>, done: seq<Reg>, r: Reg,
                          g: map<int, seq<int>>, d: set<int>)
      requires g == Register(RegisterAll(g0, done), r)
      requires d == d0 + Codepoints(done) + {r.codepoint}
      ensures g == RegisterAll(g0, done + [r])
      ensures d == d0 + Codepoints(done + [r])
    {
      RegisterAllAppend(g0, done, [r]);
      CodepointsAppend(done, [r]);
      assert Codepoints([r]) == {r.codepoint};
    }

    /** The glyph map and the defined set are those of `before` with the
        registrations `done` applied; every other table is as in `before`. */
    static ghost predicate Extends(before: Loaded, after: Loaded, done: seq<Reg>)
    {
      after.glyphToUnicode == RegisterAll(before.glyphToUnicode, done) &&
      after.defined == before.defined + Codepoints(done) &&
      after.upem == before.upem && after.name == before.name &&
      after.kerning == before.kerning && after.warnings == before.warnings
    }

    /** Registrations applied one batch after another are their concatenation applied at once. */
    static lemma ExtendsChain(before: Loaded, mid: Loaded, after: Loaded, done: seq<Reg>, more: seq<Reg>)
      requires Extends(before, mid, done) && Extends(mid, after, more)
      ensures Extends(before, after, done + more)
    {
      RegisterAllAppend(before.glyphToUnicode, done, more);
      CodepointsAppend(done, more);
    }

    /** The current tables are `before` with the registrations `done` applied. */
    ghost predicate Registered(before: Loaded, done: seq<Reg>)
      reads this
    {
      Extends(before, Contents(), done)
    }

    /** One `addGlyphCodePoint` call of a decoding loop, for a codepoint the
        bitset accepts. */
    method RegisterNext(ghost before: Loaded, ghost done: seq<Reg>, r: Reg)
      requires Registered(before, done) && r.codepoint >= 0
      modifies this
      ensures Registered(before, done + [r])
      ensures javaFont == old(javaFont)
    {
      var added := AddGlyphCodePoint(r.glyph, r.codepoint);
      RegisterOneMore(before.glyphToUnicode, before.defined, done, r, glyphToUnicode, defined);
    }

    /** The glyph of one codepoint in `readCMAP_USC2`: with a zero range
        offset the codepoint plus delta, otherwise the glyph-index-array word at
        `glyphOffset`, plus delta unless it is 0; modulo 65536. */
    static method GlyphIndex(a: seq<Byte>, seg: Segment, unicode: int, glyphOffset: int) returns (r: Result<int>)
      ensures seg.rangeOffset == 0 ==> r == Ok((unicode + seg.delta) % 65536)
      ensures seg.rangeOffset != 0 && ReadUShort(a, glyphOffset).Err? ==> r == Err(ReadUShort(a, glyphOffset).error)
      ensures seg.rangeOffset != 0 && ReadUShort(a, glyphOffset) == Ok(0) ==> r == Ok(0)
      ensures seg.rangeOffset != 0 && ReadUShort(a, glyphOffset).Ok? && ReadUShort(a, glyphOffset).value != 0 ==>
                r == Ok((ReadUShort(a, glyphOffset).value + seg.delta) % 65536)
      ensures r.Ok? ==> 0 <= r.value < 65536
      ensures r == Glyph4(a, seg, unicode, glyphOffset)
    {
      var glyphIdx := unicode;
      if seg.rangeOffset != 0 {
        var word := ReadUShort(a, glyphOffset);
        if word.Err? {
          return Err(word.error);
        }
        glyphIdx := word.value;
      }
      if seg.rangeOffset == 0 || glyphIdx != 0 {
        glyphIdx := (glyphIdx + seg.delta) % 65536;
      }
      return Ok(glyphIdx);
    }

    /** One codepoint of the inner loop of `readCMAP_USC2`: look its glyph up
        and, when that glyph is not 0, register the pair. `spec` is what the
        whole segment yields, `done` what the codepoints before this one
        registered. */
    method RegisterCodepoint(a: seq<Byte>, seg: Segment, unicode: int, glyphOffset: int,
                             ghost before: Loaded, ghost done: seq<Reg>, ghost spec: Result<seq<Reg>>)
      returns (o: Outcome, ghost step: seq<Reg>)
      requires 0 <= seg.endCount < 65536 && 0 <= unicode <= LastCode(seg)
      requires Registered(before, done) && spec == Then(done, SegmentRegs(a, seg, unicode, glyphOffset))
      modifies this
      ensures o.Fail? <==> Glyph4(a, seg, unicode, glyphOffset).Err?
      ensures o.Fail? ==> spec == Err(o.error) && Registered(before, done)
      ensures o.Pass? ==>
                Registered(before, done + step) &&
                spec == Then(done + step, SegmentRegs(a, seg, unicode + 1, if seg.rangeOffset != 0 then glyphOffset + 2 else glyphOffset))
      ensures javaFont == old(javaFont)
    {
      var glyphRead := GlyphIndex(a, seg, unicode, glyphOffset);
      if glyphRead.Err? {
        SegmentRegsStops(a, seg, unicode, glyphOffset);
        return Fail(glyphRead.error), [];
      }
      var glyphIdx := glyphRead.value;
      if glyphIdx != 0 {
        RegisterNext(before, done, Reg(glyphIdx, unicode));
        step := [Reg(glyphIdx, unicode)];
      } else {
        step := [];
        assert done + step == done;
      }
      SegmentRegsAdvance(a, seg, unicode, glyphOffset, if seg.rangeOffset != 0 then glyphOffset + 2 else glyphOffset, step, done, spec);
      o := Pass;
    }

    /** The inner loop of `readCMAP_USC2`: the codepoints of one segment,
        from its start code up to its end code (0xFFFF excluded). */
    method RegisterSegment(a: seq<Byte>, seg: Segment) returns (o: Outcome)
      requires 0 <= seg.startCount && 0 <= seg.endCount < 65536
      modifies this
      ensures var spec := SegmentRegs(a, seg, seg.startCount, seg.rangeOffsetPos + seg.rangeOffset);
              (spec.Ok? ==> o == Pass && Extends(old(Contents()), Contents(), spec.value)) &&
              (spec.Err? ==> o == Fail(spec.error))
      ensures upem == old(upem) && postScriptName == old(postScriptName) && kerning == old(kerning) && warnings == old(warnings)
      ensures javaFont == old(javaFont)
    {
      var endCount := seg.endCount;
      if endCount == 65535 {
        endCount := endCount - 1;
      }
      var glyphOffset := seg.rangeOffsetPos + seg.rangeOffset;
      var unicode := seg.startCount;
      ghost var spec := SegmentRegs(a, seg, unicode, glyphOffset);
      ghost var done: seq<Reg> := [];
      ThenEmpty(spec);
      while unicode <= endCount
        invariant endCount == LastCode(seg) && 0 <= unicode
        invariant spec == Then(done, SegmentRegs(a, seg, unicode, glyphOffset))
        invariant Registered(old(Contents()), done)
        invariant javaFont == old(javaFont)
        decreases endCount + 1 - unicode
      {
        var here, step := RegisterCodepoint(a, seg, unicode, glyphOffset, old(Contents()), done, spec);
        if here.Fail? {
          return here;
        }
        if seg.rangeOffset != 0 {
          glyphOffset := glyphOffset + 2;
        }
        done := done + step;
        unicode := unicode + 1;
      }
      ThenOkEmpty(done);
      return Pass;
    }

    /** `readCMAP_USC2`: decode a format-4 subtable segment by segment. */
    method ReadCmapUsc2(a: seq<Byte>, off: int) returns (o: Outcome)
      modifies this
      ensures Format4(a, off).Ok? ==> o == Pass && Extends(old(Contents()), Contents(), Format4(a, off).value)
      ensures Format4(a, off).Err? ==> o == Fail(Format4(a, off).error)
      ensures upem == old(upem) && postScriptName == old(postScriptName) && kerning == old(kerning) && warnings == old(warnings)
      ensures javaFont == old(javaFont)
    {
      var format := ReadUShort(a, off);
      if format.Err? {
        return Fail(format.error);
      }
      if format.value != 4 {
        return Fail(UnsupportedFormat(format.value));
      }
      var countRead := ReadUShort(a, off + 6);
      if countRead.Err? {
        return Fail(countRead.error);
      }
      o := RegisterSegments(a, off, countRead.value);
    }

    /** The segment loop of `readCMAP_USC2`, over the `segCountX2 / 2` segments. */
    method RegisterSegments(a: seq<Byte>, off: int, segCountX2: int) returns (o: Outcome)
      modifies this
      ensures var spec := Segments4(a, off, segCountX2, 0);
              (spec.Ok? ==> o == Pass && Extends(old(Contents()), Contents(), spec.value)) &&
              (spec.Err? ==> o == Fail(spec.error))
      ensures upem == old(upem) && postScriptName == old(postScriptName) && kerning == old(kerning) && warnings == old(warnings)
      ensures javaFont == old(javaFont)
    {
      ghost var before := Contents();
      ghost var spec := Segments4(a, off, segCountX2, 0);
      ghost var done: seq<Reg> := [];
      ThenEmpty(spec);
      var segX2: nat := 0;
      while segX2 < segCountX2
        invariant spec == Then(done, Segments4(a, off, segCountX2, segX2))
        invariant Registered(before, done)
        invariant javaFont == old(javaFont)
        decreases segCountX2 - segX2
      {
        var segRead := ReadSegment(a, off, segCountX2, segX2);
        if segRead.Err? {
          return Fail(segRead.error);
        }
        var seg := segRead.value;
        ghost var mid := Contents();
        var here := RegisterSegment(a, seg);
        if here.Fail? {
          Segments4Stops(a, off, segCountX2, segX2, seg);
          return here;
        }
        ghost var segDone := SegmentRegs(a, seg, seg.startCount, seg.rangeOffsetPos + seg.rangeOffset).value;
        Segments4Advance(a, off, segCountX2, segX2, seg, segDone, done, spec);
        ExtendsChain(before, mid, Contents(), done, segDone);
        done := done + segDone;
        segX2 := segX2 + 2;
      }
      ThenOkEmpty(done);
      return Pass;
    }

    /** `readCMAP_USC4`: every group registers its codepoints in order. With
        `wide` false the group fields are read as the source reads them, with
        `wide` true as the 32-bit values they are. */
    method ReadCmapUsc4(a: seq<Byte>, off: int, wide: bool) returns (o: Outcome)
      modifies this
      ensures Format12(a, off, wide).Ok? ==> o == Pass && Extends(old(Contents()), Contents(), Format12(a, off, wide).value)
      ensures Format12(a, off, wide).Err? ==> o == Fail(Format12(a, off, wide).error)
      ensures upem == old(upem) && postScriptName == old(postScriptName) && kerning == old(kerning) && warnings == old(warnings)
      ensures javaFont == old(javaFont)
    {
      var format := ReadUShort(a, off);
      if format.Err? {
        return Fail(format.error);
      }
      if format.value != 12 {
        return Fail(UnsupportedFormat(format.value));
      }
      var countRead := ReadInt(a, off + 12);
      if countRead.Err? {
        return Fail(countRead.error);
      }
      o := RegisterGroups(a, off, countRead.value, wide);
    }

    /** The group loop of `readCMAP_USC4`. */
    method RegisterGroups(a: seq<Byte>, off: int, nGroups: int, wide: bool) returns (o: Outcome)
      modifies this
      ensures var spec := Groups12(a, off, nGroups, 0, wide);
              (spec.Ok? ==> o == Pass && Extends(old(Contents()), Contents(), spec.value)) &&
              (spec.Err? ==> o == Fail(spec.error))
      ensures upem == old(upem) && postScriptName == old(postScriptName) && kerning == old(kerning) && warnings == old(warnings)
      ensures javaFont == old(javaFont)
    {
      ghost var before := Contents();
      ghost var spec := Groups12(a, off, nGroups, 0, wide);
      ghost var done: seq<Reg> := [];
      ThenEmpty(spec);
      var group: nat := 0;
      while group < nGroups
        invariant spec == Then(done, Groups12(a, off, nGroups, group, wide))
        invariant Registered(before, done)
        invariant javaFont == old(javaFont)
        decreases nGroups - group
      {
        var groupRead := ReadGroup(a, off, group, wide);
        if groupRead.Err? {
          return Fail(groupRead.error);
        }
        var g := groupRead.value;
        ghost var mid := Contents();
        var here := RegisterGroup(g);
        if here.Fail? {
          Groups12Stops(a, off, nGroups, group, wide, g);
          return here;
        }
        ghost var groupDone := RangeRegs(g.startCharCode, g.endCharCode, g.startGlyphID);
        Groups12Advance(a, off, nGroups, group, wide, g, done, spec);
        ExtendsChain(before, mid, Contents(), done, groupDone);
        done := done + groupDone;
        group := group + 1;
      }
      ThenOkEmpty(done);
      return Pass;
    }

    /** The inner loop of `readCMAP_USC4`: the group's codepoints in order,
        each mapped to the next glyph; a negative first codepoint fails at the
        bitset after the glyph's list has been extended. */
    method RegisterGroup(g: Group) returns (o: Outcome)
      modifies this
      ensures g.startCharCode <= g.endCharCode && g.startCharCode < 0 ==> o == Fail(IndexOutOfBounds)
      ensures !(g.startCharCode <= g.endCharCode && g.startCharCode < 0) ==>
                o == Pass && Extends(old(Contents()), Contents(), RangeRegs(g.startCharCode, g.endCharCode, g.startGlyphID))
      ensures upem == old(upem) && postScriptName == old(postScriptName) && kerning == old(kerning) && warnings == old(warnings)
      ensures javaFont == old(javaFont)
    {
      ghost var before := Contents();
      var i := g.startCharCode;
      while i <= g.endCharCode
        invariant g.startCharCode <= i <= g.endCharCode + 1 || i == g.startCharCode
        invariant g.startCharCode < 0 ==> i == g.startCharCode
        invariant Registered(before, RangeRegs(g.startCharCode, i - 1, g.startGlyphID))
        invariant javaFont == old(javaFont)
        decreases g.endCharCode + 1 - i
      {
        if i < 0 {
          var added := AddGlyphCodePoint(g.startGlyphID + (i - g.startCharCode), i);
          return added;
        }
        RegisterNext(before, RangeRegs(g.startCharCode, i - 1, g.startGlyphID), Reg(g.startGlyphID + (i - g.startCharCode), i));
        RangeRegsSnoc(g.startCharCode, i - 1, g.startGlyphID);
        i := i + 1;
      }
      return Pass;
    }

    /** `readCMAP`: take the first Windows Unicode encoding record (platform 3,
        encoding 1 or 10) and decode its subtable; with none, an IOException. */
    method ReadCmap(a: seq<Byte>, wide: bool) returns (o: Outcome)
      modifies this
      ensures CmapRegs(a, wide).Ok? ==> o == Pass && Extends(old(Contents()), Contents(), CmapRegs(a, wide).value)
      ensures CmapRegs(a, wide).Err? ==> o == Fail(CmapRegs(a, wide).error)
      ensures upem == old(upem) && postScriptName == old(postScriptName) && kerning == old(kerning) && warnings == old(warnings)
      ensures javaFont == old(javaFont)
    {
      var countRead := ReadUShort(a, 2);
      if countRead.Err? {
        return Fail(countRead.error);
      }
      var numCMap := countRead.value;
      var i: nat := 0;
      while i < numCMap
        invariant FindUnicode(a, numCMap, 0) == FindUnicode(a, numCMap, i)
        decreases numCMap - i
      {
        var pid := ReadUShort(a, i * 8 + 4);
        if pid.Err? {
          return Fail(pid.error);
        }
        var eid := ReadUShort(a, i * 8 + 6);
        if eid.Err? {
          return Fail(eid.error);
        }
        if pid.value == 3 && eid.value == 1 {
          var offset := ReadInt(a, i * 8 + 8);
          if offset.Err? {
            return Fail(offset.error);
          }
          o := ReadCmapUsc2(a, offset.value);
          return;
        }
        if pid.value == 3 && eid.value == 10 {
          var offset := ReadInt(a, i * 8 + 8);
          if offset.Err? {
            return Fail(offset.error);
          }
          o := ReadCmapUsc4(a, offset.value, wide);
          return;
        }
        i := i + 1;
      }
      return Fail(IOException("No unicode mapping table found"));
    }

    // -------------------------------------------------------------- kern

    /** `addKerning`: store the adjustment for the pair, replacing any earlier one. */
    method AddKerning(from: int, to: int, kpx: int)
      modifies this
      ensures kerning == Kern.AddKerning(old(kerning), from, to, kpx)
      ensures upem == old(upem) && postScriptName == old(postScriptName) && glyphToUnicode == old(glyphToUnicode) && defined == old(defined) && warnings == old(warnings)
      ensures javaFont == old(javaFont)
    {
      var adjTab: map<int, int>;
      if from in kerning {
        adjTab := kerning[from];
      } else {
        adjTab := map[];
      }
      kerning := kerning[from := adjTab[to := kpx]];
    }

    /** `readKERN`: walk the subtables; a horizontal format-0 subtable stores
        its non-zero pairs, a horizontal one of another format logs a warning,
        and the next subtable starts the current one's length further on. */
    method ReadKern(a: seq<Byte>) returns (o: Outcome)
      modifies this
      ensures KernEvents(a).Ok? ==>
                o == Pass &&
                kerning == ApplyKern(old(kerning), KernEvents(a).value) &&
                warnings == old(warnings) + Warnings(KernEvents(a).value)
      ensures KernEvents(a).Err? ==> o == Fail(KernEvents(a).error)
      ensures upem == old(upem) && postScriptName == old(postScriptName) && glyphToUnicode == old(glyphToUnicode) && defined == old(defined)
      ensures javaFont == old(javaFont)
    {
      var versionRead := ReadUShort(a, 0);
      if versionRead.Err? {
        return Fail(versionRead.error);
      }
      var tablesRead := ReadUShort(a, 2);
      if tablesRead.Err? {
        return Fail(tablesRead.error);
      }
      o := ReadSubtables(a, versionRead.value, tablesRead.value);
    }

    /** The subtable loop of `readKERN`, from byte 4. */
    method ReadSubtables(a: seq<Byte>, version: int, nTables: int) returns (o: Outcome)
      modifies this
      ensures var spec := Subtables(a, version, nTables, 0, 4);
              (spec.Ok? ==>
                 o == Pass &&
                 kerning == ApplyKern(old(kerning), spec.value) &&
                 warnings == old(warnings) + Warnings(spec.value)) &&
              (spec.Err? ==> o == Fail(spec.error))
      ensures upem == old(upem) && postScriptName == old(postScriptName) && glyphToUnicode == old(glyphToUnicode) && defined == old(defined)
      ensures javaFont == old(javaFont)
    {
      ghost var before := Contents();
      ghost var spec := Subtables(a, version, nTables, 0, 4);
      ghost var done: seq<KernEvent> := [];
      ThenEmpty(spec);
      assert before.warnings + [] == before.warnings;
      var tableOffset := 4;
      var table: nat := 0;
      while table < nTables
        invariant spec == Then(done, Subtables(a, version, nTables, table, tableOffset))
        invariant kerning == ApplyKern(before.kerning, done)
        invariant warnings == before.warnings + Warnings(done)
        invariant before.(kerning := kerning, warnings := warnings) == Contents()
        invariant javaFont == old(javaFont)
        decreases nTables - table
      {
        var lengthRead := ReadInt(a, tableOffset);
        if lengthRead.Err? {
          assert Subtables(a, version, nTables, table, tableOffset) == Err(lengthRead.error);
          return Fail(lengthRead.error);
        }
        var coverageRead := ReadUShort(a, tableOffset + 4);
        if coverageRead.Err? {
          assert Subtables(a, version, nTables, table, tableOffset) == Err(coverageRead.error);
          return Fail(coverageRead.error);
        }
        var coverage := coverageRead.value;
        var read := ReadSubtable(a, version, tableOffset, coverage);
        if read.Fail? {
          SubtablesStops(a, version, nTables, table, tableOffset, coverage);
          return read;
        }
        ghost var here := SubtableEvents(a, version, tableOffset, coverage).value;
        SubtablesAdvance(a, version, nTables, table, tableOffset, lengthRead.value, coverage, here, done, spec);
        ApplyKernAppend(before.kerning, done, here);
        WarningsAppend(done, here);
        ConcatAssoc(before.warnings, Warnings(done), Warnings(here));
        done := done + here;
        tableOffset := tableOffset + lengthRead.value;
        table := table + 1;
      }
      ThenOkEmpty(done);
      return Pass;
    }

    /** The body of the subtable loop of `readKERN`: a horizontal format-0
        subtable stores its pairs, a horizontal subtable of another format
        logs a warning, any other subtable is skipped. */
    method ReadSubtable(a: seq<Byte>, version: int, tableOffset: int, coverage: int) returns (o: Outcome)
      modifies this
      ensures var spec := SubtableEvents(a, version, tableOffset, coverage);
              (spec.Ok? ==>
                 o == Pass &&
                 kerning == ApplyKern(old(kerning), spec.value) &&
                 warnings == old(warnings) + Warnings(spec.value)) &&
              (spec.Err? ==> o == Fail(spec.error))
      ensures upem == old(upem) && postScriptName == old(postScriptName) && glyphToUnicode == old(glyphToUnicode) && defined == old(defined)
      ensures javaFont == old(javaFont)
    {
      if coverage % 4 == 1 {
        var format := coverage / 256;
        if format == 0 {
          var pairsRead := ReadUShort(a, tableOffset + 6);
          if pairsRead.Err? {
            return Fail(pairsRead.error);
          }
          o := ReadPairs(a, tableOffset + 14, pairsRead.value);
          if o.Pass? {
            var here := Pairs0(a, tableOffset + 14, pairsRead.value, 0).value;
            Pairs0WellFormed(a, tableOffset + 14, pairsRead.value, 0);
            WarningsOfPairs(here);
          }
        } else {
          var e := Unsupported(format, version);
          warnings := warnings + [e];
          assert ApplyKern(kerning, [e]) == kerning;
          assert Warnings([e]) == [e];
          o := Pass;
        }
      } else {
        assert ApplyKern(kerning, []) == kerning;
        o := Pass;
      }
    }

    /** The pair loop of `readKERN` for one format-0 subtable: every pair with
        a non-zero adjustment is stored, in order. */
    method ReadPairs(a: seq<Byte>, offset0: int, numPairs: int) returns (o: Outcome)
      modifies this
      ensures var spec := Pairs0(a, offset0, numPairs, 0);
              (spec.Ok? ==> o == Pass && kerning == ApplyKern(old(kerning), spec.value)) &&
              (spec.Err? ==> o == Fail(spec.error))
      ensures upem == old(upem) && postScriptName == old(postScriptName) && glyphToUnicode == old(glyphToUnicode) && defined == old(defined) && warnings == old(warnings)
      ensures javaFont == old(javaFont)
    {
      ghost var before := Contents();
      ghost var spec := Pairs0(a, offset0, numPairs, 0);
      ghost var done: seq<KernEvent> := [];
      ThenEmpty(spec);
      var offset := offset0;
      var pair: nat := 0;
      while pair < numPairs
        invariant spec == Then(done, Pairs0(a, offset, numPairs, pair))
        invariant kerning == ApplyKern(before.kerning, done)
        invariant upem == before.upem && postScriptName == before.name && glyphToUnicode == before.glyphToUnicode && defined == before.defined && warnings == before.warnings
        invariant javaFont == old(javaFont)
        decreases numPairs - pair
      {
        var from := ReadUShort(a, offset);
        if from.Err? {
          Pairs0Stops(a, offset, numPairs, pair);
          return Fail(from.error);
        }
        var to := ReadUShort(a, offset + 2);
        if to.Err? {
          Pairs0Stops(a, offset, numPairs, pair);
          return Fail(to.error);
        }
        var kpx := ReadShort(a, offset + 4);
        if kpx.Err? {
          Pairs0Stops(a, offset, numPairs, pair);
          return Fail(kpx.error);
        }
        Pairs0Advance(a, offset, numPairs, pair, from.value, to.value, kpx.value, done, spec);
        if kpx.value != 0 {
          var e := Pair(from.value, to.value, kpx.value);
          AddKerning(from.value, to.value, kpx.value);
          ApplyKernSnoc(before.kerning, done, e);
          done := done + [e];
        } else {
          assert done + [] == done;
        }
        pair := pair + 1;
        offset := offset + 6;
      }
      ThenOkEmpty(done);
      return Pass;
    }

    // -------------------------------------------------------------- kerning export

    /** `expandKerning(kernings, leftCodePoints, rightCodePoints, value, charSet)`:
        append one triple per included left and included right codepoint. */
    static method ExpandKerning(kernings: seq<Kerning>, lcs: seq<int>, rcs: seq<int>, value: int, cs: CharSet)
      returns (r: seq<Kerning>)
      ensures r == kernings + Expand(lcs, rcs, value, cs)
    {
      r := kernings;
      for i := 0 to |lcs|
        invariant r == kernings + Expand(lcs[..i], rcs, value, cs)
      {
        assert lcs[..i + 1][..i] == lcs[..i];
        var lc := lcs[i];
        if cs.isIncluded(lc) {
          for j := 0 to |rcs|
            invariant r == kernings + Expand(lcs[..i], rcs, value, cs) + RowFor(lc, rcs[..j], value, cs)
          {
            assert rcs[..j + 1][..j] == rcs[..j];
            if cs.isIncluded(rcs[j]) {
              ConcatAssoc(kernings + Expand(lcs[..i], rcs, value, cs), RowFor(lc, rcs[..j], value, cs), [Kerning(lc, rcs[j], value)]);
              r := r + [Kerning(lc, rcs[j], value)];
            }
          }
          assert rcs[..|rcs|] == rcs;
          ConcatAssoc(kernings, Expand(lcs[..i], rcs, value, cs), RowFor(lc, rcs, value, cs));
        }
      }
      assert lcs[..|lcs|] == lcs;
    }

    /** `expandKerning(kernings, leftGlyphIndex, rightGlyphIndex, value, charSet)`:
        the same for two glyphs, when both have codepoints. */
    method ExpandKerningGlyphs(kernings: seq<Kerning>, leftGlyph: int, rightGlyph: int, value: int, cs: CharSet)
      returns (r: seq<Kerning>)
      ensures leftGlyph in glyphToUnicode && rightGlyph in glyphToUnicode ==>
                r == kernings + Expand(glyphToUnicode[leftGlyph], glyphToUnicode[rightGlyph], value, cs)
      ensures !(leftGlyph in glyphToUnicode && rightGlyph in glyphToUnicode) ==> r == kernings
    {
      if leftGlyph in glyphToUnicode && rightGlyph in glyphToUnicode {
        r := ExpandKerning(kernings, glyphToUnicode[leftGlyph], glyphToUnicode[rightGlyph], value, cs);
      } else {
        r := kernings;
      }
    }

    /** The inner loop of `getKernings` for one included left glyph: its right
        glyphs in ascending order. */
    method RowKernings(from: int, cs: CharSet) returns (r: seq<Kerning>)
      requires from in kerning && from in glyphToUnicode
      ensures r == RowPairs(KerningTables(), cs, from)
    {
      ghost var t := KerningTables();
      var fromUnicode := glyphToUnicode[from];
      var row := kerning[from];
      var rights := row.Keys;
      ghost var seen: seq<int> := [];
      r := [];
      while rights != {}
        invariant rights <= row.Keys
        invariant forall x :: x in seen ==> x in row
        invariant SortedKeys(row.Keys) == seen + SortedKeys(rights)
        invariant r == PairsOf(t, cs, from, seen)
        decreases |rights|
      {
        MinExists(rights);
        var to :| to in rights && forall x :: x in rights ==> to <= x;
        SortedKeysStep(rights, to);
        ConcatAssoc(seen, [to], SortedKeys(rights - {to}));
        PairsOfSnoc(t, cs, from, seen, to);
        if to in glyphToUnicode && cs.isIncludedArray(glyphToUnicode[to]) {
          var value := Kernings.ConvertUnitToEm(row[to], size, upem);
          if value != 0 {
            r := ExpandKerning(r, fromUnicode, glyphToUnicode[to], value, cs);
          }
        }
        seen := seen + [to];
        rights := rights - {to};
      }
      assert seen + [] == seen;
      SortedKeysSound(row.Keys);
    }

    /** `getKernings(charSet)`: left glyphs in ascending order, for each its
        right glyphs in ascending order; a pair is exported when both glyphs
        have codepoints the character set accepts and its adjustment in
        pixels is not 0. */
    method GetKernings(cs: CharSet) returns (r: seq<Kerning>)
      ensures r == KerningsOf(KerningTables(), cs)
    {
      ghost var t := KerningTables();
      r := [];
      var lefts := kerning.Keys;
      ghost var visited: seq<int> := [];
      while lefts != {}
        invariant lefts <= kerning.Keys
        invariant forall l :: l in visited ==> l in kerning
        invariant SortedKeys(kerning.Keys) == visited + SortedKeys(lefts)
        invariant r == LeftsOf(t, cs, visited)
        decreases |lefts|
      {
        MinExists(lefts);
        var from :| from in lefts && forall x :: x in lefts ==> from <= x;
        SortedKeysStep(lefts, from);
        ConcatAssoc(visited, [from], SortedKeys(lefts - {from}));
        LeftsOfSnoc(t, cs, visited, from);
        if from in glyphToUnicode && cs.isIncludedArray(glyphToUnicode[from]) {
          var row := RowKernings(from, cs);
          r := r + row;
        }
        visited := visited + [from];
        lefts := lefts - {from};
      }
      assert visited + [] == visited;
    }

    // -------------------------------------------------------------- the constructor

    /** `FontData(file, size)`: read the tables, then create the AWT font and
        derive it with the style the display name suggests. A failed font
        creation is an IOException "Failed to read font". */
    static method Load(path: string, file: seq<Byte>, size: real, creation: FontCreation, wide: bool) returns (r: Result<FontData>)
      ensures Parse(file, wide).Err? ==> r == Err(Parse(file, wide).error)
      ensures Parse(file, wide).Ok? && creation == FormatError ==> r == Err(IOException("Failed to read font"))
      ensures Parse(file, wide).Ok? && creation.ReadError? ==> r == Err(creation.error)
      ensures r.Ok? <==> Parse(file, wide).Ok? && creation == Created
      ensures r.Ok? ==> fresh(r.value) && r.value.fontFile == path && r.value.size == size &&
                        r.value.Contents() == Parse(file, wide).value &&
                        r.value.javaFont == FontHandle(StyleOf(Parse(file, wide).value.name), size)
    {
      var sections := ReadSections(file);
      if sections.Err? {
        return Err(sections.error);
      }
      var fd := new FontData.Empty(path, size);
      var o := fd.ReadTables(sections.value, wide);
      if o.Fail? {
        return Err(o.error);
      }
      match creation
      case FormatError =>
        return Err(IOException("Failed to read font"));
      case ReadError(e) =>
        return Err(e);
      case Created =>
        fd.javaFont := FontHandle(StyleOf(fd.postScriptName), size);
        return Ok(fd);
    }

    /** The constructor's table lookups. */
    static method ReadSections(file: seq<Byte>) returns (r: Result<Sections>)
      ensures r == FindSections(file)
    {
      var dir := Sfnt.ReadDirTable(file);
      if dir.Err? {
        return Err(dir.error);
      }
      var head := Sfnt.ReadSection(file, dir.value, "head");
      if head.Err? {
        return Err(head.error);
      }
      var cmap := Sfnt.ReadSection(file, dir.value, "cmap");
      if cmap.Err? {
        return Err(cmap.error);
      }
      var name := Sfnt.ReadSection(file, dir.value, "name");
      if name.Err? {
        return Err(name.error);
      }
      var kern := Sfnt.ReadSectionOptional(file, dir.value, "kern");
      if kern.Err? {
        return Err(kern.error);
      }
      return Ok(Sections(head.value, cmap.value, name.value, kern.value));
    }

    /** The constructor's decoding of the tables into a fresh font's fields. */
    method ReadTables(s: Sections, wide: bool) returns (o: Outcome)
      requires Contents() == Loaded(0, "", map[], {}, map[], [])
      modifies this
      ensures Decode(s, wide).Ok? ==> o == Pass && Contents() == Decode(s, wide).value
      ensures Decode(s, wide).Err? ==> o == Fail(Decode(s, wide).error)
      ensures javaFont == old(javaFont)
    {
      var upemRead := Sfnt.ReadUpem(s.head);
      if upemRead.Err? {
        return Fail(upemRead.error);
      }
      upem := upemRead.value;
      var psName := NameTable.ReadName(s.name);
      if psName.Err? {
        return Fail(psName.error);
      }
      postScriptName := psName.value;
      o := ReadCmap(s.cmap, wide);
      if o.Fail? {
        return;
      }
      if s.kern.Some? {
        o := ReadKern(s.kern.value);
        if o.Fail? {
          return;
        }
      } else {
        assert warnings + [] == warnings;
      }
      return Pass;
    }
  }
}
