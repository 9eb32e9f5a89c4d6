/** The 'cmap' table as the font reader decodes it: which encoding record it
    picks, and the (glyph, codepoint) registrations a format-4 or format-12
    subtable yields, in the order the reader makes them. The subtable
    layouts are those of the OpenType specification's 'cmap' chapter,
    "Format 4: Segment mapping to delta values" and "Format 12: Segmented
    coverage", read at the offsets the reader uses. */
module Cmap {
  import opened Wrappers
  import opened Bytes
  import JavaText

  /** One call of `addGlyphCodePoint(glyph, codepoint)`. */
  datatype Reg = Reg(glyph: int, codepoint: int)

  // ---------------------------------------------------------------- registration

  /** The codepoints registered so far for `glyph` (none when it has no entry). */
  function Get(g2u: map<int, seq<int>>, glyph: int): seq<int> {
    if glyph in g2u then g2u[glyph] else []
  }

  /** `addGlyphCodePoint` on the glyph table: the codepoint is appended to the glyph's list. */
  function Register(g2u: map<int, seq<int>>, r: Reg): (m: map<int, seq<int>>)
    ensures m.Keys == g2u.Keys + {r.glyph}
    ensures m[r.glyph] == Get(g2u, r.glyph) + [r.codepoint]
    ensures forall g :: g in g2u && g != r.glyph ==> m[g] == g2u[g]
  {
    g2u[r.glyph := Get(g2u, r.glyph) + [r.codepoint]]
  }

  /** Registrations applied in order. */
  function RegisterAll(g2u: map<int, seq<int>>, regs: seq<Reg>): map<int, seq<int>>
    decreases |regs|
  {
    if regs == [] then g2u else RegisterAll(Register(g2u, regs[0]), regs[1..])
  }

  /** The codepoints the registrations give `glyph`, in registration order. */
  function CodepointsFor(regs: seq<Reg>, glyph: int): seq<int>
    decreases |regs|
  {
    if regs == [] then []
    else (if regs[0].glyph == glyph then [regs[0].codepoint] else []) + CodepointsFor(regs[1..], glyph)
  }

  /** Every codepoint the registrations mention: what they add to the `defined` bitset. */
  function Codepoints(regs: seq<Reg>): set<int>
    decreases |regs|
  {
    if regs == [] then {} else {regs[0].codepoint} + Codepoints(regs[1..])
  }

  /** Registering a batch keeps every earlier entry of every glyph and appends,
      at the end of each glyph's list, the codepoints registered for it in order;
      a glyph gains an entry exactly when some registration names it. */
  lemma RegisterAllAt(g2u: map<int, seq<int>>, regs: seq<Reg>, glyph: int)
    ensures Get(RegisterAll(g2u, regs), glyph) == Get(g2u, glyph) + CodepointsFor(regs, glyph)
    ensures glyph in RegisterAll(g2u, regs) <==> glyph in g2u || exists r :: r in regs && r.glyph == glyph
  {
    RegisterAllGet(g2u, regs, glyph);
    RegisterAllKeys(g2u, regs, glyph);
  }

  lemma {:induction false} RegisterAllGet(g2u: map<int, seq<int>>, regs: seq<Reg>, glyph: int)
    ensures Get(RegisterAll(g2u, regs), glyph) == Get(g2u, glyph) + CodepointsFor(regs, glyph)
    decreases |regs|
  {
    if regs == [] {
      assert Get(g2u, glyph) + [] == Get(g2u, glyph);
    } else {
      var r := regs[0];
      var base, here, rest := Get(g2u, glyph), (if r.glyph == glyph then [r.codepoint] else []), CodepointsFor(regs[1..], glyph);
      assert RegisterAll(g2u, regs) == RegisterAll(Register(g2u, r), regs[1..]);
      assert CodepointsFor(regs, glyph) == here + rest;
      RegisterAllGet(Register(g2u, r), regs[1..], glyph);
      GetRegister(g2u, r, glyph);
      ConcatAssoc(base, here, rest);
    }
  }

  /** One registration appends to the list of its own glyph only. */
  lemma GetRegister(g2u: map<int, seq<int>>, r: Reg, glyph: int)
    ensures Get(Register(g2u, r), glyph) == Get(g2u, glyph) + (if r.glyph == glyph then [r.codepoint] else [])
  {
    if r.glyph != glyph {
      assert Get(g2u, glyph) + [] == Get(g2u, glyph);
    }
  }

  lemma {:induction false} RegisterAllKeys(g2u: map<int, seq<int>>, regs: seq<Reg>, glyph: int)
    ensures glyph in RegisterAll(g2u, regs) <==> glyph in g2u || exists r :: r in regs && r.glyph == glyph
    decreases |regs|
  {
    if regs != [] {
      RegisterAllKeys(Register(g2u, regs[0]), regs[1..], glyph);
      assert forall r :: r in regs <==> r == regs[0] || r in regs[1..];
    }
  }


  lemma {:induction false} RegisterAllAppend(g2u: map<int, seq<int>>, xs: seq<Reg>, ys: seq<Reg>)
    ensures RegisterAll(g2u, xs + ys) == RegisterAll(RegisterAll(g2u, xs), ys)
    decreases |xs|
  {
    if xs != [] {
      assert (xs + ys)[0] == xs[0] && (xs + ys)[1..] == xs[1..] + ys;
      RegisterAllAppend(Register(g2u, xs[0]), xs[1..], ys);
    } else {
      assert xs + ys == ys;
    }
  }

  lemma {:induction false} CodepointsAppend(xs: seq<Reg>, ys: seq<Reg>)
    ensures Codepoints(xs + ys) == Codepoints(xs) + Codepoints(ys)
    decreases |xs|
  {
    if xs == [] {
      assert xs + ys == ys;
    } else {
      assert (xs + ys)[0] == xs[0] && (xs + ys)[1..] == xs[1..] + ys;
      CodepointsAppend(xs[1..], ys);
    }
  }

  /** The codepoints of a batch are exactly those its registrations name. */
  lemma {:induction false} CodepointsMembers(regs: seq<Reg>, c: int)
    ensures c in Codepoints(regs) <==> exists r :: r in regs && r.codepoint == c
    decreases |regs|
  {
    if regs != [] {
      CodepointsMembers(regs[1..], c);
      assert forall r :: r in regs <==> r == regs[0] || r in regs[1..];
    }
  }

  /** A registration of a batch ends up in the glyph's list. */
  lemma RegisteredCodepointIsListed(g2u: map<int, seq<int>>, regs: seq<Reg>, r: Reg)
    requires r in regs
    ensures r.glyph in RegisterAll(g2u, regs) && r.codepoint in RegisterAll(g2u, regs)[r.glyph]
  {
    RegisterAllAt(g2u, regs, r.glyph);
    CodepointsForHas(regs, r);
  }

  lemma {:induction false} CodepointsForHas(regs: seq<Reg>, r: Reg)
    requires r in regs
    ensures r.codepoint in CodepointsFor(regs, r.glyph)
    decreases |regs|
  {
    if regs[0] != r {
      CodepointsForHas(regs[1..], r);
    }
  }

  // ---------------------------------------------------------------- format 4

  /** One segment of a format-4 subtable, with the position of its idRangeOffset word. */
  datatype Segment = Segment(endCount: int, startCount: int, delta: int, rangeOffsetPos: int, rangeOffset: int)

  /** The four words of segment `segX2 / 2` from the endCode, startCode, idDelta
      and idRangeOffset arrays, which follow each other `segCountX2` bytes apart. */
  function ReadSegment(a: seq<Byte>, off: int, segCountX2: int, segX2: int): (r: Result<Segment>)
    ensures r.Ok? ==> 0 <= r.value.endCount < 65536 && 0 <= r.value.startCount < 65536
  {
    var endCount :- ReadUShort(a, off + 14 + segX2);
    var startCount :- ReadUShort(a, off + 16 + segX2 + segCountX2);
    var delta :- ReadShort(a, off + 16 + segX2 + segCountX2 * 2);
    var rangeOffsetPos := off + 16 + segX2 + segCountX2 * 3;
    var rangeOffset :- ReadUShort(a, rangeOffsetPos);
    Ok(Segment(endCount, startCount, delta, rangeOffsetPos, rangeOffset))
  }

  /** The last codepoint the reader visits in a segment: 0xFFFF is never visited. */
  function LastCode(seg: Segment): int {
    if seg.endCount == 65535 then 65534 else seg.endCount
  }

  /** The glyph the reader computes for codepoint `unicode` of a segment, given
      the glyph-index-array position it reads from. */
  function Glyph4(a: seq<Byte>, seg: Segment, unicode: int, glyphOffset: int): Result<int> {
    var raw :- if seg.rangeOffset != 0 then ReadUShort(a, glyphOffset) else Ok(unicode);
    Ok(if seg.rangeOffset == 0 || raw != 0 then (raw + seg.delta) % 65536 else raw)
  }

  /** The registrations of a segment from codepoint `unicode` on; `glyphOffset`
      walks the glyph index array two bytes per codepoint when idRangeOffset is not 0. */
  function SegmentRegs(a: seq<Byte>, seg: Segment, unicode: int, glyphOffset: int): Result<seq<Reg>>
    requires 0 <= seg.endCount < 65536
    decreases LastCode(seg) + 1 - unicode
  {
    if unicode > LastCode(seg) then Ok([])
    else
      var g :- Glyph4(a, seg, unicode, glyphOffset);
      var rest :- SegmentRegs(a, seg, unicode + 1, if seg.rangeOffset != 0 then glyphOffset + 2 else glyphOffset);
      Ok((if g != 0 then [Reg(g, unicode)] else []) + rest)
  }

  /** A glyph lookup that fails ends the segment with its error. */
  lemma SegmentRegsStops(a: seq<Byte>, seg: Segment, unicode: int, glyphOffset: int)
    requires 0 <= seg.endCount < 65536 && unicode <= LastCode(seg) && Glyph4(a, seg, unicode, glyphOffset).Err?
    ensures SegmentRegs(a, seg, unicode, glyphOffset) == Err(Glyph4(a, seg, unicode, glyphOffset).error)
  {
  }

  /** One codepoint of a segment: what is left after `done` is its registration,
      if any, then the rest of the segment. */
  lemma SegmentRegsAdvance(a: seq<Byte>, seg: Segment, unicode: int, glyphOffset: int, nextOffset: int,
                           step: seq<Reg>, done: seq<Reg>, spec: Result<seq<Reg>>)
    requires 0 <= seg.endCount < 65536 && unicode <= LastCode(seg) && Glyph4(a, seg, unicode, glyphOffset).Ok?
    requires step == (var glyph := Glyph4(a, seg, unicode, glyphOffset).value;
                      if glyph != 0 then [Reg(glyph, unicode)] else [])
    requires nextOffset == if seg.rangeOffset != 0 then glyphOffset + 2 else glyphOffset
    requires spec == Then(done, SegmentRegs(a, seg, unicode, glyphOffset))
    ensures spec == Then(done + step, SegmentRegs(a, seg, unicode + 1, nextOffset))
  {
    ThenThen(done, step, SegmentRegs(a, seg, unicode + 1, nextOffset));
  }

  /** Where the reader finds the glyph-index-array word for codepoint `c` of a
      segment: two bytes further for each codepoint after `startCount`. The
      position is not used when idRangeOffset is 0. */
  function GlyphOffset(seg: Segment, c: int): int {
    seg.rangeOffsetPos + seg.rangeOffset + (if seg.rangeOffset != 0 then 2 * (c - seg.startCount) else 0)
  }

  /** The glyph codepoint `c` of the segment maps to: `(c + idDelta) mod 65536`
      when idRangeOffset is 0; otherwise the glyph index array's word for `c`,
      plus idDelta mod 65536 when that word is not 0. */
  function SegmentGlyph(a: seq<Byte>, seg: Segment, c: int): Result<int> {
    Glyph4(a, seg, c, GlyphOffset(seg, c))
  }

  /** What a segment registers, codepoint by codepoint: every codepoint of
      `[startCount, endCount]` other than 0xFFFF whose glyph is not 0 is
      registered with that glyph, and nothing else is. */
  lemma {:induction false} SegmentRegsExact(a: seq<Byte>, seg: Segment, unicode: int, regs: seq<Reg>)
    requires 0 <= seg.endCount < 65536
    requires SegmentRegs(a, seg, unicode, GlyphOffset(seg, unicode)) == Ok(regs)
    ensures forall c :: unicode <= c <= LastCode(seg) ==> SegmentGlyph(a, seg, c).Ok?
    ensures forall c :: unicode <= c <= LastCode(seg) && SegmentGlyph(a, seg, c).value != 0 ==>
              Reg(SegmentGlyph(a, seg, c).value, c) in regs
    ensures forall x :: x in regs ==>
              unicode <= x.codepoint <= LastCode(seg) && x.codepoint != 65535 && 0 < x.glyph < 65536 &&
              SegmentGlyph(a, seg, x.codepoint) == Ok(x.glyph)
    decreases LastCode(seg) + 1 - unicode
  {
    if unicode <= LastCode(seg) {
      var go := GlyphOffset(seg, unicode);
      var g := Glyph4(a, seg, unicode, go).value;
      var next := if seg.rangeOffset != 0 then go + 2 else go;
      assert next == GlyphOffset(seg, unicode + 1);
      var rest := SegmentRegs(a, seg, unicode + 1, next).value;
      assert regs == (if g != 0 then [Reg(g, unicode)] else []) + rest;
      SegmentRegsExact(a, seg, unicode + 1, rest);
    }
  }

  /** With idRangeOffset 0 a segment maps each codepoint `c` of
      `[startCount, endCount]` other than 0xFFFF to glyph `(c + idDelta) & 0xFFFF`,
      and registers it unless that glyph is 0. */
  lemma DirectSegment(a: seq<Byte>, seg: Segment, c: int)
    requires 0 <= seg.endCount < 65536 && seg.rangeOffset == 0
    requires seg.startCount <= c <= LastCode(seg)
    requires SegmentRegs(a, seg, seg.startCount, seg.rangeOffsetPos).Ok?
    ensures (c + seg.delta) % 65536 != 0 ==>
              Reg((c + seg.delta) % 65536, c) in SegmentRegs(a, seg, seg.startCount, seg.rangeOffsetPos).value
  {
    assert GlyphOffset(seg, seg.startCount) == seg.rangeOffsetPos;
    SegmentRegsExact(a, seg, seg.startCount, SegmentRegs(a, seg, seg.startCount, seg.rangeOffsetPos).value);
    assert SegmentGlyph(a, seg, c) == Ok((c + seg.delta) % 65536);
  }

  /** The registrations of segments `segX2 / 2` onwards. */
  function Segments4(a: seq<Byte>, off: int, segCountX2: int, segX2: nat): Result<seq<Reg>>
    decreases segCountX2 - segX2
  {
    if segX2 >= segCountX2 then Ok([])
    else
      var seg :- ReadSegment(a, off, segCountX2, segX2);
      var here :- SegmentRegs(a, seg, seg.startCount, seg.rangeOffsetPos + seg.rangeOffset);
      var rest :- Segments4(a, off, segCountX2, segX2 + 2);
      Ok(here + rest)
  }

  /** The bounds part of `SegmentRegsExact`. */
  lemma SegmentRegsBounds(a: seq<Byte>, seg: Segment, unicode: int, regs: seq<Reg>)
    requires 0 <= seg.endCount < 65536 && 0 <= unicode
    requires SegmentRegs(a, seg, unicode, GlyphOffset(seg, unicode)) == Ok(regs)
    ensures forall x :: x in regs ==> 0 < x.glyph < 65536 && 0 <= x.codepoint < 65535
  {
    SegmentRegsExact(a, seg, unicode, regs);
  }

  /** Every registration of a format-4 table maps a codepoint below 0xFFFF
      to a glyph of 1 to 0xFFFF. */
  lemma {:induction false} Segments4Bounds(a: seq<Byte>, off: int, segCountX2: int, segX2: nat)
    requires Segments4(a, off, segCountX2, segX2).Ok?
    ensures forall x :: x in Segments4(a, off, segCountX2, segX2).value ==> 0 < x.glyph < 65536 && 0 <= x.codepoint < 65535
    decreases segCountX2 - segX2
  {
    if segX2 < segCountX2 {
      var seg := ReadSegment(a, off, segCountX2, segX2).value;
      assert GlyphOffset(seg, seg.startCount) == seg.rangeOffsetPos + seg.rangeOffset;
      var here := SegmentRegs(a, seg, seg.startCount, seg.rangeOffsetPos + seg.rangeOffset).value;
      SegmentRegsBounds(a, seg, seg.startCount, here);
      Segments4Bounds(a, off, segCountX2, segX2 + 2);
    }
  }

  /** A segment whose codepoints fail ends the table with its error. */
  lemma Segments4Stops(a: seq<Byte>, off: int, segCountX2: int, segX2: nat, seg: Segment)
    requires segX2 < segCountX2 && ReadSegment(a, off, segCountX2, segX2) == Ok(seg)
    requires SegmentRegs(a, seg, seg.startCount, seg.rangeOffsetPos + seg.rangeOffset).Err?
    ensures Segments4(a, off, segCountX2, segX2) ==
              Err(SegmentRegs(a, seg, seg.startCount, seg.rangeOffsetPos + seg.rangeOffset).error)
  {
  }

  /** One segment: what is left after `done` is its registrations, then those
      of the next segments. */
  lemma Segments4Advance(a: seq<Byte>, off: int, segCountX2: int, segX2: nat, seg: Segment,
                         segDone: seq<Reg>, done: seq<Reg>, spec: Result<seq<Reg>>)
    requires segX2 < segCountX2 && ReadSegment(a, off, segCountX2, segX2) == Ok(seg)
    requires SegmentRegs(a, seg, seg.startCount, seg.rangeOffsetPos + seg.rangeOffset) == Ok(segDone)
    requires spec == Then(done, Segments4(a, off, segCountX2, segX2))
    ensures spec == Then(done + segDone, Segments4(a, off, segCountX2, segX2 + 2))
  {
    ThenThen(done, segDone, Segments4(a, off, segCountX2, segX2 + 2));
  }

  function UnsupportedFormat(format: int): JavaException {
    IOException("Unsupported unicode table format: " + JavaText.IntToString(format))
  }

  /** `readCMAP_USC2`: a format-4 subtable at `off`; any other format is an IOException. */
  function Format4(a: seq<Byte>, off: int): (r: Result<seq<Reg>>)
    ensures ReadUShort(a, off).Ok? && ReadUShort(a, off).value != 4 ==>
              r == Err(UnsupportedFormat(ReadUShort(a, off).value))
  {
    var format :- ReadUShort(a, off);
    if format != 4 then Err(UnsupportedFormat(format))
    else
      var segCountX2 :- ReadUShort(a, off + 6);
      Segments4(a, off, segCountX2, 0)
  }

  // ---------------------------------------------------------------- format 12

  /** The registrations of one group: codepoints `start..end` inclusive, the
      first with `startGlyph` and each next one with the next glyph. */
  function RangeRegs(start: int, end: int, startGlyph: int): (r: seq<Reg>)
    ensures |r| == if end < start then 0 else end - start + 1
    ensures forall k :: 0 <= k < |r| ==> r[k] == Reg(startGlyph + k, start + k)
  {
    if end < start then [] else seq(end - start + 1, k => Reg(startGlyph + k, start + k))
  }

  /** The three fields of one 12-byte group record. */
  datatype Group = Group(startCharCode: int, endCharCode: int, startGlyphID: int)

  /** Group `group` of the subtable at `off`. The record holds three 32-bit
      fields at bytes 0, 4 and 8. The reader as written (`wide` false) takes a
      16-bit unsigned word at bytes 0 and 4 and a 16-bit signed word at byte 8,
      that is the high halves of the fields; `wide` reads the fields whole. */
  function ReadGroup(a: seq<Byte>, off: int, group: nat, wide: bool): Result<Group> {
    var at := off + 16 + group * 12;
    if wide then
      var startCharCode :- ReadInt(a, at);
      var endCharCode :- ReadInt(a, at + 4);
      var startGlyphID :- ReadInt(a, at + 8);
      Ok(Group(startCharCode, endCharCode, startGlyphID))
    else
      var startCharCode :- ReadUShort(a, at);
      var endCharCode :- ReadUShort(a, at + 4);
      var startGlyphID :- ReadShort(a, at + 8);
      Ok(Group(startCharCode, endCharCode, startGlyphID))
  }

  /** The registrations of groups `group` to `nGroups - 1`. A group whose
      range is not empty and starts below 0 fails at its first registration:
      the `defined` bitset refuses a negative index. */
  function Groups12(a: seq<Byte>, off: int, nGroups: int, group: nat, wide: bool): Result<seq<Reg>>
    decreases nGroups - group
  {
    if group >= nGroups then Ok([])
    else
      var g :- ReadGroup(a, off, group, wide);
      if g.startCharCode <= g.endCharCode && g.startCharCode < 0 then Err(IndexOutOfBounds)
      else
        var rest :- Groups12(a, off, nGroups, group + 1, wide);
        Ok(RangeRegs(g.startCharCode, g.endCharCode, g.startGlyphID) + rest)
  }

  /** Every registration of a format-12 table has a codepoint of at least 0. */
  lemma {:induction false} Groups12Bounds(a: seq<Byte>, off: int, nGroups: int, group: nat, wide: bool)
    requires Groups12(a, off, nGroups, group, wide).Ok?
    ensures forall x :: x in Groups12(a, off, nGroups, group, wide).value ==> x.codepoint >= 0
    decreases nGroups - group
  {
    if group < nGroups {
      Groups12Bounds(a, off, nGroups, group + 1, wide);
    }
  }

  /** A group starting at a negative character code ends the table with the
      bitset's index error. */
  lemma Groups12Stops(a: seq<Byte>, off: int, nGroups: int, group: nat, wide: bool, g: Group)
    requires group < nGroups && ReadGroup(a, off, group, wide) == Ok(g)
    requires g.startCharCode <= g.endCharCode && g.startCharCode < 0
    ensures Groups12(a, off, nGroups, group, wide) == Err(IndexOutOfBounds)
  {
  }

  /** One group: what is left after `done` is its range, then the next groups. */
  lemma Groups12Advance(a: seq<Byte>, off: int, nGroups: int, group: nat, wide: bool, g: Group,
                        done: seq<Reg>, spec: Result<seq<Reg>>)
    requires group < nGroups && ReadGroup(a, off, group, wide) == Ok(g)
    requires !(g.startCharCode <= g.endCharCode && g.startCharCode < 0)
    requires spec == Then(done, Groups12(a, off, nGroups, group, wide))
    ensures spec == Then(done + RangeRegs(g.startCharCode, g.endCharCode, g.startGlyphID),
                         Groups12(a, off, nGroups, group + 1, wide))
  {
    ThenThen(done, RangeRegs(g.startCharCode, g.endCharCode, g.startGlyphID), Groups12(a, off, nGroups, group + 1, wide));
  }

  /** A range grows by one registration at its end. */
  lemma RangeRegsSnoc(start: int, end: int, startGlyph: int)
    requires start <= end + 1
    ensures RangeRegs(start, end + 1, startGlyph) ==
              RangeRegs(start, end, startGlyph) + [Reg(startGlyph + (end + 1 - start), end + 1)]
  {
    var r := RangeRegs(start, end + 1, startGlyph);
    var q := RangeRegs(start, end, startGlyph) + [Reg(startGlyph + (end + 1 - start), end + 1)];
    assert |r| == |q|;
    forall k | 0 <= k < |r|
      ensures r[k] == q[k]
    {
    }
  }

  /** `readCMAP_USC4`: a format-12 subtable at `off`, the group count a signed 32-bit
      value at byte 12; any other format is an IOException. */
  function Format12(a: seq<Byte>, off: int, wide: bool): (r: Result<seq<Reg>>)
    ensures ReadUShort(a, off).Ok? && ReadUShort(a, off).value != 12 ==>
              r == Err(UnsupportedFormat(ReadUShort(a, off).value))
  {
    var format :- ReadUShort(a, off);
    if format != 12 then Err(UnsupportedFormat(format))
    else
      var nGroups :- ReadInt(a, off + 12);
      Groups12(a, off, nGroups, 0, wide)
  }

  /** Every group, as read, contributes each `i` from its start to its end
      inclusive, with glyph `startGlyphID + (i - startCharCode)`. */
  lemma {:induction false} GroupsRegisterRanges(a: seq<Byte>, off: int, nGroups: int, group: nat, wide: bool, k: nat, i: int)
    requires Groups12(a, off, nGroups, group, wide).Ok?
    requires group <= k < nGroups
    ensures ReadGroup(a, off, k, wide).Ok?
    ensures var g := ReadGroup(a, off, k, wide).value;
            g.startCharCode <= i <= g.endCharCode ==>
              Reg(g.startGlyphID + (i - g.startCharCode), i) in Groups12(a, off, nGroups, group, wide).value
    decreases nGroups - group
  {
    if k == group {
      var g := ReadGroup(a, off, k, wide).value;
      if g.startCharCode <= i <= g.endCharCode {
        var rr := RangeRegs(g.startCharCode, g.endCharCode, g.startGlyphID);
        assert rr[i - g.startCharCode] == Reg(g.startGlyphID + (i - g.startCharCode), i);
      }
    } else {
      GroupsRegisterRanges(a, off, nGroups, group + 1, wide, k, i);
    }
  }

  /** Registration `x` lies in the range of group `k`, as read, with that
      group's glyph for its codepoint. */
  predicate InGroupRange(a: seq<Byte>, off: int, k: nat, wide: bool, x: Reg) {
    ReadGroup(a, off, k, wide).Ok? &&
    var g := ReadGroup(a, off, k, wide).value;
    g.startCharCode <= x.codepoint <= g.endCharCode && x.glyph == g.startGlyphID + (x.codepoint - g.startCharCode)
  }

  /** The converse of `GroupsRegisterRanges`: every registration of the
      groups comes from the range of one of them. */
  lemma {:induction false} GroupsRegisterOnlyRanges(a: seq<Byte>, off: int, nGroups: int, group: nat, wide: bool, x: Reg)
    requires Groups12(a, off, nGroups, group, wide).Ok?
    requires x in Groups12(a, off, nGroups, group, wide).value
    ensures exists k :: group <= k < nGroups && InGroupRange(a, off, k, wide, x)
    decreases nGroups - group
  {
    var g := ReadGroup(a, off, group, wide).value;
    var rr := RangeRegs(g.startCharCode, g.endCharCode, g.startGlyphID);
    var rest := Groups12(a, off, nGroups, group + 1, wide);
    assert Groups12(a, off, nGroups, group, wide).value == rr + rest.value;
    if x in rr {
      var j :| 0 <= j < |rr| && rr[j] == x;
      assert InGroupRange(a, off, group, wide, x);
    } else {
      GroupsRegisterOnlyRanges(a, off, nGroups, group + 1, wide, x);
    }
  }

  /** The evidently intended reading: with the fields read whole, every
      group maps each codepoint from its 32-bit start field to its 32-bit end
      field, from the glyph its 32-bit start glyph field names. */
  lemma WideGroupsMapRanges(a: seq<Byte>, off: int, nGroups: int, k: nat, i: int)
    requires Groups12(a, off, nGroups, 0, true).Ok? && k < nGroups
    ensures ReadGroup(a, off, k, true).Ok?
    ensures var at, g := off + 16 + k * 12, ReadGroup(a, off, k, true).value;
            ReadInt(a, at).Ok? && ReadInt(a, at + 4).Ok? && ReadInt(a, at + 8).Ok? &&
            g == Group(ReadInt(a, at).value, ReadInt(a, at + 4).value, ReadInt(a, at + 8).value) &&
            (g.startCharCode <= i <= g.endCharCode ==>
               Reg(g.startGlyphID + (i - g.startCharCode), i) in Groups12(a, off, nGroups, 0, true).value)
  {
    GroupsRegisterRanges(a, off, nGroups, 0, true, k, i);
    WideGroupFields(a, off, k);
  }

  /** A group read whole holds the three 32-bit words of its record. */
  lemma WideGroupFields(a: seq<Byte>, off: int, k: nat)
    requires ReadGroup(a, off, k, true).Ok?
    ensures var at := off + 16 + k * 12;
            ReadInt(a, at).Ok? && ReadInt(a, at + 4).Ok? && ReadInt(a, at + 8).Ok? &&
            ReadGroup(a, off, k, true).value == Group(ReadInt(a, at).value, ReadInt(a, at + 4).value, ReadInt(a, at + 8).value)
  {
  }

  /** A format-12 subtable with one group mapping 'A'..'Z' to glyphs 3..28. */
  const UpperCaseTable: seq<Byte> := [
    0, 12, 0, 0,  0, 0, 0, 28,  0, 0, 0, 0,  0, 0, 0, 1,
    0, 0, 0, 0x41,  0, 0, 0, 0x5A,  0, 0, 0, 3]

  /** Read as written, the group above is taken as codepoint 0 to codepoint 0
      from glyph 0, so 'A'..'Z' stay unmapped and glyph 0 gets codepoint 0;
      read whole, it maps 'A'..'Z' to glyphs 3..28. */
  lemma UpperCaseTableReading()
    ensures Format12(UpperCaseTable, 0, false) == Ok([Reg(0, 0)])
    ensures Format12(UpperCaseTable, 0, true) == Ok(RangeRegs(0x41, 0x5A, 3))
    ensures |RangeRegs(0x41, 0x5A, 3)| == 26 && RangeRegs(0x41, 0x5A, 3)[0] == Reg(3, 0x41)
  {
    UpperCaseTableNarrow();
    UpperCaseTableWide();
  }

  /** The table's format, its group count, and its one group read either way. */
  lemma UpperCaseTableFields()
    ensures ReadUShort(UpperCaseTable, 0) == Ok(12) && ReadInt(UpperCaseTable, 12) == Ok(1)
    ensures ReadGroup(UpperCaseTable, 0, 0, false) == Ok(Group(0, 0, 0))
    ensures ReadGroup(UpperCaseTable, 0, 0, true) == Ok(Group(0x41, 0x5A, 3))
  {
    var t := UpperCaseTable;
    assert ReadInt(t, 16) == Ok(0x41);
    assert ReadInt(t, 20) == Ok(0x5A);
    assert ReadInt(t, 24) == Ok(3);
  }

  /** The table read with 16-bit group fields. */
  lemma UpperCaseTableNarrow()
    ensures Format12(UpperCaseTable, 0, false) == Ok([Reg(0, 0)])
  {
    var t := UpperCaseTable;
    UpperCaseTableFields();
    assert RangeRegs(0, 0, 0) == [Reg(0, 0)];
    assert Groups12(t, 0, 1, 1, false) == Ok([]);
    assert Groups12(t, 0, 1, 0, false) == Ok(RangeRegs(0, 0, 0) + []);
    assert RangeRegs(0, 0, 0) + [] == [Reg(0, 0)];
  }

  /** The table read with 32-bit group fields. */
  lemma UpperCaseTableWide()
    ensures Format12(UpperCaseTable, 0, true) == Ok(RangeRegs(0x41, 0x5A, 3))
    ensures |RangeRegs(0x41, 0x5A, 3)| == 26 && RangeRegs(0x41, 0x5A, 3)[0] == Reg(3, 0x41)
  {
    var t := UpperCaseTable;
    UpperCaseTableFields();
    assert Groups12(t, 0, 1, 1, true) == Ok([]);
    assert Groups12(t, 0, 1, 0, true) == Ok(RangeRegs(0x41, 0x5A, 3) + []);
    assert RangeRegs(0x41, 0x5A, 3) + [] == RangeRegs(0x41, 0x5A, 3);
  }



  // ---------------------------------------------------------------- the table

  /** The subtable the reader picks, with its offset inside 'cmap'. */
  datatype Subtable = Usc2(offset: int) | Usc4(offset: int)

  /** Encoding records `i` onwards: the first with platform 3 and encoding 1
      (a format-4 subtable) or encoding 10 (a format-12 subtable) is taken. */
  function FindUnicode(a: seq<Byte>, numCMap: int, i: nat): Result<Subtable>
    decreases numCMap - i
  {
    if i >= numCMap then Err(IOException("No unicode mapping table found"))
    else
      var pid :- ReadUShort(a, i * 8 + 4);
      var eid :- ReadUShort(a, i * 8 + 6);
      if pid == 3 && eid == 1 then
        var offset :- ReadInt(a, i * 8 + 8);
        Ok(Usc2(offset))
      else if pid == 3 && eid == 10 then
        var offset :- ReadInt(a, i * 8 + 8);
        Ok(Usc4(offset))
      else
        FindUnicode(a, numCMap, i + 1)
  }

  /** Encoding record `k` is a Windows Unicode one the reader accepts. */
  predicate IsUnicodeRecord(a: seq<Byte>, k: nat) {
    ReadUShort(a, k * 8 + 4) == Ok(3) && (ReadUShort(a, k * 8 + 6) == Ok(1) || ReadUShort(a, k * 8 + 6) == Ok(10))
  }

  /** `readCMAP`: the registrations of the chosen subtable. `wide` selects
      the reading of the format-12 group fields, as in `Format12`. */
  function CmapRegs(a: seq<Byte>, wide: bool): Result<seq<Reg>> {
    var numCMap :- ReadUShort(a, 2);
    var st :- FindUnicode(a, numCMap, 0);
    match st
    case Usc2(offset) => Format4(a, offset)
    case Usc4(offset) => Format12(a, offset, wide)
  }

  /** When every encoding record from `i` on can be read and none is
      accepted, the reader fails with "No unicode mapping table found". */
  lemma {:induction false} NoUnicodeRecordFails(a: seq<Byte>, numCMap: int, i: nat)
    requires forall j :: i <= j < numCMap ==> ReadUShort(a, j * 8 + 6).Ok? && !IsUnicodeRecord(a, j)
    ensures FindUnicode(a, numCMap, i) == Err(IOException("No unicode mapping table found"))
    decreases numCMap - i
  {
    if i < numCMap {
      assert ReadUShort(a, i * 8 + 4).Ok?;
      NoUnicodeRecordFails(a, numCMap, i + 1);
    }
  }

  /** The first accepted encoding record decides the subtable and the search
      stops there: encoding 1 selects format 4, encoding 10 format 12, at the
      32-bit offset the record holds. */
  lemma {:induction false} FirstUnicodeRecordWins(a: seq<Byte>, numCMap: int, i: nat, k: nat)
    requires i <= k < numCMap && IsUnicodeRecord(a, k)
    requires forall j :: i <= j < k ==> ReadUShort(a, j * 8 + 6).Ok? && !IsUnicodeRecord(a, j)
    ensures ReadInt(a, k * 8 + 8).Err? ==> FindUnicode(a, numCMap, i) == Err(ReadInt(a, k * 8 + 8).error)
    ensures ReadInt(a, k * 8 + 8).Ok? && ReadUShort(a, k * 8 + 6) == Ok(1) ==>
              FindUnicode(a, numCMap, i) == Ok(Usc2(ReadInt(a, k * 8 + 8).value))
    ensures ReadInt(a, k * 8 + 8).Ok? && ReadUShort(a, k * 8 + 6) == Ok(10) ==>
              FindUnicode(a, numCMap, i) == Ok(Usc4(ReadInt(a, k * 8 + 8).value))
    decreases k - i
  {
    if i < k {
      assert ReadUShort(a, i * 8 + 4).Ok?;
      FirstUnicodeRecordWins(a, numCMap, i + 1, k);
    }
  }

  /** Every codepoint the 'cmap' table registers is at least 0. */
  lemma CmapCodepoints(a: seq<Byte>, wide: bool)
    requires CmapRegs(a, wide).Ok?
    ensures forall x :: x in CmapRegs(a, wide).value ==> x.codepoint >= 0
  {
    var numCMap := ReadUShort(a, 2).value;
    match FindUnicode(a, numCMap, 0).value
    case Usc2(offset) =>
      var segCountX2 := ReadUShort(a, offset + 6).value;
      Segments4Bounds(a, offset, segCountX2, 0);
    case Usc4(offset) =>
      var nGroups := ReadInt(a, offset + 12).value;
      Groups12Bounds(a, offset, nGroups, 0, wide);
  }
}
