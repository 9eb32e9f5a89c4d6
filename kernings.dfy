/** Kerning export: glyph-pair adjustments in design units become
    (left codepoint, right codepoint, pixels) triples, expanded over every
    codepoint each glyph stands for and filtered by a character set. */
module Kernings {
  import opened Wrappers
  import opened Ordered

  /** The character set the export is filtered by. Only its two queries
      matter here: one for a single codepoint and one for a glyph's whole
      codepoint list (the `int[]` overload of `isIncluded`). */
  datatype CharSet = CharSet(isIncluded: int -> bool, isIncludedArray: seq<int> -> bool)

  /** One exported triple `{ lc, rc, value }`. */
  datatype Kerning = Kerning(left: int, right: int, value: int)

  /** `Math.round`: the nearest integer, halves rounded up, clamped to the `int` range. */
  function Round(x: real): (r: int)
    ensures IntMin <= r <= IntMax
  {
    var n := (x + 0.5).Floor;
    if n < IntMin then IntMin else if n > IntMax then IntMax else n
  }

  /** Within the `int` range, rounding moves a value by at most one half:
      up by at most a half, down by less than a half. */
  lemma RoundNearest(x: real)
    requires IntMin <= (x + 0.5).Floor <= IntMax
    ensures x - 0.5 < Round(x) as real <= x + 0.5
  {
  }

  /** `convertUnitToEm`: design units to pixels at `size` points,
      `round(units * size / upem)`. With `upem` 0 the quotient is NaN (rounded
      to 0) when `units * size` is 0, and an infinity (rounded to the nearest
      `int` bound) otherwise. */
  function ConvertUnitToEm(units: int, size: real, upem: int): (r: int)
    requires upem >= 0
    ensures IntMin <= r <= IntMax
  {
    var x := units as real * size;
    if upem == 0 then
      if x == 0.0 then 0 else if x > 0.0 then IntMax else IntMin
    else
      Round(x / upem as real)
  }

  /** With units per em set and a result inside the `int` range, the pixel
      value is the nearest integer to `units * size / upem`. */
  lemma ConvertNearest(units: int, size: real, upem: int)
    requires upem > 0
    requires IntMin <= (units as real * size / upem as real + 0.5).Floor <= IntMax
    ensures var x := units as real * size / upem as real;
            x - 0.5 < ConvertUnitToEm(units, size, upem) as real <= x + 0.5
  {
    RoundNearest(units as real * size / upem as real);
  }

  /** Without units per em the quotient is not a number when the product is
      0, which rounds to 0, and an infinity otherwise, which rounds to the
      `int` bound of its sign. */
  lemma ConvertWithoutUpem(units: int, size: real)
    ensures ConvertUnitToEm(units, size, 0) ==
              if units as real * size == 0.0 then 0 else if units as real * size > 0.0 then IntMax else IntMin
  {
  }

  /** A worked example: 100 units at 10 points with 1000 units per em is 1 pixel. */
  lemma ConvertExample()
    ensures ConvertUnitToEm(100, 10.0, 1000) == 1
  {
    assert (100 as real * 10.0 / 1000 as real + 0.5).Floor == 1;
  }

  // ---------------------------------------------------------------- expansion

  /** The triples for one left codepoint: one per included right codepoint, in order. */
  function RowFor(lc: int, rcs: seq<int>, value: int, cs: CharSet): seq<Kerning>
    decreases |rcs|
  {
    if rcs == [] then []
    else
      RowFor(lc, rcs[..|rcs| - 1], value, cs) +
      (if cs.isIncluded(rcs[|rcs| - 1]) then [Kerning(lc, rcs[|rcs| - 1], value)] else [])
  }

  /** `expandKerning` over codepoint lists: left codepoints in the outer loop,
      right codepoints in the inner one, both filtered by the character set. */
  function Expand(lcs: seq<int>, rcs: seq<int>, value: int, cs: CharSet): seq<Kerning>
    decreases |lcs|
  {
    if lcs == [] then []
    else
      Expand(lcs[..|lcs| - 1], rcs, value, cs) +
      (if cs.isIncluded(lcs[|lcs| - 1]) then RowFor(lcs[|lcs| - 1], rcs, value, cs) else [])
  }

  lemma {:induction false} RowForMembers(lc: int, rcs: seq<int>, value: int, cs: CharSet, t: Kerning)
    ensures t in RowFor(lc, rcs, value, cs) <==>
              t.left == lc && t.right in rcs && cs.isIncluded(t.right) && t.value == value
    decreases |rcs|
  {
    if rcs != [] {
      var init := rcs[..|rcs| - 1];
      assert rcs == init + [rcs[|rcs| - 1]];
      RowForMembers(lc, init, value, cs, t);
    }
  }

  /** A triple is expanded exactly when its left codepoint is one of the left
      glyph's, its right codepoint one of the right glyph's, both are in the
      character set, and it carries the pair's value. */
  lemma {:induction false} ExpandMembers(lcs: seq<int>, rcs: seq<int>, value: int, cs: CharSet, t: Kerning)
    ensures t in Expand(lcs, rcs, value, cs) <==>
              t.left in lcs && cs.isIncluded(t.left) && t.right in rcs && cs.isIncluded(t.right) && t.value == value
    decreases |lcs|
  {
    if lcs != [] {
      var init := lcs[..|lcs| - 1];
      assert lcs == init + [lcs[|lcs| - 1]];
      ExpandMembers(init, rcs, value, cs, t);
      RowForMembers(lcs[|lcs| - 1], rcs, value, cs, t);
    }
  }

  /** Left-codepoint-major order: the triples of earlier left codepoints all
      come before those of later ones, each left codepoint's row complete. */
  lemma {:induction false} ExpandLeftMajor(lcs1: seq<int>, lcs2: seq<int>, rcs: seq<int>, value: int, cs: CharSet)
    ensures Expand(lcs1 + lcs2, rcs, value, cs) == Expand(lcs1, rcs, value, cs) + Expand(lcs2, rcs, value, cs)
    decreases |lcs2|
  {
    if lcs2 == [] {
      assert lcs1 + lcs2 == lcs1;
    } else {
      var init := lcs2[..|lcs2| - 1];
      var last := lcs2[|lcs2| - 1];
      assert (lcs1 + lcs2)[..|lcs1 + lcs2| - 1] == lcs1 + init;
      assert (lcs1 + lcs2)[|lcs1 + lcs2| - 1] == last;
      ExpandLeftMajor(lcs1, init, rcs, value, cs);
    }
  }

  // ---------------------------------------------------------------- the export

  /** The glyph tables the export reads. */
  datatype Tables = Tables(
    kerning: map<int, map<int, int>>,
    glyphToUnicode: map<int, seq<int>>,
    size: real,
    upem: int)

  /** The glyph has codepoints and the character set accepts its whole list. */
  predicate GlyphIncluded(t: Tables, glyph: int, cs: CharSet) {
    glyph in t.glyphToUnicode && cs.isIncludedArray(t.glyphToUnicode[glyph])
  }

  /** The triples of the pairs (left, r) for the right glyphs `rs`, in order: a
      pair contributes when its right glyph is included and its value in
      pixels is not 0. */
  function PairsOf(t: Tables, cs: CharSet, left: int, rs: seq<int>): seq<Kerning>
    requires t.upem >= 0 && left in t.kerning && left in t.glyphToUnicode
    requires forall r :: r in rs ==> r in t.kerning[left]
    decreases |rs|
  {
    if rs == [] then []
    else
      var r := rs[|rs| - 1];
      var v := ConvertUnitToEm(t.kerning[left][r], t.size, t.upem);
      PairsOf(t, cs, left, rs[..|rs| - 1]) +
      (if GlyphIncluded(t, r, cs) && v != 0 then Expand(t.glyphToUnicode[left], t.glyphToUnicode[r], v, cs) else [])
  }

  lemma PairsOfSnoc(t: Tables, cs: CharSet, left: int, rs: seq<int>, r: int)
    requires t.upem >= 0 && left in t.kerning && left in t.glyphToUnicode
    requires forall x :: x in rs ==> x in t.kerning[left]
    requires r in t.kerning[left]
    ensures PairsOf(t, cs, left, rs + [r]) ==
              var v := ConvertUnitToEm(t.kerning[left][r], t.size, t.upem);
              PairsOf(t, cs, left, rs) +
              (if GlyphIncluded(t, r, cs) && v != 0 then Expand(t.glyphToUnicode[left], t.glyphToUnicode[r], v, cs) else [])
  {
    assert (rs + [r])[..|rs|] == rs;
  }

  /** The triples of one left glyph: its right glyphs in ascending order. */
  ghost function RowPairs(t: Tables, cs: CharSet, left: int): seq<Kerning>
    requires t.upem >= 0 && left in t.kerning && left in t.glyphToUnicode
  {
    SortedKeysSound(t.kerning[left].Keys);
    PairsOf(t, cs, left, SortedKeys(t.kerning[left].Keys))
  }

  /** The triples of the left glyphs `ls`, in order. */
  ghost function LeftsOf(t: Tables, cs: CharSet, ls: seq<int>): seq<Kerning>
    requires t.upem >= 0
    requires forall l :: l in ls ==> l in t.kerning
    decreases |ls|
  {
    if ls == [] then []
    else
      var l := ls[|ls| - 1];
      LeftsOf(t, cs, ls[..|ls| - 1]) +
      (if GlyphIncluded(t, l, cs) then RowPairs(t, cs, l) else [])
  }

  lemma LeftsOfSnoc(t: Tables, cs: CharSet, ls: seq<int>, l: int)
    requires t.upem >= 0
    requires forall x :: x in ls ==> x in t.kerning
    requires l in t.kerning
    ensures LeftsOf(t, cs, ls + [l]) ==
              LeftsOf(t, cs, ls) + (if GlyphIncluded(t, l, cs) then RowPairs(t, cs, l) else [])
  {
    assert (ls + [l])[..|ls|] == ls;
  }

  /** `getKernings(charSet)`: every left glyph in ascending order. */
  ghost function KerningsOf(t: Tables, cs: CharSet): seq<Kerning>
    requires t.upem >= 0
  {
    SortedKeysSound(t.kerning.Keys);
    LeftsOf(t, cs, SortedKeys(t.kerning.Keys))
  }

  /** The pair (left, right) of the kerning table produces triple `k`. */
  ghost predicate Produces(t: Tables, cs: CharSet, left: int, right: int, k: Kerning)
    requires t.upem >= 0
  {
    left in t.kerning && right in t.kerning[left] &&
    GlyphIncluded(t, left, cs) && GlyphIncluded(t, right, cs) &&
    k.value == ConvertUnitToEm(t.kerning[left][right], t.size, t.upem) && k.value != 0 &&
    k.left in t.glyphToUnicode[left] && cs.isIncluded(k.left) &&
    k.right in t.glyphToUnicode[right] && cs.isIncluded(k.right)
  }

  lemma {:induction false} PairsOfMembers(t: Tables, cs: CharSet, left: int, rs: seq<int>, k: Kerning)
    requires t.upem >= 0 && left in t.kerning && GlyphIncluded(t, left, cs)
    requires forall r :: r in rs ==> r in t.kerning[left]
    ensures k in PairsOf(t, cs, left, rs) <==> exists r :: r in rs && Produces(t, cs, left, r, k)
    decreases |rs|
  {
    if rs != [] {
      var init := rs[..|rs| - 1];
      var r := rs[|rs| - 1];
      assert rs == init + [r];
      PairsOfSnoc(t, cs, left, init, r);
      PairsOfMembers(t, cs, left, init, k);
      if GlyphIncluded(t, r, cs) {
        ExpandMembers(t.glyphToUnicode[left], t.glyphToUnicode[r], ConvertUnitToEm(t.kerning[left][r], t.size, t.upem), cs, k);
      }
    }
  }

  lemma {:induction false} LeftsOfMembers(t: Tables, cs: CharSet, ls: seq<int>, k: Kerning)
    requires t.upem >= 0
    requires forall l :: l in ls ==> l in t.kerning
    ensures k in LeftsOf(t, cs, ls) <==> exists l, r :: l in ls && Produces(t, cs, l, r, k)
    decreases |ls|
  {
    if ls != [] {
      var init := ls[..|ls| - 1];
      var l := ls[|ls| - 1];
      assert ls == init + [l];
      LeftsOfMembers(t, cs, init, k);
      if GlyphIncluded(t, l, cs) {
        SortedKeysSound(t.kerning[l].Keys);
        PairsOfMembers(t, cs, l, SortedKeys(t.kerning[l].Keys), k);
      }
    }
  }

  /** The exported triples are exactly those some kerning pair produces: the
      value is the pair's non-zero adjustment in pixels, the left codepoint is
      one of the left glyph's and the right one of the right glyph's, both
      glyphs' codepoint lists and both codepoints pass the character set. */
  lemma KerningsExact(t: Tables, cs: CharSet, k: Kerning)
    requires t.upem >= 0
    ensures k in KerningsOf(t, cs) <==> exists l, r :: Produces(t, cs, l, r, k)
  {
    SortedKeysSound(t.kerning.Keys);
    LeftsOfMembers(t, cs, SortedKeys(t.kerning.Keys), k);
  }

  /** In particular no exported triple has the value 0. */
  lemma KerningsNonZero(t: Tables, cs: CharSet, k: Kerning)
    requires t.upem >= 0 && k in KerningsOf(t, cs)
    ensures k.value != 0 && cs.isIncluded(k.left) && cs.isIncluded(k.right)
  {
    KerningsExact(t, cs, k);
  }
}
