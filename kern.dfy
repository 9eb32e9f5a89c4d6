/** The 'kern' table as the font reader decodes it: subtable by subtable,
    horizontal format-0 pair lists become kerning entries, other formats are
    reported to the log, and every subtable is skipped by its own length. */
module Kern {
  import opened Wrappers
  import opened Bytes

  /** What reading the table does, in order: store one pair, or log one
      unsupported horizontal subtable format. */
  datatype KernEvent =
    | Pair(from: int, to: int, kpx: int)
    | Unsupported(format: int, version: int)

  /** The format-0 pair records `pair` onwards, six bytes each from `offset`:
      left glyph, right glyph, signed adjustment; zero adjustments are dropped. */
  function Pairs0(a: seq<Byte>, offset: int, numPairs: int, pair: nat): Result<seq<KernEvent>>
    decreases numPairs - pair
  {
    if pair >= numPairs then Ok([])
    else
      var from :- ReadUShort(a, offset);
      var to :- ReadUShort(a, offset + 2);
      var kpx :- ReadShort(a, offset + 4);
      var rest :- Pairs0(a, offset + 6, numPairs, pair + 1);
      Ok((if kpx != 0 then [Pair(from, to, kpx)] else []) + rest)
  }

  /** Every event of a format-0 list is a non-zero 16-bit adjustment between
      two 16-bit glyph indices. */
  lemma {:induction false} Pairs0WellFormed(a: seq<Byte>, offset: int, numPairs: int, pair: nat)
    requires Pairs0(a, offset, numPairs, pair).Ok?
    ensures forall e :: e in Pairs0(a, offset, numPairs, pair).value ==>
              e.Pair? && e.kpx != 0 && 0 <= e.from < TwoTo16 && 0 <= e.to < TwoTo16 && -TwoTo15 <= e.kpx < TwoTo15
    decreases numPairs - pair
  {
    if pair < numPairs {
      Pairs0WellFormed(a, offset + 6, numPairs, pair + 1);
    }
  }

  /** A pair record that cannot be read ends the list with the read's error. */
  lemma Pairs0Stops(a: seq<Byte>, offset: int, numPairs: int, pair: nat)
    requires pair < numPairs
    requires ReadUShort(a, offset).Err? || ReadUShort(a, offset + 2).Err? || ReadShort(a, offset + 4).Err?
    ensures Pairs0(a, offset, numPairs, pair) ==
              Err(if ReadUShort(a, offset).Err? then ReadUShort(a, offset).error
                  else if ReadUShort(a, offset + 2).Err? then ReadUShort(a, offset + 2).error
                  else ReadShort(a, offset + 4).error)
  {
  }

  /** One pair record: what is left after `done` is its event, unless its
      adjustment is 0, then the next records. */
  lemma Pairs0Advance(a: seq<Byte>, offset: int, numPairs: int, pair: nat, from: int, to: int, kpx: int,
                      done: seq<KernEvent>, spec: Result<seq<KernEvent>>)
    requires pair < numPairs
    requires ReadUShort(a, offset) == Ok(from) && ReadUShort(a, offset + 2) == Ok(to) && ReadShort(a, offset + 4) == Ok(kpx)
    requires spec == Then(done, Pairs0(a, offset, numPairs, pair))
    ensures spec == Then(done + (if kpx != 0 then [Pair(from, to, kpx)] else []), Pairs0(a, offset + 6, numPairs, pair + 1))
  {
    ThenThen(done, if kpx != 0 then [Pair(from, to, kpx)] else [], Pairs0(a, offset + 6, numPairs, pair + 1));
  }

  /** Whether the coverage word marks a horizontal subtable: `(coverage & 3) == 1`. */
  predicate IsHorizontal(coverage: int) { coverage % 4 == 1 }

  /** The format of a subtable: the high byte of its coverage word. */
  function FormatOf(coverage: int): int { coverage / 256 }

  /** The events of the subtable starting at `tableOffset` with this coverage word. */
  function SubtableEvents(a: seq<Byte>, version: int, tableOffset: int, coverage: int): (r: Result<seq<KernEvent>>)
    ensures !IsHorizontal(coverage) ==> r == Ok([])
    ensures IsHorizontal(coverage) && FormatOf(coverage) != 0 ==> r == Ok([Unsupported(FormatOf(coverage), version)])
  {
    if IsHorizontal(coverage) then
      if FormatOf(coverage) == 0 then
        var numPairs :- ReadUShort(a, tableOffset + 6);
        Pairs0(a, tableOffset + 14, numPairs, 0)
      else
        Ok([Unsupported(FormatOf(coverage), version)])
    else
      Ok([])
  }

  /** Subtables `table` to `nTables - 1`, the first of them at `tableOffset`;
      the next one starts `length` bytes further, whatever the subtable held. */
  function Subtables(a: seq<Byte>, version: int, nTables: int, table: nat, tableOffset: int): Result<seq<KernEvent>>
    decreases nTables - table
  {
    if table >= nTables then Ok([])
    else
      var tableLength :- ReadInt(a, tableOffset);
      var coverage :- ReadUShort(a, tableOffset + 4);
      var here :- SubtableEvents(a, version, tableOffset, coverage);
      var rest :- Subtables(a, version, nTables, table + 1, tableOffset + tableLength);
      Ok(here + rest)
  }

  /** A subtable whose pairs cannot be read ends the table with that error. */
  lemma SubtablesStops(a: seq<Byte>, version: int, nTables: int, table: nat, tableOffset: int, coverage: int)
    requires table < nTables && ReadInt(a, tableOffset).Ok? && ReadUShort(a, tableOffset + 4) == Ok(coverage)
    requires SubtableEvents(a, version, tableOffset, coverage).Err?
    ensures Subtables(a, version, nTables, table, tableOffset) == Err(SubtableEvents(a, version, tableOffset, coverage).error)
  {
  }

  /** One subtable: what is left after `done` is its events, then the
      subtables from `length` bytes further on. */
  lemma SubtablesAdvance(a: seq<Byte>, version: int, nTables: int, table: nat, tableOffset: int,
                         length: int, coverage: int, here: seq<KernEvent>,
                         done: seq<KernEvent>, spec: Result<seq<KernEvent>>)
    requires table < nTables && ReadInt(a, tableOffset) == Ok(length) && ReadUShort(a, tableOffset + 4) == Ok(coverage)
    requires SubtableEvents(a, version, tableOffset, coverage) == Ok(here)
    requires spec == Then(done, Subtables(a, version, nTables, table, tableOffset))
    ensures spec == Then(done + here, Subtables(a, version, nTables, table + 1, tableOffset + length))
  {
    ThenThen(done, here, Subtables(a, version, nTables, table + 1, tableOffset + length));
  }

  /** `readKERN` as a value: the version at byte 0, the subtable count at byte 2,
      the first subtable at byte 4. */
  function KernEvents(a: seq<Byte>): Result<seq<KernEvent>> {
    var version :- ReadUShort(a, 0);
    var nTables :- ReadUShort(a, 2);
    Subtables(a, version, nTables, 0, 4)
  }

  /** Every event of a decoded table is a non-zero pair adjustment between
      16-bit glyph indices, or the report of a horizontal subtable whose format
      is not 0. */
  lemma {:induction false} EventsWellFormed(a: seq<Byte>, version: int, nTables: int, table: nat, tableOffset: int)
    requires Subtables(a, version, nTables, table, tableOffset).Ok?
    ensures forall e :: e in Subtables(a, version, nTables, table, tableOffset).value ==>
              (e.Pair? && e.kpx != 0 && 0 <= e.from < TwoTo16 && 0 <= e.to < TwoTo16) ||
              (e.Unsupported? && 0 < e.format < 256 && e.version == version)
    decreases nTables - table
  {
    if table < nTables {
      var tableLength := ReadInt(a, tableOffset).value;
      var coverage := ReadUShort(a, tableOffset + 4).value;
      if IsHorizontal(coverage) && FormatOf(coverage) == 0 {
        Pairs0WellFormed(a, tableOffset + 14, ReadUShort(a, tableOffset + 6).value, 0);
      }
      EventsWellFormed(a, version, nTables, table + 1, tableOffset + tableLength);
    }
  }

  // ---------------------------------------------------------------- the kerning map

  /** The adjustments stored for a left glyph so far. */
  function Row(kerning: map<int, map<int, int>>, from: int): map<int, int> {
    if from in kerning then kerning[from] else map[]
  }

  /** `addKerning`: store `kpx` for (from, to), replacing any earlier value. */
  function AddKerning(kerning: map<int, map<int, int>>, from: int, to: int, kpx: int): (k: map<int, map<int, int>>)
    ensures k.Keys == kerning.Keys + {from}
    ensures k[from] == Row(kerning, from)[to := kpx]
    ensures forall f :: f in kerning && f != from ==> k[f] == kerning[f]
  {
    kerning[from := Row(kerning, from)[to := kpx]]
  }

  /** The pair events applied in order; log events leave the map alone. */
  function ApplyKern(kerning: map<int, map<int, int>>, events: seq<KernEvent>): map<int, map<int, int>>
    decreases |events|
  {
    if events == [] then kerning
    else
      var k := if events[0].Pair? then AddKerning(kerning, events[0].from, events[0].to, events[0].kpx) else kerning;
      ApplyKern(k, events[1..])
  }

  /** The log events, in order. */
  function Warnings(events: seq<KernEvent>): (w: seq<KernEvent>)
    ensures forall e :: e in w ==> e.Unsupported? && e in events
    decreases |events|
  {
    if events == [] then []
    else (if events[0].Unsupported? then [events[0]] else []) + Warnings(events[1..])
  }

  /** The adjustment stored for (from, to), if any. */
  function Lookup(kerning: map<int, map<int, int>>, from: int, to: int): Option<int> {
    if from in kerning && to in kerning[from] then Some(kerning[from][to]) else None
  }

  /** The adjustment of the LAST pair event for (from, to), if any. */
  function LastKpx(events: seq<KernEvent>, from: int, to: int): Option<int>
    decreases |events|
  {
    if events == [] then None
    else
      var e := events[|events| - 1];
      if e.Pair? && e.from == from && e.to == to then Some(e.kpx) else LastKpx(events[..|events| - 1], from, to)
  }

  lemma ApplyKernSnoc(kerning: map<int, map<int, int>>, events: seq<KernEvent>, e: KernEvent)
    ensures ApplyKern(kerning, events + [e]) ==
              var k := ApplyKern(kerning, events);
              if e.Pair? then AddKerning(k, e.from, e.to, e.kpx) else k
    decreases |events|
  {
    if events != [] {
      assert (events + [e])[1..] == events[1..] + [e];
      var k := if events[0].Pair? then AddKerning(kerning, events[0].from, events[0].to, events[0].kpx) else kerning;
      ApplyKernSnoc(k, events[1..], e);
    }
  }

  lemma {:induction false} ApplyKernAppend(kerning: map<int, map<int, int>>, xs: seq<KernEvent>, ys: seq<KernEvent>)
    ensures ApplyKern(kerning, xs + ys) == ApplyKern(ApplyKern(kerning, xs), ys)
    decreases |xs|
  {
    if xs == [] {
      assert xs + ys == ys;
    } else {
      assert (xs + ys)[0] == xs[0] && (xs + ys)[1..] == xs[1..] + ys;
      var k := if xs[0].Pair? then AddKerning(kerning, xs[0].from, xs[0].to, xs[0].kpx) else kerning;
      ApplyKernAppend(k, xs[1..], ys);
    }
  }

  /** Pair events log nothing. */
  lemma {:induction false} WarningsOfPairs(events: seq<KernEvent>)
    requires forall e :: e in events ==> e.Pair?
    ensures Warnings(events) == []
    decreases |events|
  {
    if events != [] {
      assert events[0] in events;
      assert forall e :: e in events[1..] ==> e in events;
      WarningsOfPairs(events[1..]);
    }
  }

  lemma {:induction false} WarningsAppend(xs: seq<KernEvent>, ys: seq<KernEvent>)
    ensures Warnings(xs + ys) == Warnings(xs) + Warnings(ys)
    decreases |xs|
  {
    if xs == [] {
      assert xs + ys == ys;
    } else {
      assert (xs + ys)[0] == xs[0] && (xs + ys)[1..] == xs[1..] + ys;
      WarningsAppend(xs[1..], ys);
    }
  }

  /** Overwrite order: after applying a batch, the adjustment for (from, to) is
      the one of the last pair for it in the batch, or what was stored before
      when the batch has no pair for it. */
  lemma {:induction false} LastPairWins(kerning: map<int, map<int, int>>, events: seq<KernEvent>, from: int, to: int)
    ensures Lookup(ApplyKern(kerning, events), from, to) ==
              match LastKpx(events, from, to)
              case Some(v) => Some(v)
              case None => Lookup(kerning, from, to)
    decreases |events|
  {
    if events != [] {
      var init := events[..|events| - 1];
      var e := events[|events| - 1];
      assert events == init + [e];
      ApplyKernSnoc(kerning, init, e);
      LastPairWins(kerning, init, from, to);
    }
  }

  /** No stored adjustment is 0. */
  predicate NoZeroAdjustment(kerning: map<int, map<int, int>>) {
    forall f, t :: f in kerning && t in kerning[f] ==> kerning[f][t] != 0
  }

  /** A stored adjustment is never zero when the pairs applied are the ones a
      decoded table yields. */
  lemma {:induction false} NoZeroStored(kerning: map<int, map<int, int>>, events: seq<KernEvent>)
    requires NoZeroAdjustment(kerning)
    requires forall e :: e in events && e.Pair? ==> e.kpx != 0
    ensures NoZeroAdjustment(ApplyKern(kerning, events))
    decreases |events|
  {
    if events != [] {
      var k := if events[0].Pair? then AddKerning(kerning, events[0].from, events[0].to, events[0].kpx) else kerning;
      assert events[0] in events;
      assert forall e :: e in events[1..] ==> e in events;
      forall f, t | f in k && t in k[f]
        ensures k[f][t] != 0
      {
        if events[0].Pair? && f == events[0].from && t != events[0].to {
          assert k[f][t] == Row(kerning, f)[t];
        }
      }
      NoZeroStored(k, events[1..]);
      assert ApplyKern(kerning, events) == ApplyKern(k, events[1..]);
    }
  }
}
