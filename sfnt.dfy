/** The sfnt container of a TrueType/OpenType file: the table directory, the
    lookup of a table ("section") by its four-character tag, the units-per-em
    field of 'head' and the display name built from the 'name' table.
    The file is an in-memory byte sequence; reads past its end are the
    EOFException that RandomAccessFile.readFully throws. */
module Sfnt {
  import opened Wrappers
  import opened Bytes
  import JavaText

  /** The directory: the table count at byte 4, then 16 bytes per table from
      byte 12. With no tables the read is empty and succeeds wherever the seek
      to byte 12 lands, even past the end of the file. */
  function ReadDirTable(file: seq<Byte>): (r: Result<seq<Byte>>)
    ensures r.Ok? <==> |file| >= 6 && (ReadUShort(file, 4).value == 0 || |file| >= 12 + 16 * ReadUShort(file, 4).value)
    ensures r.Ok? ==> |r.value| == 16 * ReadUShort(file, 4).value
    ensures r.Ok? && |r.value| > 0 ==> 12 + |r.value| <= |file| && r.value == file[12..12 + |r.value|]
    ensures r.Err? ==> r.error == EndOfFile
  {
    if |file| < 6 then Err(EndOfFile)
    else
      var ntabs := ReadUShort(file, 4).value;
      if ntabs == 0 then Ok([])
      else if |file| < 12 + ntabs * 16 then Err(EndOfFile)
      else Ok(file[12..12 + ntabs * 16])
  }

  /** The bytes `[offset, offset + length)` of the file, read the way the loader
      allocates, seeks and reads them: a negative length fails the allocation,
      a negative offset fails the seek, and a non-empty read past the end of
      the file fails; an empty read succeeds wherever the seek lands. */
  function SectionAt(file: seq<Byte>, offset: int, length: int): (r: Result<seq<Byte>>)
    ensures r.Ok? <==> 0 <= length && 0 <= offset && (length == 0 || offset + length <= |file|)
    ensures r.Ok? ==> |r.value| == length
    ensures r.Ok? && length > 0 ==> r.value == file[offset..offset + length]
  {
    if length < 0 then Err(NegativeArraySize)
    else if offset < 0 then Err(IOException("Negative seek offset"))
    else if length == 0 then Ok([])
    else if offset + length > |file| then Err(EndOfFile)
    else Ok(file[offset..offset + length])
  }

  /** Whether the directory entry starting at byte `i` carries `tag`, comparing
      the signed directory bytes from position `j` on and stopping at the first mismatch. */
  function TagMatchesFrom(dir: seq<Byte>, i: nat, tag: string, j: nat): Result<bool>
    requires |tag| == 4 && j <= 4
    decreases 4 - j
  {
    if j == 4 then Ok(true)
    else if i + j >= |dir| then Err(IndexOutOfBounds)
    else if SignedByte(dir[i + j]) != tag[j] as int then Ok(false)
    else TagMatchesFrom(dir, i, tag, j + 1)
  }

  /** The section of the first entry, from byte `i` of the directory on, whose tag is `tag`. */
  function LookupFrom(file: seq<Byte>, dir: seq<Byte>, tag: string, i: nat): Result<Option<seq<Byte>>>
    requires |tag| == 4
    decreases |dir| - i
  {
    if i >= |dir| then Ok(None)
    else
      var m :- TagMatchesFrom(dir, i, tag, 0);
      if m then
        var offset :- ReadInt(dir, i + 8);
        var length :- ReadInt(dir, i + 12);
        var s :- SectionAt(file, offset, length);
        Ok(Some(s))
      else
        LookupFrom(file, dir, tag, i + 16)
  }

  /** Entry `k` of a directory carries `tag`. */
  predicate EntryHasTag(dir: seq<Byte>, k: nat, tag: string)
    requires |tag| == 4 && 16 * k + 16 <= |dir|
  {
    forall j :: 0 <= j < 4 ==> SignedByte(dir[16 * k + j]) == tag[j] as int
  }

  /** The section entry `k` of a well-formed directory describes. */
  function EntrySection(file: seq<Byte>, dir: seq<Byte>, k: nat): Result<seq<Byte>>
    requires 16 * k + 16 <= |dir|
  {
    SectionAt(file, ReadInt(dir, 16 * k + 8).value, ReadInt(dir, 16 * k + 12).value)
  }

  lemma {:induction false} TagMatchesFromMeaning(dir: seq<Byte>, i: nat, tag: string, j: nat)
    requires |tag| == 4 && j <= 4 && i + 16 <= |dir|
    ensures TagMatchesFrom(dir, i, tag, j).Ok?
    ensures TagMatchesFrom(dir, i, tag, j).value <==>
              forall m :: j <= m < 4 ==> SignedByte(dir[i + m]) == tag[m] as int
    decreases 4 - j
  {
    if j < 4 && SignedByte(dir[i + j]) == tag[j] as int {
      TagMatchesFromMeaning(dir, i, tag, j + 1);
    }
  }

  /** Looking a tag up in a directory of whole entries finds the FIRST entry
      with that tag and reads the section it describes; with no such entry
      there is no section and no failure. */
  /** With no entry from `k0` on carrying `tag`, the lookup finds no section. */
  lemma {:induction false} LookupMissing(file: seq<Byte>, dir: seq<Byte>, tag: string, k0: nat)
    requires |tag| == 4 && |dir| % 16 == 0 && 16 * k0 <= |dir|
    requires forall k :: k0 <= k < |dir| / 16 ==> !EntryHasTag(dir, k, tag)
    ensures LookupFrom(file, dir, tag, 16 * k0) == Ok(None)
    decreases |dir| - 16 * k0
  {
    if 16 * k0 < |dir| {
      TagMatchesFromMeaning(dir, 16 * k0, tag, 0);
      assert !EntryHasTag(dir, k0, tag);
      LookupMissing(file, dir, tag, k0 + 1);
    }
  }

  /** When entry `k` is the first from `k0` on carrying `tag`, the lookup reads its section. */
  lemma {:induction false} LookupFirst(file: seq<Byte>, dir: seq<Byte>, tag: string, k0: nat, k: nat)
    requires |tag| == 4 && |dir| % 16 == 0 && k0 <= k && 16 * k + 16 <= |dir|
    requires EntryHasTag(dir, k, tag) && forall j :: k0 <= j < k ==> !EntryHasTag(dir, j, tag)
    ensures LookupFrom(file, dir, tag, 16 * k0) ==
              (match EntrySection(file, dir, k) case Ok(s) => Ok(Some(s)) case Err(e) => Err(e))
    decreases k - k0
  {
    TagMatchesFromMeaning(dir, 16 * k0, tag, 0);
    if k0 < k {
      assert !EntryHasTag(dir, k0, tag);
      LookupFirst(file, dir, tag, k0 + 1, k);
    }
  }

  /** Looking a tag up in a directory of whole entries finds the FIRST entry
      with that tag and reads the section it describes; with no such entry
      there is no section and no failure. */
  lemma LookupFindsFirstEntry(file: seq<Byte>, dir: seq<Byte>, tag: string, k0: nat)
    requires |tag| == 4 && |dir| % 16 == 0 && 16 * k0 <= |dir|
    ensures (forall k :: k0 <= k < |dir| / 16 ==> !EntryHasTag(dir, k, tag)) ==>
              LookupFrom(file, dir, tag, 16 * k0) == Ok(None)
    ensures forall k :: k0 <= k < |dir| / 16 && EntryHasTag(dir, k, tag) &&
                        (forall j :: k0 <= j < k ==> !EntryHasTag(dir, j, tag)) ==>
              LookupFrom(file, dir, tag, 16 * k0) ==
                (match EntrySection(file, dir, k) case Ok(s) => Ok(Some(s)) case Err(e) => Err(e))
  {
    if forall k :: k0 <= k < |dir| / 16 ==> !EntryHasTag(dir, k, tag) {
      LookupMissing(file, dir, tag, k0);
    }
    forall k | k0 <= k < |dir| / 16 && EntryHasTag(dir, k, tag) &&
               (forall j :: k0 <= j < k ==> !EntryHasTag(dir, j, tag))
      ensures LookupFrom(file, dir, tag, 16 * k0) ==
                (match EntrySection(file, dir, k) case Ok(s) => Ok(Some(s)) case Err(e) => Err(e))
    {
      LookupFirst(file, dir, tag, k0, k);
    }
  }

  /** `readSectionOptional`: scan the directory entry by entry; the first entry
      whose tag matches gives the section. */
  method ReadSectionOptional(file: seq<Byte>, dir: seq<Byte>, tag: string) returns (r: Result<Option<seq<Byte>>>)
    requires |tag| == 4
    ensures r == LookupFrom(file, dir, tag, 0)
  {
    var i := 0;
    while i < |dir|
      invariant LookupFrom(file, dir, tag, 0) == LookupFrom(file, dir, tag, i)
      decreases |dir| - i
    {
      var matched := true;
      var j := 0;
      while j < 4
        invariant 0 <= j <= 4
        invariant TagMatchesFrom(dir, i, tag, 0) ==
                    if matched then TagMatchesFrom(dir, i, tag, j) else Ok(false)
        invariant !matched ==> j < 4
        decreases 4 - j, matched
      {
        if i + j >= |dir| {
          return Err(IndexOutOfBounds);
        }
        if SignedByte(dir[i + j]) != tag[j] as int {
          matched := false;
          break;
        }
        j := j + 1;
      }
      if matched {
        var offset :- ReadInt(dir, i + 8);
        var length :- ReadInt(dir, i + 12);
        var section :- SectionAt(file, offset, length);
        return Ok(Some(section));
      }
      i := i + 16;
    }
    return Ok(None);
  }

  /** `readSection`: as ReadSectionOptional, but a missing table is an IOException. */
  method ReadSection(file: seq<Byte>, dir: seq<Byte>, tag: string) returns (r: Result<seq<Byte>>)
    requires |tag| == 4
    ensures LookupFrom(file, dir, tag, 0) == Ok(None) ==> r == Err(IOException("Missing '" + tag + "' section"))
    ensures LookupFrom(file, dir, tag, 0).Ok? && LookupFrom(file, dir, tag, 0).value.Some? ==>
              r == Ok(LookupFrom(file, dir, tag, 0).value.value)
    ensures LookupFrom(file, dir, tag, 0).Err? ==> r == Err(LookupFrom(file, dir, tag, 0).error)
  {
    var section :- ReadSectionOptional(file, dir, tag);
    if section.None? {
      return Err(IOException("Missing '" + tag + "' section"));
    }
    return Ok(section.value);
  }

  /** `readUPEM`: the unsigned 16-bit units-per-em at byte 18 of 'head'. */
  function ReadUpem(head: seq<Byte>): (r: Result<int>)
    ensures r.Ok? <==> |head| >= 20
    ensures r.Ok? ==> 0 <= r.value < TwoTo16 && r.value == head[18] as int * 256 + head[19] as int
  {
    ReadUShort(head, 18)
  }
}
