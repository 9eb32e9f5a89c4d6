/** The 'name' table: the family (name ID 1) and subfamily (name ID 2)
    strings, and the display name the font is known by. */
module NameTable {
  import opened Wrappers
  import opened Bytes
  import JavaText

  /** `readString`: `len` bytes at `off`, decoded as UTF-16BE when the first
      of them is zero and as ISO-8859-1 otherwise; no bytes give "". */
  function ReadString(a: seq<Byte>, off: int, len: int): (r: Result<string>)
    ensures len <= 0 ==> r == Ok("")
    ensures len > 0 ==> (r.Ok? <==> 0 <= off && off + len <= |a|)
    ensures len > 0 && r.Ok? && a[off] != 0 ==> |r.value| == len
    ensures len > 0 && r.Ok? ==>
              r.value == if a[off] == 0 then JavaText.DecodeUtf16Be(a[off..off + len]) else JavaText.DecodeLatin1(a[off..off + len])
  {
    if len > 0 then
      if off < 0 || off + len > |a| then Err(IndexOutOfBounds)
      else if a[off] == 0 then Ok(JavaText.DecodeUtf16Be(a[off..off + len]))
      else Ok(JavaText.DecodeLatin1(a[off..off + len]))
    else Ok("")
  }

  /** A name record the reader keeps: its name ID (1 or 2) and its decoded text. */
  datatype NameString = NameString(nameID: int, text: string)

  /** Name record `k`: `None` when its platform is not Macintosh (1) or
      Microsoft (3), its encoding is not 0 or 1, or its name ID is neither 1 nor 2. */
  function Record(a: seq<Byte>, strOffset: int, k: nat): Result<Option<NameString>> {
    var platformID :- ReadUShort(a, k * 12 + 6);
    var encodingID :- ReadUShort(a, k * 12 + 8);
    if (platformID == 1 || platformID == 3) && (encodingID == 0 || encodingID == 1) then
      var nameID :- ReadUShort(a, k * 12 + 12);
      var length :- ReadUShort(a, k * 12 + 14);
      var offset :- ReadUShort(a, k * 12 + 16);
      if nameID == 1 || nameID == 2 then
        var text :- ReadString(a, strOffset + offset, length);
        Ok(Some(NameString(nameID, text)))
      else Ok(None)
    else Ok(None)
  }

  /** The (family, subfamily) pair after applying record `k` to `names`. */
  function Apply(names: (string, string), rec: Option<NameString>): (string, string) {
    match rec
    case None => names
    case Some(NameString(id, text)) => if id == 1 then (text, names.1) else (names.0, text)
  }

  /** Records `i` to `n - 1` applied in order, starting from `names`. */
  function NamesFrom(a: seq<Byte>, strOffset: int, n: int, i: nat, names: (string, string)): Result<(string, string)>
    decreases n - i
  {
    if i >= n then Ok(names)
    else
      var rec :- Record(a, strOffset, i);
      NamesFrom(a, strOffset, n, i + 1, Apply(names, rec))
  }

  /** The font's display name: the family alone when the subfamily is empty,
      "Regular" or "Roman"; otherwise family, a comma, and subfamily. */
  function DisplayName(family: string, subFamily: string): (r: string)
    ensures |r| >= |family| && r[..|family|] == family
    ensures |subFamily| == 0 || subFamily == "Regular" || subFamily == "Roman" <==> r == family
    ensures r != family ==> r == family + "," + subFamily
  {
    if |subFamily| == 0 || subFamily == "Regular" || subFamily == "Roman" then family
    else family + "," + subFamily
  }

  /** `readNAME` as a value: the record count at byte 2, the string storage offset at byte 4. */
  function NameOf(a: seq<Byte>): Result<string> {
    var numStrings :- ReadUShort(a, 2);
    var strOffset :- ReadUShort(a, 4);
    var names :- NamesFrom(a, strOffset, numStrings, 0, ("", ""));
    Ok(DisplayName(names.0, names.1))
  }

  /** `readNAME`: one pass over the name records; a later record with the same
      name ID replaces an earlier one. */
  method ReadName(a: seq<Byte>) returns (r: Result<string>)
    ensures r == NameOf(a)
  {
    var numStrings :- ReadUShort(a, 2);
    var strOffset :- ReadUShort(a, 4);
    var familyName, subFamilyName := "", "";
    var i := 0;
    while i < numStrings
      invariant 0 <= i
      invariant NamesFrom(a, strOffset, numStrings, 0, ("", "")) ==
                  NamesFrom(a, strOffset, numStrings, i, (familyName, subFamilyName))
      decreases numStrings - i
    {
      var rec :- Record(a, strOffset, i);
      match rec {
        case None =>
        case Some(NameString(id, text)) =>
          if id == 1 {
            familyName := text;
          } else {
            subFamilyName := text;
          }
      }
      i := i + 1;
    }
    return Ok(DisplayName(familyName, subFamilyName));
  }

  /** Reading one more record applies it on top of what the earlier records gave. */
  lemma {:induction false} NamesFromAppend(a: seq<Byte>, strOffset: int, n: nat, i: nat, names: (string, string))
    requires i <= n
    ensures NamesFrom(a, strOffset, n + 1, i, names) ==
              match NamesFrom(a, strOffset, n, i, names)
              case Err(e) => Err(e)
              case Ok(v) =>
                match Record(a, strOffset, n)
                case Err(e) => Err(e)
                case Ok(rec) => Ok(Apply(v, rec))
    decreases n - i
  {
    if i < n {
      match Record(a, strOffset, i)
      case Err(_) =>
      case Ok(rec) => NamesFromAppend(a, strOffset, n, i + 1, Apply(names, rec));
    }
  }

  /** A kept record has name ID 1 or 2. */
  lemma RecordNameIDs(a: seq<Byte>, strOffset: int, k: nat)
    ensures Record(a, strOffset, k).Ok? && Record(a, strOffset, k).value.Some? ==>
              Record(a, strOffset, k).value.value.nameID in {1, 2}
  {
  }

  /** Which records the reader keeps: exactly those whose platform is 1 or 3,
      whose encoding is 0 or 1, whose name ID is 1 or 2 and whose string reads;
      a kept record carries that name ID and string. A record whose platform
      or encoding does not match is skipped without reading further. */
  lemma RecordFilter(a: seq<Byte>, strOffset: int, k: nat)
    ensures var platformID, encodingID := ReadUShort(a, k * 12 + 6), ReadUShort(a, k * 12 + 8);
            var nameID, length, offset := ReadUShort(a, k * 12 + 12), ReadUShort(a, k * 12 + 14), ReadUShort(a, k * 12 + 16);
            (Record(a, strOffset, k).Ok? && Record(a, strOffset, k).value.Some?) <==>
              (platformID.Ok? && encodingID.Ok? &&
               (platformID.value == 1 || platformID.value == 3) && (encodingID.value == 0 || encodingID.value == 1) &&
               nameID.Ok? && length.Ok? && offset.Ok? && (nameID.value == 1 || nameID.value == 2) &&
               ReadString(a, strOffset + offset.value, length.value).Ok?)
    ensures var nameID, length, offset := ReadUShort(a, k * 12 + 12), ReadUShort(a, k * 12 + 14), ReadUShort(a, k * 12 + 16);
            Record(a, strOffset, k).Ok? && Record(a, strOffset, k).value.Some? ==>
              Record(a, strOffset, k).value.value ==
                NameString(nameID.value, ReadString(a, strOffset + offset.value, length.value).value)
    ensures var platformID, encodingID := ReadUShort(a, k * 12 + 6), ReadUShort(a, k * 12 + 8);
            platformID.Ok? && encodingID.Ok? &&
            !((platformID.value == 1 || platformID.value == 3) && (encodingID.value == 0 || encodingID.value == 1)) ==>
              Record(a, strOffset, k) == Ok(None)
  {
  }

  /** Record `k` has name ID `id` and is one the reader keeps. */
  predicate HasNameID(a: seq<Byte>, strOffset: int, k: nat, id: int) {
    Record(a, strOffset, k).Ok? && Record(a, strOffset, k).value.Some? &&
    Record(a, strOffset, k).value.value.nameID == id
  }

  /** The name slot `id` (1 for the family, 2 for the subfamily) of a pair. */
  function Slot(names: (string, string), id: int): string {
    if id == 1 then names.0 else names.1
  }

  /** Applying a record that is not kept, or that carries the other name ID,
      leaves slot `id` as it was. */
  lemma ApplyKeepsSlot(names: (string, string), rec: Option<NameString>, id: int)
    requires id == 1 || id == 2
    requires rec.Some? ==> rec.value.nameID in {1, 2} && rec.value.nameID != id
    ensures Slot(Apply(names, rec), id) == Slot(names, id)
  {
  }

  /** The last kept record with a given name ID wins: if record `k` is the last
      of the first `n` records with name ID `id`, a successful read of those
      records yields its text for that name. */
  lemma {:induction false} LastRecordWins(a: seq<Byte>, strOffset: int, n: nat, k: nat, id: int)
    requires k < n && (id == 1 || id == 2)
    requires HasNameID(a, strOffset, k, id)
    requires forall j :: k < j < n ==> !HasNameID(a, strOffset, j, id)
    requires NamesFrom(a, strOffset, n, 0, ("", "")).Ok?
    ensures var names := NamesFrom(a, strOffset, n, 0, ("", "")).value;
            (if id == 1 then names.0 else names.1) == Record(a, strOffset, k).value.value.text
  {
    NamesFromAppend(a, strOffset, n - 1, 0, ("", ""));
    var before := NamesFrom(a, strOffset, n - 1, 0, ("", ""));
    var rec := Record(a, strOffset, n - 1);
    assert before.Ok? && rec.Ok?;
    var after := Apply(before.value, rec.value);
    assert NamesFrom(a, strOffset, n, 0, ("", "")).value == after;
    if k < n - 1 {
      LastRecordWins(a, strOffset, n - 1, k, id);
      RecordNameIDs(a, strOffset, n - 1);
      assert !HasNameID(a, strOffset, n - 1, id);
      ApplyKeepsSlot(before.value, rec.value, id);
      assert Slot(after, id) == Slot(before.value, id);
    }
  }

  /** Two examples of display names: a bold face and a regular one. */
  lemma DisplayNameExamples()
    ensures DisplayName("Arial", "Bold") == "Arial,Bold"
    ensures DisplayName("Arial", "Regular") == "Arial"
  {
  }
}
