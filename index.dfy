/**
 * The archive header and the entry index (SCArchive.hpp): `SCAHeader`,
 * `SCAEntry`, their on-disk records, and the first-match lookup that
 * `SCAFile::find_entry` performs over the entry array.
 */
module Index {
  import opened Bytes
  import Wrappers

  /** `SCAEntry::Kind`; `Unknown` stands for any other value read back from a damaged file. */
  datatype Kind = None | Stub | Blob | Code | Unknown(value: u32)
  {
    predicate Valid() { Unknown? ==> value > 3 }
  }

  function KindValue(k: Kind): u32
  {
    match k
    case None => 0
    case Stub => 1
    case Blob => 2
    case Code => 3
    case Unknown(v) => v
  }

  function KindOf(v: u32): (k: Kind)
    ensures k.Valid()
  {
    if v == 0 then None
    else if v == 1 then Stub
    else if v == 2 then Blob
    else if v == 3 then Code
    else Unknown(v)
  }

  lemma KindRoundTrip(k: Kind)
    requires k.Valid()
    ensures KindOf(KindValue(k)) == k
  {
  }

  /** The blob id `store_exception_blob` and `load_exception_blob` agree on. */
  const BLOB_ID: u32 := 999

  /** One `SCAEntry`: offsets of the name, code and relocations relative to the entry's block at `offset`. */
  datatype SCAEntry = SCAEntry(
    offset: u32,
    nameOffset: u32,
    nameSize: u32,
    codeOffset: u32,
    codeSize: u32,
    relocOffset: u32,
    relocSize: u32,
    kind: Kind,
    id: u32,
    idx: u32,
    decompile: u32,
    notEntrant: bool)
  {
    predicate Valid() { kind.Valid() }
  }

  /** The full `SCAEntry` constructor: every argument lands in its field, not entrant. */
  function NewEntry(offset: u32, nameOffset: u32, nameSize: u32, codeOffset: u32, codeSize: u32,
                    relocOffset: u32, relocSize: u32, kind: Kind, id: u32, idx: u32,
                    decomp: u32 := 0): (e: SCAEntry)
    ensures e.offset == offset && e.nameOffset == nameOffset && e.nameSize == nameSize
    ensures e.codeOffset == codeOffset && e.codeSize == codeSize
    ensures e.relocOffset == relocOffset && e.relocSize == relocSize
    ensures e.kind == kind && e.id == id && e.idx == idx && e.decompile == decomp
    ensures !e.notEntrant
  {
    SCAEntry(offset, nameOffset, nameSize, codeOffset, codeSize, relocOffset, relocSize,
             kind, id, idx, decomp, false)
  }

  /** The default `SCAEntry` constructor. */
  function DefaultEntry(): (e: SCAEntry)
    ensures e.kind == None && !e.notEntrant
    ensures e.offset == 0 && e.nameOffset == 0 && e.nameSize == 0 && e.codeOffset == 0
    ensures e.codeSize == 0 && e.relocOffset == 0 && e.relocSize == 0
    ensures e.id == 0 && e.idx == 0 && e.decompile == 0
  {
    NewEntry(0, 0, 0, 0, 0, 0, 0, None, 0, 0)
  }

  /** `set_not_entrant` on a copy of the record. */
  function SetNotEntrant(e: SCAEntry): (r: SCAEntry)
  {
    e.(notEntrant := true)
  }

  /** `set_not_entrant` marks the record and touches no other field; doing it twice is doing it once. */
  lemma SetNotEntrantProperties(e: SCAEntry)
    ensures SetNotEntrant(e).notEntrant
    ensures SetNotEntrant(e).(notEntrant := e.notEntrant) == e
    ensures SetNotEntrant(SetNotEntrant(e)) == SetNotEntrant(e)
  {
  }

  // ---------------------------------------------------------------------
  // On-disk records. `SCAEntry` is ten `uint` fields and the `Kind` enum
  // (eleven 4-byte words), a `bool` at byte 44 and 3 bytes of padding,
  // 48 bytes in all; `SCAHeader` is four `uint` fields.

  const ENTRY_SIZE: nat := 48
  const HEADER_SIZE: nat := 16

  /** `uint` words laid out one after another, each little-endian. */
  function Words(w: seq<u32>): (r: seq<byte>)
    ensures |r| == 4 * |w|
  {
    if w == [] then [] else U32Bytes(w[0]) + Words(w[1..])
  }

  /** Word `k` of a word block occupies bytes `4 * k` to `4 * k + 4`. */
  lemma {:induction false} WordsAt(w: seq<u32>, k: nat)
    requires k < |w|
    ensures Words(w)[4 * k..4 * k + 4] == U32Bytes(w[k])
  {
    if k > 0 {
      WordsAt(w[1..], k - 1);
      SliceOfBack(U32Bytes(w[0]), Words(w[1..]), 4 * (k - 1), 4 * (k - 1) + 4);
    }
  }

  /** The eleven 4-byte words of an entry: its ten `uint` fields and its `Kind`, in declaration order. */
  function EntryWords(e: SCAEntry): seq<u32>
  {
    [e.offset, e.nameOffset, e.nameSize, e.codeOffset, e.codeSize, e.relocOffset,
     e.relocSize, KindValue(e.kind), e.id, e.idx, e.decompile]
  }

  function EncodeEntry(e: SCAEntry): (r: seq<byte>)
    ensures |r| == ENTRY_SIZE
  {
    Words(EntryWords(e)) + [if e.notEntrant then 1 else 0] + Zeros(3)
  }

  /** The `uint` stored at byte `4 * k` of a record. */
  function Word(s: seq<byte>, k: nat): u32
    requires 4 * k + 4 <= |s|
  {
    DecodeU32(s[4 * k..4 * k + 4])
  }

  function DecodeEntry(s: seq<byte>): SCAEntry
    requires |s| == ENTRY_SIZE
  {
    SCAEntry(Word(s, 0), Word(s, 1), Word(s, 2), Word(s, 3), Word(s, 4), Word(s, 5), Word(s, 6),
             KindOf(Word(s, 7)), Word(s, 8), Word(s, 9), Word(s, 10), s[44] != 0)
  }

  /** Reading word `k` of a block that starts with a word block gives back the word written there. */
  lemma WordOfBlock(w: seq<u32>, rest: seq<byte>, k: nat)
    requires k < |w|
    ensures Word(Words(w) + rest, k) == w[k]
  {
    WordsAt(w, k);
    SliceOfFront(Words(w), rest, 4 * k, 4 * k + 4);
    U32RoundTrip(w[k]);
  }

  /** An entry record read back is the entry that was written. */
  lemma EntryRoundTrip(e: SCAEntry)
    requires e.Valid()
    ensures DecodeEntry(EncodeEntry(e)) == e
  {
    var w := EntryWords(e);
    var tail := [if e.notEntrant then 1 else 0] + Zeros(3);
    assert EncodeEntry(e) == Words(w) + tail;
    forall k | 0 <= k < 11 ensures Word(EncodeEntry(e), k) == w[k] {
      WordOfBlock(w, tail, k);
    }
    assert EncodeEntry(e)[44] == tail[0];
    KindRoundTrip(e.kind);
  }

  function EncodeEntries(es: seq<SCAEntry>): (r: seq<byte>)
    ensures |r| == ENTRY_SIZE * |es|
  {
    if es == [] then [] else EncodeEntry(es[0]) + EncodeEntries(es[1..])
  }

  function DecodeEntries(s: seq<byte>, count: nat): (r: seq<SCAEntry>)
    requires |s| == ENTRY_SIZE * count
    ensures |r| == count
  {
    if count == 0 then [] else [DecodeEntry(s[..ENTRY_SIZE])] + DecodeEntries(s[ENTRY_SIZE..], count - 1)
  }

  /** Decoding an encoded array peels off one record at a time. */
  lemma DecodeEncodedEntries(es: seq<SCAEntry>)
    requires es != []
    ensures DecodeEntries(EncodeEntries(es), |es|)
      == [DecodeEntry(EncodeEntry(es[0]))] + DecodeEntries(EncodeEntries(es[1..]), |es| - 1)
  {
    var head, rest := EncodeEntry(es[0]), EncodeEntries(es[1..]);
    assert (head + rest)[..ENTRY_SIZE] == head && (head + rest)[ENTRY_SIZE..] == rest;
  }

  /** The entry array `finish_write` stores is the array `find_entry` reads back. */
  lemma {:induction false} EntriesRoundTrip(es: seq<SCAEntry>)
    requires forall i :: 0 <= i < |es| ==> es[i].Valid()
    ensures DecodeEntries(EncodeEntries(es), |es|) == es
  {
    if es != [] {
      DecodeEncodedEntries(es);
      EntryRoundTrip(es[0]);
      EntriesRoundTrip(es[1..]);
      assert es == [es[0]] + es[1..];
    }
  }

  /** Entries encoded at offset `o` of a file decode back from there. */
  lemma EntriesAt(img: seq<byte>, o: nat, es: seq<SCAEntry>)
    requires forall i :: 0 <= i < |es| ==> es[i].Valid()
    requires o + ENTRY_SIZE * |es| <= |img| && img[o..o + ENTRY_SIZE * |es|] == EncodeEntries(es)
    ensures DecodeEntries(img[o..o + ENTRY_SIZE * |es|], |es|) == es
  {
    EntriesRoundTrip(es);
  }

  /** The fields of `SCAHeader` as a value. */
  datatype HeaderImage = HeaderImage(version: u32, entriesCount: u32, archiveSize: u32, entriesOffset: u32)

  function EncodeHeader(h: HeaderImage): (r: seq<byte>)
    ensures |r| == HEADER_SIZE
  {
    Words([h.version, h.entriesCount, h.archiveSize, h.entriesOffset])
  }

  function DecodeHeader(s: seq<byte>): HeaderImage
    requires |s| == HEADER_SIZE
  {
    HeaderImage(Word(s, 0), Word(s, 1), Word(s, 2), Word(s, 3))
  }

  lemma HeaderRoundTrip(h: HeaderImage)
    ensures DecodeHeader(EncodeHeader(h)) == h
  {
    var w := [h.version, h.entriesCount, h.archiveSize, h.entriesOffset];
    forall k | 0 <= k < 4 ensures Word(EncodeHeader(h), k) == w[k] {
      WordOfBlock(w, [], k);
      assert Words(w) + [] == Words(w);
    }
  }

  /** `SCAHeader`: the record at offset 0 of the archive. */
  class SCAHeader {
    var version: u32
    var entriesCount: u32
    var archiveSize: u32
    var entriesOffset: u32

    constructor ()
      ensures version == 0 && entriesCount == 0 && archiveSize == 0 && entriesOffset == 0
    {
      version, entriesCount, archiveSize, entriesOffset := 0, 0, 0, 0;
    }

    function Image(): HeaderImage
      reads this
    {
      HeaderImage(version, entriesCount, archiveSize, entriesOffset)
    }

    /** `init`: overwrites exactly the four fields; the `int` count is stored as `uint`. */
    method Init(version: u32, count: i32, archiveSize: u32, entriesOffset: u32)
      modifies this
      ensures Image() == HeaderImage(version, U32Of(count), archiveSize, entriesOffset)
    {
      this.version := version;
      this.entriesCount := U32Of(count);
      this.archiveSize := archiveSize;
      this.entriesOffset := entriesOffset;
    }

    /** The header record read from the file overlays all four fields. */
    method Load(s: seq<byte>)
      requires |s| == HEADER_SIZE
      modifies this
      ensures Image() == DecodeHeader(s)
    {
      version, entriesCount, archiveSize, entriesOffset := Word(s, 0), Word(s, 1), Word(s, 2), Word(s, 3);
    }

    /** `next_idx`: returns the current entry count, then increments it (as a `uint`). */
    method NextIdx() returns (idx: u32)
      modifies this`entriesCount
      ensures idx == old(entriesCount)
      ensures entriesCount == U32Of(old(entriesCount) + 1)
    {
      idx := entriesCount;
      entriesCount := U32Of(entriesCount + 1);
    }
  }

  // ---------------------------------------------------------------------
  // Lookup.

  predicate Matches(e: SCAEntry, kind: Kind, id: u32)
  {
    e.kind == kind && e.id == id
  }

  /** The first index at or after `i` whose entry matches `(kind, id)`. */
  function FindFrom(es: seq<SCAEntry>, kind: Kind, id: u32, i: nat): (r: Wrappers.Option<nat>)
    requires i <= |es|
    ensures r.Some? ==> i <= r.value < |es| && Matches(es[r.value], kind, id)
    ensures r.Some? ==> forall j :: i <= j < r.value ==> !Matches(es[j], kind, id)
    ensures r.None? ==> forall j :: i <= j < |es| ==> !Matches(es[j], kind, id)
    decreases |es| - i
  {
    if i == |es| then Wrappers.None
    else if Matches(es[i], kind, id) then Wrappers.Some(i)
    else FindFrom(es, kind, id, i + 1)
  }

  /** What `find_entry` answers once the array is loaded: the first match, or null. */
  function FindFirst(es: seq<SCAEntry>, kind: Kind, id: u32): (r: Wrappers.Option<nat>)
  {
    FindFrom(es, kind, id, 0)
  }

  /** `entries[i].idx == i`, with the index kept as the `uint` that `next_idx` hands out. */
  predicate Indexed(es: seq<SCAEntry>)
  {
    forall i :: 0 <= i < |es| ==> es[i].idx == U32Of(i)
  }

  /**
   * `find_entry` returns the first entry matching both kind and id, null
   * exactly when none matches, and on an indexed array the entry found
   * carries its own position as `idx`.
   */
  lemma FindFirstSpec(es: seq<SCAEntry>, kind: Kind, id: u32)
    ensures FindFirst(es, kind, id).None? <==> forall j :: 0 <= j < |es| ==> !Matches(es[j], kind, id)
    ensures FindFirst(es, kind, id).Some? ==>
      var i := FindFirst(es, kind, id).value;
      && i < |es| && Matches(es[i], kind, id)
      && (forall j :: 0 <= j < i ==> !Matches(es[j], kind, id))
      && (Indexed(es) && |es| <= U32_MODULUS ==> es[i].idx == i)
  {
  }
}
