/**
 * The relocation block of a stored blob or nmethod:
 * `SCAFile::write_relocations` and `SCAFile::read_relocations`
 * (SCArchive.cpp). For each of the `SECT_LIMIT` code sections the block
 * holds the number of `relocInfo` records as an `int` and, when that is
 * not zero, the section's `locs_point` offset as an `int`, the two-byte
 * records, and one `size_t` of extra data per record: the address-table id
 * of the target of a runtime call or an external word, 0 for the other
 * kinds the archive supports.
 *
 * HotSpot's `RelocIterator` is replaced by the records themselves, one
 * relocation per record. The kind of a record (`relocInfo::type`) and
 * the address a call or external word refers to come with the input, as
 * `Env.typeOf` and `Reloc.target`; what the reader does to the code is
 * returned as one `Patch` per record.
 */
module Relocations {
  import opened Bytes
  import opened Wrappers
  import opened FileImage
  import opened AddressTable
  import Archive
  import CodeSections

  /** `relocInfo::relocType`, as far as the archive code names its kinds; `OtherType` is every other kind. */
  datatype RelocType =
    | NoneType | VirtualCall | OptVirtualCall | StaticCall | RuntimeCall | RuntimeCallWCp
    | ExternalWord | InternalWord | Poll | PollReturn | PostCallNop | OtherType

  /** `sizeof(relocInfo)` */
  const RELOC_INFO_SIZE: nat := 2

  /** One relocation: its `relocInfo` record, and the address its instruction refers to. */
  datatype Reloc = Reloc(info: u16, target: Addr)

  /** The relocations of one code section: `locs_point_off()` and the `locs_count()` records. */
  datatype RelocSection = RelocSection(locsPointOff: i32, relocs: seq<Reloc>)
  {
    /** The count fits the `int` it is written as. */
    predicate Valid() { |relocs| < 0x8000_0000 }
  }

  /** What `read_relocations` does to a relocation of the loaded code. */
  datatype Patch =
    | Keep                 // nothing to do
    | Retarget(addr: Addr) // `set_destination` / `set_value` to the address of the table id
    | Moved                // `fix_relocation_after_move` only

  /** One section as `read_relocations` restores it. */
  datatype LoadedSection = LoadedSection(locsPointOff: i32, infos: seq<u16>, patches: seq<Patch>)

  /** What both directions need from HotSpot: the kind of a record, the address table and the runtime. */
  datatype Env = Env(typeOf: u16 -> RelocType, table: TableView, rt: Runtime)
  {
    predicate Valid() { table.Valid() }
  }

  /** The environment of an archive whose address table is `table`. */
  function EnvOf(table: SCATable, typeOf: u16 -> RelocType, rt: Runtime): (env: Env)
    reads table, table.extrsAddr, table.stubsAddr, table.blobsAddr
    requires table.Valid()
    ensures env.Valid()
  {
    Env(typeOf, table.View(), rt)
  }

  // ---------------------------------------------------------------------
  // Writing.

  /** The extra-data word `write_relocations` records for a relocation, or `None` where it calls `fatal`. */
  function DataWord(env: Env, r: Reloc): Option<u64>
    requires env.Valid()
  {
    match env.typeOf(r.info)
    case RuntimeCall | ExternalWord =>
      var id := IdOf(env.table, env.rt, r.target);
      if id.Id? then Some(id.id) else Option.None
    case NoneType | InternalWord | Poll | PollReturn | PostCallNop => Some(0)
    case VirtualCall | OptVirtualCall | StaticCall | RuntimeCallWCp | OtherType => Option.None
  }

  /** Every relocation has its word: `write_relocations` does not reach a `fatal`. */
  predicate Encodable(env: Env, rs: seq<Reloc>)
    requires env.Valid()
  {
    forall j :: 0 <= j < |rs| ==> DataWord(env, rs[j]).Some?
  }

  function DataWords(env: Env, rs: seq<Reloc>): (ws: seq<u64>)
    requires env.Valid() && Encodable(env, rs)
    ensures |ws| == |rs| && forall j :: 0 <= j < |rs| ==> DataWord(env, rs[j]) == Some(ws[j])
  {
    seq(|rs|, j requires 0 <= j < |rs| => DataWord(env, rs[j]).value)
  }

  function Infos(rs: seq<Reloc>): (r: seq<u16>)
    ensures |r| == |rs| && forall j :: 0 <= j < |rs| ==> r[j] == rs[j].info
  {
    seq(|rs|, j requires 0 <= j < |rs| => rs[j].info)
  }

  /** The bytes `write_relocations` emits for one section. */
  function RelocSectionLayout(env: Env, sec: RelocSection): (r: seq<byte>)
    requires env.Valid() && sec.Valid() && Encodable(env, sec.relocs)
    ensures |r| == if |sec.relocs| == 0 then 4 else 8 + 10 * |sec.relocs|
  {
    var n := |sec.relocs|;
    if n == 0 then I32Bytes(0)
    else I32Bytes(n) + I32Bytes(sec.locsPointOff) + EncodeEach(Infos(sec.relocs), 2)
         + EncodeEach(DataWords(env, sec.relocs), 8)
  }

  /** Every section can be written: its count fits an `int` and no relocation is `fatal`. */
  predicate Writable(env: Env, secs: seq<RelocSection>)
    requires env.Valid()
  {
    forall i :: 0 <= i < |secs| ==> secs[i].Valid() && Encodable(env, secs[i].relocs)
  }

  /** The bytes `write_relocations` emits for the sections, in order. */
  function RelocLayout(env: Env, secs: seq<RelocSection>): seq<byte>
    requires env.Valid() && Writable(env, secs)
  {
    if secs == [] then [] else RelocSectionLayout(env, secs[0]) + RelocLayout(env, secs[1..])
  }

  /** The largest record count of the sections (`max_reloc_count`). */
  function MaxCount(secs: seq<RelocSection>): nat
  {
    if secs == [] then 0 else Max(MaxCount(secs[..|secs| - 1]), |secs[|secs| - 1].relocs|)
  }

  /** `max_reloc_count` is the maximum: every section's count is at most it, and some section's (or 0) equals it. */
  lemma {:induction false} MaxCountIsMaximum(secs: seq<RelocSection>)
    ensures forall i :: 0 <= i < |secs| ==> |secs[i].relocs| <= MaxCount(secs)
    ensures MaxCount(secs) == 0 || exists i :: 0 <= i < |secs| && |secs[i].relocs| == MaxCount(secs)
  {
    if secs != [] {
      var init := secs[..|secs| - 1];
      MaxCountIsMaximum(init);
      assert forall i :: 0 <= i < |init| ==> secs[i] == init[i];
    }
  }

  // ---------------------------------------------------------------------
  // Reading.

  /** What `read_relocations` does to a relocation with this record and word, or `None` where it calls `fatal`. */
  function PatchOf(env: Env, info: u16, word: u64): Option<Patch>
  {
    match env.typeOf(info)
    case RuntimeCall | ExternalWord =>
      var a := AddressFor(env.table, env.rt, word);
      if a.Address? then Some(Retarget(a.addr)) else Option.None
    case InternalWord => Some(Moved)
    case NoneType | Poll | PollReturn | PostCallNop => Some(Keep)
    case VirtualCall | OptVirtualCall | StaticCall | RuntimeCallWCp | OtherType => Option.None
  }

  predicate Patchable(env: Env, infos: seq<u16>, words: seq<u64>)
    requires |infos| == |words|
  {
    forall j :: 0 <= j < |infos| ==> PatchOf(env, infos[j], words[j]).Some?
  }

  function Patches(env: Env, infos: seq<u16>, words: seq<u64>): (ps: seq<Patch>)
    requires |infos| == |words| && Patchable(env, infos, words)
    ensures |ps| == |infos| && forall j :: 0 <= j < |infos| ==> PatchOf(env, infos[j], words[j]) == Some(ps[j])
  {
    seq(|infos|, j requires 0 <= j < |infos| => PatchOf(env, infos[j], words[j]).value)
  }

  /** The records held in `2 * count` bytes. */
  function DecodeInfos(s: seq<byte>, count: nat): (r: seq<u16>)
    requires |s| == 2 * count
    ensures |r| == count
  {
    var xs := DecodeEach(s, 2, count);
    assert forall i :: 0 <= i < count ==> xs[i] < 0x1_0000;
    xs
  }

  /** The extra-data words held in `8 * count` bytes. */
  function DecodeWords(s: seq<byte>, count: nat): (r: seq<u64>)
    requires |s| == 8 * count
    ensures |r| == count
  {
    var xs := DecodeEach(s, 8, count);
    assert forall i :: 0 <= i < count ==> xs[i] < U64_MODULUS;
    xs
  }

  /** The section `read_relocations` restores once its bytes are read, or a `fatal`. */
  function PatchSection(env: Env, locsPointOff: i32, infos: seq<u16>, words: seq<u64>, used: nat): Decoded<LoadedSection>
    requires |infos| == |words|
  {
    if Patchable(env, infos, words) then Decoded(LoadedSection(locsPointOff, infos, Patches(env, infos, words)), used)
    else Crash
  }

  /**
   * The extra-data words of a section whose records are `infos`, read
   * from the front of `s`, and the patches they give.
   */
  function DecodeRelocWords(s: seq<byte>, locsPointOff: i32, infos: seq<u16>, env: Env): (r: Decoded<LoadedSection>)
    ensures r.Decoded? ==> r.used <= |s|
  {
    var n := |infos|;
    if 8 * n >= U32_MODULUS || |s| < 8 * n then Short
    else PatchSection(env, locsPointOff, infos, DecodeWords(s[..8 * n], n), 8 * n)
  }

  /**
   * What follows the count and the `locs_point` offset of a non-empty
   * section, as `read_relocations` reads it from the front of `s` with
   * room for `maxCount` extra-data words: the records (a negative count
   * converts to a `size_t` too large to read), a refusal when the words
   * would not fit, then the words and the patches.
   */
  function DecodeRelocBody(s: seq<byte>, count: i32, locsPointOff: i32, maxCount: nat, env: Env)
    : (r: Decoded<LoadedSection>)
    ensures r.Decoded? ==> r.used <= |s|
    ensures r.Decoded? ==> |r.value.infos| == count <= maxCount && |r.value.patches| == count
  {
    if count <= 0 || |s| < 2 * count then Short
    else if count > maxCount then Refused
    else After(2 * count, DecodeRelocWords(s[2 * count..], locsPointOff, DecodeInfos(s[..2 * count], count), env))
  }

  /** One section as `read_relocations` reads it from the front of `s`: the count, then nothing more or the rest. */
  function DecodeRelocSection(s: seq<byte>, maxCount: nat, env: Env): (r: Decoded<LoadedSection>)
    ensures r.Decoded? ==> r.used <= |s|
    ensures r.Decoded? ==> |r.value.infos| <= maxCount && |r.value.patches| == |r.value.infos|
  {
    if |s| < 4 then Short
    else
      var count := DecodeI32(s[..4]);
      if count == 0 then Decoded(LoadedSection(0, [], []), 4)
      else if |s| < 8 then Short
      else After(8, DecodeRelocBody(s[8..], count, DecodeI32(s[4..8]), maxCount, env))
  }

  /** `n` sections as `read_relocations` reads them from the front of `s`. */
  function DecodeRelocSections(s: seq<byte>, maxCount: nat, env: Env, n: nat): (r: Decoded<seq<LoadedSection>>)
    ensures r.Decoded? ==> |r.value| == n && r.used <= |s|
  {
    if n == 0 then Decoded([], 0)
    else
      var r := DecodeRelocSection(s, maxCount, env);
      if r.Decoded? then Prepend([r.value], r.used, DecodeRelocSections(s[r.used..], maxCount, env, n - 1))
      else r.Fail()
  }

  // ---------------------------------------------------------------------
  // Round trip.

  /**
   * A relocation the archive can carry: a kind both sides support, and for
   * a call or an external word a target that `id_for_address` can encode.
   */
  predicate Restorable(env: Env, r: Reloc)
  {
    match env.typeOf(r.info)
    case RuntimeCall | ExternalWord => Registered(env.table, env.rt, r.target)
    case NoneType | InternalWord | Poll | PollReturn | PostCallNop => true
    case VirtualCall | OptVirtualCall | StaticCall | RuntimeCallWCp | OtherType => false
  }

  /** The patch the reader should apply: the original target for calls and external words. */
  function Expected(env: Env, r: Reloc): Patch
  {
    match env.typeOf(r.info)
    case RuntimeCall | ExternalWord => Retarget(r.target)
    case InternalWord => Moved
    case NoneType | Poll | PollReturn | PostCallNop | VirtualCall | OptVirtualCall
       | StaticCall | RuntimeCallWCp | OtherType => Keep
  }

  /** The section the reader should restore from `sec`. */
  function Loaded(env: Env, sec: RelocSection): LoadedSection
  {
    var rs := sec.relocs;
    LoadedSection(if rs == [] then 0 else sec.locsPointOff, Infos(rs),
                  seq(|rs|, j requires 0 <= j < |rs| => Expected(env, rs[j])))
  }

  /** One relocation: the word written decodes to the patch expected. */
  lemma RelocRoundTrip(env: Env, r: Reloc)
    requires env.Valid() && env.table.complete && Restorable(env, r)
    ensures DataWord(env, r).Some?
    ensures PatchOf(env, r.info, DataWord(env, r).value) == Some(Expected(env, r))
  {
    match env.typeOf(r.info)
    case RuntimeCall | ExternalWord =>
      IdRoundTrip(env.table, env.rt, r.target);
    case NoneType | InternalWord | Poll | PollReturn | PostCallNop =>
    case VirtualCall | OptVirtualCall | StaticCall | RuntimeCallWCp | OtherType =>
  }

  /** A section the archive can carry, with a count below `2^29` so that its words are one `write_bytes`. */
  predicate Carried(env: Env, sec: RelocSection)
  {
    |sec.relocs| < 0x2000_0000 && forall j :: 0 <= j < |sec.relocs| ==> Restorable(env, sec.relocs[j])
  }

  /** Words written for restorable relocations patch back to the expected patches. */
  lemma PatchesRoundTrip(env: Env, rs: seq<Reloc>)
    requires env.Valid() && env.table.complete
    requires forall j :: 0 <= j < |rs| ==> Restorable(env, rs[j])
    ensures Encodable(env, rs)
    ensures Patchable(env, Infos(rs), DataWords(env, rs))
    ensures Patches(env, Infos(rs), DataWords(env, rs)) == seq(|rs|, j requires 0 <= j < |rs| => Expected(env, rs[j]))
  {
    forall j | 0 <= j < |rs|
      ensures DataWord(env, rs[j]).Some? && PatchOf(env, rs[j].info, DataWord(env, rs[j]).value) == Some(Expected(env, rs[j]))
    {
      RelocRoundTrip(env, rs[j]);
    }
  }

  /** The records and words of a non-empty section, read back. */
  lemma RelocBodyRoundTrip(ib: seq<byte>, wb: seq<byte>, t: seq<byte>, lp: i32,
                           infos: seq<u16>, words: seq<u64>, maxCount: nat, env: Env)
    requires 0 < |infos| == |words| <= maxCount && |infos| < 0x2000_0000
    requires |ib| == 2 * |infos| && DecodeInfos(ib, |infos|) == infos
    requires |wb| == 8 * |infos| && DecodeWords(wb, |infos|) == words
    ensures DecodeRelocBody(ib + wb + t, |infos|, lp, maxCount, env)
            == PatchSection(env, lp, infos, words, 10 * |infos|)
  {
    Fields3Of(ib, wb, t);
    AppendAssoc(ib, wb, t);
    assert (ib + wb + t)[2 * |infos|..] == wb + t;
    assert (wb + t)[..8 * |infos|] == wb;
  }

  /** The four fields of a non-empty section, read back field by field. */
  lemma RelocFieldsRoundTrip(cb: seq<byte>, lb: seq<byte>, ib: seq<byte>, wb: seq<byte>, t: seq<byte>,
                             infos: seq<u16>, words: seq<u64>, maxCount: nat, env: Env)
    requires 0 < |infos| == |words| <= maxCount && |infos| < 0x2000_0000
    requires |cb| == 4 && DecodeI32(cb) == |infos| && |lb| == 4
    requires |ib| == 2 * |infos| && DecodeInfos(ib, |infos|) == infos
    requires |wb| == 8 * |infos| && DecodeWords(wb, |infos|) == words
    ensures DecodeRelocSection(cb + lb + ib + wb + t, maxCount, env)
            == PatchSection(env, DecodeI32(lb), infos, words, 8 + 10 * |infos|)
  {
    RelocBodyRoundTrip(ib, wb, t, DecodeI32(lb), infos, words, maxCount, env);
    Fields3Of(cb, lb, ib + wb + t);
    AppendAssoc(cb + lb, ib, wb);
    AppendAssoc(cb + lb, ib + wb, t);
  }

  /** A section written by `write_relocations` is read back by `read_relocations`, whatever follows it. */
  lemma RelocSectionRoundTrip(env: Env, sec: RelocSection, maxCount: nat, t: seq<byte>)
    requires env.Valid() && env.table.complete && Carried(env, sec) && |sec.relocs| <= maxCount
    ensures sec.Valid() && Encodable(env, sec.relocs)
    ensures DecodeRelocSection(RelocSectionLayout(env, sec) + t, maxCount, env)
            == Decoded(Loaded(env, sec), |RelocSectionLayout(env, sec)|)
  {
    var rs := sec.relocs;
    PatchesRoundTrip(env, rs);
    if rs == [] {
      I32RoundTrip(0);
    } else {
      var infos, words := Infos(rs), DataWords(env, rs);
      I32RoundTrip(|rs|);
      I32RoundTrip(sec.locsPointOff);
      EachRoundTrip(infos, 2);
      EachRoundTrip(words, 8);
      RelocFieldsRoundTrip(I32Bytes(|rs|), I32Bytes(sec.locsPointOff), EncodeEach(infos, 2), EncodeEach(words, 8), t,
                           infos, words, maxCount, env);
    }
  }

  predicate AllCarried(env: Env, secs: seq<RelocSection>)
  {
    forall i :: 0 <= i < |secs| ==> Carried(env, secs[i])
  }

  function AllLoaded(env: Env, secs: seq<RelocSection>): seq<LoadedSection>
  {
    seq(|secs|, i requires 0 <= i < |secs| => Loaded(env, secs[i]))
  }

  lemma CarriedAreWritable(env: Env, secs: seq<RelocSection>)
    requires env.Valid() && env.table.complete && AllCarried(env, secs)
    ensures Writable(env, secs)
  {
    forall i | 0 <= i < |secs| ensures secs[i].Valid() && Encodable(env, secs[i].relocs) {
      PatchesRoundTrip(env, secs[i].relocs);
    }
  }

  /** A section that consumes exactly `head`, then `n - 1` sections that consume exactly `tail`. */
  lemma DecodeRelocSectionsCons(head: seq<byte>, tail: seq<byte>, t: seq<byte>, x: LoadedSection,
                                xs: seq<LoadedSection>, maxCount: nat, env: Env, n: nat)
    requires n > 0 && DecodeRelocSection(head + (tail + t), maxCount, env) == Decoded(x, |head|)
    requires DecodeRelocSections(tail + t, maxCount, env, n - 1) == Decoded(xs, |tail|)
    ensures DecodeRelocSections(head + tail + t, maxCount, env, n) == Decoded([x] + xs, |head + tail|)
  {
    AppendAssoc(head, tail, t);
    assert (head + (tail + t))[|head|..] == tail + t;
  }

  /** The sections read back one by one: the first, then the rest. */
  lemma RelocationsStep(env: Env, secs: seq<RelocSection>, maxCount: nat, t: seq<byte>, head: seq<byte>, tail: seq<byte>)
    requires env.Valid() && secs != [] && Writable(env, secs)
    requires RelocLayout(env, secs) == head + tail
    requires DecodeRelocSection(head + (tail + t), maxCount, env) == Decoded(Loaded(env, secs[0]), |head|)
    requires DecodeRelocSections(tail + t, maxCount, env, |secs| - 1) == Decoded(AllLoaded(env, secs[1..]), |tail|)
    ensures DecodeRelocSections(RelocLayout(env, secs) + t, maxCount, env, |secs|)
            == Decoded(AllLoaded(env, secs), |RelocLayout(env, secs)|)
  {
    DecodeRelocSectionsCons(head, tail, t, Loaded(env, secs[0]), AllLoaded(env, secs[1..]), maxCount, env, |secs|);
    AllLoadedCons(env, secs);
  }

  lemma AllLoadedCons(env: Env, secs: seq<RelocSection>)
    requires secs != []
    ensures AllLoaded(env, secs) == [Loaded(env, secs[0])] + AllLoaded(env, secs[1..])
  {
    assert [Loaded(env, secs[0])] + AllLoaded(env, secs[1..]) == AllLoaded(env, secs);
  }

  /**
   * `read_relocations` reads back what `write_relocations` wrote, given
   * the `max_reloc_size` the writer reported (stored as the entry's
   * `reloc_size`) and the same address table, whatever follows it.
   */
  lemma {:induction false} RelocationsRoundTrip(env: Env, secs: seq<RelocSection>, maxCount: nat, t: seq<byte>)
    requires env.Valid() && env.table.complete && AllCarried(env, secs)
    requires forall i :: 0 <= i < |secs| ==> |secs[i].relocs| <= maxCount
    ensures Writable(env, secs)
    ensures DecodeRelocSections(RelocLayout(env, secs) + t, maxCount, env, |secs|)
            == Decoded(AllLoaded(env, secs), |RelocLayout(env, secs)|)
  {
    CarriedAreWritable(env, secs);
    if secs != [] {
      var tl := secs[1..];
      assert AllCarried(env, tl);
      CarriedAreWritable(env, tl);
      RelocSectionRoundTrip(env, secs[0], maxCount, RelocLayout(env, tl) + t);
      RelocationsRoundTrip(env, tl, maxCount, t);
      assert RelocLayout(env, secs) == RelocSectionLayout(env, secs[0]) + RelocLayout(env, tl);
      RelocationsStep(env, secs, maxCount, t, RelocSectionLayout(env, secs[0]), RelocLayout(env, tl));
    } else {
      assert AllLoaded(env, secs) == [];
    }
  }

  /** The writer's `max_reloc_size`, read back as `max_reloc_count`, leaves room for every section. */
  lemma MaxRelocSizeFits(secs: seq<RelocSection>)
    ensures (MaxCount(secs) * RELOC_INFO_SIZE) / RELOC_INFO_SIZE == MaxCount(secs)
    ensures forall i :: 0 <= i < |secs| ==> |secs[i].relocs| <= MaxCount(secs)
  {
    MaxCountIsMaximum(secs);
  }

  lemma {:induction false} RelocLayoutAppend(env: Env, a: seq<RelocSection>, b: seq<RelocSection>)
    requires env.Valid() && Writable(env, a) && Writable(env, b)
    ensures Writable(env, a + b)
    ensures RelocLayout(env, a + b) == RelocLayout(env, a) + RelocLayout(env, b)
  {
    if a == [] {
      assert a + b == b;
    } else {
      assert Writable(env, a[1..]);
      assert (a + b)[0] == a[0] && (a + b)[1..] == a[1..] + b;
      RelocLayoutAppend(env, a[1..], b);
      AppendAssoc(RelocSectionLayout(env, a[0]), RelocLayout(env, a[1..]), RelocLayout(env, b));
    }
  }

  /** The layout of the first `i + 1` sections: that of the first `i`, then section `i`. */
  lemma RelocLayoutSnoc(env: Env, secs: seq<RelocSection>, i: nat)
    requires env.Valid() && i < |secs| && Writable(env, secs[..i])
    requires secs[i].Valid() && Encodable(env, secs[i].relocs)
    ensures Writable(env, secs[..i + 1])
    ensures RelocLayout(env, secs[..i + 1]) == RelocLayout(env, secs[..i]) + RelocSectionLayout(env, secs[i])
  {
    assert secs[..i + 1] == secs[..i] + [secs[i]];
    RelocLayoutAppend(env, secs[..i], [secs[i]]);
    assert RelocLayout(env, [secs[i]]) == RelocSectionLayout(env, secs[i]) + RelocLayout(env, []);
  }

  // ---------------------------------------------------------------------
  // The `reloc_data` overrun of `read_relocations` as written.

  /**
   * `read_relocations` as written: nothing compares the count of a section
   * with the room in `reloc_data`, so the read of the words runs past its
   * end whenever it brings in more than `maxCount` words. Counts whose
   * data size does not fit an `unsigned int` are read as short, as in
   * `DecodeRelocBody`.
   */
  function DecodeRelocBodyAsWritten(s: seq<byte>, count: i32, locsPointOff: i32, maxCount: nat, env: Env)
    : (r: Decoded<LoadedSection>)
  {
    if count <= 0 || |s| < 2 * count then Short
    else
      var t := s[2 * count..];
      var got := if |t| < 8 * count then |t| else 8 * count;
      if 8 * count < U32_MODULUS && got > 8 * maxCount then Crash
      else After(2 * count, DecodeRelocWords(t, locsPointOff, DecodeInfos(s[..2 * count], count), env))
  }

  /** One section as `read_relocations` as written reads it from the front of `s`. */
  function DecodeRelocSectionAsWritten(s: seq<byte>, maxCount: nat, env: Env): (r: Decoded<LoadedSection>)
  {
    if |s| < 4 then Short
    else
      var count := DecodeI32(s[..4]);
      if count == 0 then Decoded(LoadedSection(0, [], []), 4)
      else if |s| < 8 then Short
      else After(8, DecodeRelocBodyAsWritten(s[8..], count, DecodeI32(s[4..8]), maxCount, env))
  }

  /**
   * A section with one record and its word, read with no room in
   * `reloc_data` (an entry whose `reloc_size` is 0): as written the word
   * is read past the end of the buffer; the guard refuses it instead.
   */
  lemma OverrunAsWritten(env: Env)
    ensures var s := I32Bytes(1) + I32Bytes(0) + [0, 0] + [0, 0, 0, 0, 0, 0, 0, 0];
      && DecodeRelocSectionAsWritten(s, 0, env) == Crash
      && DecodeRelocSection(s, 0, env) == Refused
  {
    var s := I32Bytes(1) + I32Bytes(0) + [0, 0] + [0, 0, 0, 0, 0, 0, 0, 0];
    I32RoundTrip(1);
    assert s[..4] == I32Bytes(1);
    assert |s[8..]| == 10;
  }

  /**
   * The guard only changes what would overrun the buffer: where the
   * corrected reader does not refuse, both readers agree, and where it
   * refuses, the reader as written overruns or reads short.
   */
  lemma AsWrittenAgreesUnlessRefused(s: seq<byte>, maxCount: nat, env: Env)
    ensures var r := DecodeRelocSection(s, maxCount, env);
      && (!r.Refused? ==> DecodeRelocSectionAsWritten(s, maxCount, env) == r)
      && (r.Refused? ==> DecodeRelocSectionAsWritten(s, maxCount, env) in {Crash, Short})
  {
    if |s| >= 8 {
      var count := DecodeI32(s[..4]);
      var t := s[8..];
      if count > 0 && |t| >= 2 * count && count <= maxCount {
        assert DecodeRelocBodyAsWritten(t, count, DecodeI32(s[4..8]), maxCount, env)
            == DecodeRelocBody(t, count, DecodeI32(s[4..8]), maxCount, env);
      }
    }
  }

  // ---------------------------------------------------------------------
  // The archive methods.

  /** How `write_relocations` ends: done, a failed `write_bytes` (the archive is marked failed), or a `fatal`. */
  datatype WriteStatus = Wrote | WriteFailed | WriteFatal

  /** The number of bytes a section with `n` records takes. */
  function RelocSectionSize(n: nat): nat
  {
    if n == 0 then 4 else 8 + 10 * n
  }

  /**
   * The loop of `write_relocations` that fills `reloc_data`: one word per
   * relocation, until a relocation without one reaches a `fatal`.
   */
  method CollectWords(table: SCATable, rs: seq<Reloc>, typeOf: u16 -> RelocType, rt: Runtime, relocData: array<u64>)
    returns (ok: bool)
    requires table.Valid() && |rs| <= relocData.Length
    requires relocData != table.extrsAddr && relocData != table.stubsAddr && relocData != table.blobsAddr
    modifies relocData
    ensures ok == Encodable(EnvOf(table, typeOf, rt), rs)
    ensures ok ==> relocData[..|rs|] == DataWords(EnvOf(table, typeOf, rt), rs)
  {
    ghost var env := EnvOf(table, typeOf, rt);
    var j := 0;
    while j < |rs|
      invariant 0 <= j <= |rs|
      invariant table.View() == env.table
      invariant forall k :: 0 <= k < j ==> DataWord(env, rs[k]) == Some(relocData[k])
    {
      relocData[j] := 0;
      match typeOf(rs[j].info) {
        case RuntimeCall | ExternalWord =>
          var id := table.IdForAddress(rt, rs[j].target);
          if id.IdFatal? {
            return false;
          }
          relocData[j] := id.id;
        case NoneType | InternalWord | Poll | PollReturn | PostCallNop =>
        case VirtualCall | OptVirtualCall | StaticCall | RuntimeCallWCp | OtherType =>
          return false;
      }
      j := j + 1;
    }
    assert relocData[..|rs|] == DataWords(env, rs);
    ok := true;
  }

  /**
   * The part of `write_relocations` after the count and the `locs_point`
   * offset of a non-empty section: the records, then the extra-data words
   * collected into `relocData`, which need every address to have an id.
   */
  method WriteRelocBody(archive: Archive.SCAFile, rs: seq<Reloc>, typeOf: u16 -> RelocType, rt: Runtime,
                        relocData: array<u64>, ghost env: Env) returns (st: WriteStatus)
    requires archive.ForWrite() && archive.fileOffset <= |archive.data|
    requires archive.table != null && archive.table.Valid()
    requires 0 < |rs| < 0x8000_0000 && |rs| <= relocData.Length
    requires relocData != archive.table.extrsAddr && relocData != archive.table.stubsAddr
    requires relocData != archive.table.blobsAddr
    requires env == EnvOf(archive.table, typeOf, rt)
    modifies archive`data, archive`fileOffset, archive`failed, relocData
    ensures var n, o := |rs|, old(archive.fileOffset);
      && (st == Wrote <==> Encodable(env, rs) && 8 * n < U32_MODULUS && o + 10 * n <= archive.limit)
      && (st == WriteFatal <==> !Encodable(env, rs) && o + 2 * n <= archive.limit)
      && (st == Wrote ==>
            && archive.data == Overwrite(old(archive.data), o, EncodeEach(Infos(rs), 2) + EncodeEach(DataWords(env, rs), 8))
            && archive.fileOffset == o + 10 * n
            && archive.ForWrite() && archive.fileOffset <= |archive.data|)
      && (st == WriteFailed ==> archive.failed)
    ensures archive.failed || (archive.ForWrite() && archive.fileOffset <= |archive.data|)
    ensures env == EnvOf(archive.table, typeOf, rt)
  {
    ghost var d0, o0 := archive.data, archive.fileOffset;
    var n := |rs|;
    ghost var ib := EncodeEach(Infos(rs), 2);
    var ok := archive.WriteAll(EncodeEach(Infos(rs), 2));
    if !ok {
      return WriteFailed;
    }
    assert env == EnvOf(archive.table, typeOf, rt);
    ok := CollectWords(archive.table, rs, typeOf, rt, relocData);
    if !ok {
      return WriteFatal;
    }
    ghost var wb := EncodeEach(DataWords(env, rs), 8);
    assert EncodeEach(relocData[..n], 8) == wb;
    ghost var d1, o1 := archive.data, archive.fileOffset;
    ok := archive.WriteAll(EncodeEach(relocData[..n], 8));
    if !ok {
      return WriteFailed;
    }
    assert archive.data == Overwrite(d1, o1, wb);
    OverwriteAppend(d0, o0, ib, wb);
    st := Wrote;
  }

  /**
   * One section of `write_relocations`, with `relocData` as its
   * `reloc_data` buffer. The whole layout is written exactly when every
   * relocation has its word and every `write_bytes` fits; it stops at a
   * `fatal` exactly when the count, the `locs_point` offset and the
   * records were written and some relocation has no word.
   */
  method WriteRelocSection(archive: Archive.SCAFile, sec: RelocSection, typeOf: u16 -> RelocType, rt: Runtime,
                           relocData: array<u64>, ghost env: Env) returns (st: WriteStatus)
    requires archive.ForWrite() && archive.fileOffset <= |archive.data|
    requires archive.table != null && archive.table.Valid() && sec.Valid()
    requires |sec.relocs| <= relocData.Length
    requires relocData != archive.table.extrsAddr && relocData != archive.table.stubsAddr
    requires relocData != archive.table.blobsAddr
    requires env == EnvOf(archive.table, typeOf, rt)
    modifies archive`data, archive`fileOffset, archive`failed, relocData
    ensures var n, o := |sec.relocs|, old(archive.fileOffset);
      && (st == Wrote <==>
            Encodable(env, sec.relocs) && (n > 0 ==> 8 * n < U32_MODULUS) && o + RelocSectionSize(n) <= archive.limit)
      && (st == WriteFatal <==> !Encodable(env, sec.relocs) && o + 8 + 2 * n <= archive.limit)
      && (st == Wrote ==>
            && archive.data == Overwrite(old(archive.data), o, RelocSectionLayout(env, sec))
            && archive.fileOffset == o + RelocSectionSize(n)
            && archive.ForWrite() && archive.fileOffset <= |archive.data|)
      && (st == WriteFailed ==> archive.failed)
    ensures archive.failed || (archive.ForWrite() && archive.fileOffset <= |archive.data|)
    ensures env == EnvOf(archive.table, typeOf, rt)
  {
    ghost var d0, o0 := archive.data, archive.fileOffset;
    var rs := sec.relocs;
    var n := |rs|;
    var ok := archive.WriteAll(I32Bytes(n));
    if !ok {
      return WriteFailed;
    }
    if n == 0 {
      return Wrote;
    }
    ok := archive.WriteAll(I32Bytes(sec.locsPointOff));
    if !ok {
      return WriteFailed;
    }
    ghost var a, b := I32Bytes(n), I32Bytes(sec.locsPointOff);
    OverwriteAppend(d0, o0, a, b);
    ghost var d1, o1 := archive.data, archive.fileOffset;
    assert env == EnvOf(archive.table, typeOf, rt);
    st := WriteRelocBody(archive, rs, typeOf, rt, relocData, env);
    if st == Wrote {
      ghost var c := EncodeEach(Infos(rs), 2) + EncodeEach(DataWords(env, rs), 8);
      assert archive.data == Overwrite(d1, o1, c);
      OverwriteAppend(d0, o0, a + b, c);
      AppendAssoc(a + b, EncodeEach(Infos(rs), 2), EncodeEach(DataWords(env, rs), 8));
    }
  }

  /** One more section written: the image holds the layout of the first `i + 1` sections. */
  lemma WriteRelocSectionsStep(env: Env, secs: seq<RelocSection>, i: nat, d0: seq<byte>, o0: nat, d1: seq<byte>)
    requires env.Valid() && i < |secs| && Writable(env, secs[..i])
    requires secs[i].Valid() && Encodable(env, secs[i].relocs)
    requires d1 == Overwrite(d0, o0, RelocLayout(env, secs[..i]))
    ensures Writable(env, secs[..i + 1])
    ensures Overwrite(d1, o0 + |RelocLayout(env, secs[..i])|, RelocSectionLayout(env, secs[i]))
            == Overwrite(d0, o0, RelocLayout(env, secs[..i + 1]))
    ensures |RelocLayout(env, secs[..i + 1])| == |RelocLayout(env, secs[..i])| + |RelocSectionLayout(env, secs[i])|
  {
    RelocLayoutSnoc(env, secs, i);
    OverwriteAppend(d0, o0, RelocLayout(env, secs[..i]), RelocSectionLayout(env, secs[i]));
  }

  /** The section loop of `write_relocations`, through the `reloc_data` buffer `relocData`. */
  method WriteRelocSections(archive: Archive.SCAFile, secs: seq<RelocSection>, typeOf: u16 -> RelocType, rt: Runtime,
                            relocData: array<u64>) returns (st: WriteStatus)
    requires archive.ForWrite() && archive.fileOffset <= |archive.data|
    requires archive.table != null && archive.table.Valid()
    requires |secs| == CodeSections.SECT_LIMIT
    requires forall i :: 0 <= i < |secs| ==> secs[i].Valid() && |secs[i].relocs| <= relocData.Length
    requires relocData != archive.table.extrsAddr && relocData != archive.table.stubsAddr
    requires relocData != archive.table.blobsAddr
    modifies archive`data, archive`fileOffset, archive`failed, relocData
    ensures var env := EnvOf(archive.table, typeOf, rt);
      && (st == Wrote ==>
            && Writable(env, secs)
            && archive.data == Overwrite(old(archive.data), old(archive.fileOffset), RelocLayout(env, secs))
            && archive.fileOffset == old(archive.fileOffset) + |RelocLayout(env, secs)|
            && archive.ForWrite() && archive.fileOffset <= |archive.data|)
      && (st == WriteFatal ==> !Writable(env, secs))
      && (st == WriteFailed ==> archive.failed)
    ensures archive.failed || (archive.ForWrite() && archive.fileOffset <= |archive.data|)
  {
    var table := archive.table;
    ghost var env := EnvOf(table, typeOf, rt);
    ghost var d0, o0 := archive.data, archive.fileOffset;
    var i := 0;
    while i < CodeSections.SECT_LIMIT
      invariant 0 <= i <= CodeSections.SECT_LIMIT
      invariant archive.ForWrite() && archive.fileOffset <= |archive.data|
      invariant EnvOf(table, typeOf, rt) == env
      invariant Writable(env, secs[..i])
      invariant archive.data == Overwrite(d0, o0, RelocLayout(env, secs[..i]))
      invariant archive.fileOffset == o0 + |RelocLayout(env, secs[..i])|
    {
      ghost var d1 := archive.data;
      st := WriteRelocSection(archive, secs[i], typeOf, rt, relocData, env);
      if st != Wrote {
        return;
      }
      WriteRelocSectionsStep(env, secs, i, d0, o0, d1);
      i := i + 1;
    }
    assert secs[..i] == secs;
    st := Wrote;
  }

  /**
   * `write_relocations`: `max_reloc_size` from the largest count, then
   * every section in order through one `reloc_data` buffer of that many
   * words.
   */
  method WriteRelocations(archive: Archive.SCAFile, secs: seq<RelocSection>, typeOf: u16 -> RelocType, rt: Runtime,
                          ghost env: Env)
    returns (st: WriteStatus, maxRelocSize: nat)
    requires archive.ForWrite() && archive.fileOffset <= |archive.data|
    requires archive.table != null && archive.table.Valid()
    requires |secs| == CodeSections.SECT_LIMIT && forall i :: 0 <= i < |secs| ==> secs[i].Valid()
    requires env == EnvOf(archive.table, typeOf, rt)
    modifies archive`data, archive`fileOffset, archive`failed
    ensures archive.table.Valid() && archive.table.View() == old(archive.table.View())
    ensures maxRelocSize == MaxCount(secs) * RELOC_INFO_SIZE
    ensures st == Wrote ==>
      && Writable(env, secs)
      && archive.data == Overwrite(old(archive.data), old(archive.fileOffset), RelocLayout(env, secs))
      && archive.fileOffset == old(archive.fileOffset) + |RelocLayout(env, secs)|
      && archive.ForWrite() && archive.fileOffset <= |archive.data|
    ensures st == WriteFatal ==> !Writable(env, secs)
    ensures st == WriteFailed ==> archive.failed
    ensures archive.failed || (archive.ForWrite() && archive.fileOffset <= |archive.data|)
  {
    var maxCount := 0;
    var i := 0;
    while i < CodeSections.SECT_LIMIT
      invariant 0 <= i <= CodeSections.SECT_LIMIT && maxCount == MaxCount(secs[..i])
    {
      assert secs[..i + 1][..i] == secs[..i];
      if |secs[i].relocs| > maxCount {
        maxCount := |secs[i].relocs|;
      }
      i := i + 1;
    }
    assert secs[..i] == secs;
    maxRelocSize := maxCount * RELOC_INFO_SIZE;
    MaxCountIsMaximum(secs);
    var relocData := new u64[maxCount];
    st := WriteRelocSections(archive, secs, typeOf, rt, relocData);
  }

  /**
   * The loop of `read_relocations` over the records of a section, with
   * the words in `relocData`: one patch per record, until a record the
   * reader does not support, or a word `address_for_id` rejects, reaches
   * a `fatal`.
   */
  method PatchRelocs(table: SCATable, typeOf: u16 -> RelocType, rt: Runtime, infos: seq<u16>, relocData: array<u64>)
    returns (ps: Option<seq<Patch>>)
    requires table.Valid() && |infos| <= relocData.Length
    ensures var env, words := EnvOf(table, typeOf, rt), relocData[..|infos|];
      ps == if Patchable(env, infos, words) then Some(Patches(env, infos, words)) else Option.None
  {
    ghost var env := EnvOf(table, typeOf, rt);
    ghost var words := relocData[..|infos|];
    var patches := [];
    var j := 0;
    while j < |infos|
      invariant 0 <= j <= |infos| && |patches| == j
      invariant forall k :: 0 <= k < j ==> PatchOf(env, infos[k], words[k]) == Some(patches[k])
    {
      var p: Patch;
      match typeOf(infos[j]) {
        case RuntimeCall | ExternalWord =>
          var a := table.AddressForId(rt, relocData[j]);
          if a.AddrFatal? {
            assert PatchOf(env, infos[j], words[j]).None?;
            return Option.None;
          }
          p := Retarget(a.addr);
        case InternalWord =>
          p := Moved;
        case NoneType | Poll | PollReturn | PostCallNop =>
          p := Keep;
        case VirtualCall | OptVirtualCall | StaticCall | RuntimeCallWCp | OtherType =>
          assert PatchOf(env, infos[j], words[j]).None?;
          return Option.None;
      }
      patches := patches + [p];
      j := j + 1;
    }
    assert patches == Patches(env, infos, words);
    ps := Some(patches);
  }

  /**
   * The extra-data words of a non-empty section of `read_relocations`
   * whose records are `infos`: into `relocData` when they are all there,
   * then the patches.
   */
  method ReadRelocWords(archive: Archive.SCAFile, locsPointOff: i32, infos: seq<u16>, typeOf: u16 -> RelocType,
                        rt: Runtime, relocData: array<u64>, ghost env: Env) returns (r: Decoded<LoadedSection>)
    requires 0 < |infos| <= relocData.Length
    requires archive.ForRead() && archive.table != null && archive.table.Valid()
    requires relocData != archive.table.extrsAddr && relocData != archive.table.stubsAddr
    requires relocData != archive.table.blobsAddr
    requires env == EnvOf(archive.table, typeOf, rt)
    modifies archive`fileOffset, archive`failed, relocData
    ensures r == DecodeRelocWords(Rest(archive.data, old(archive.fileOffset)), locsPointOff, infos, env)
    ensures env == EnvOf(archive.table, typeOf, rt)
    ensures r.Decoded? ==> archive.ForRead() && archive.fileOffset == old(archive.fileOffset) + r.used
    ensures r.Short? ==> archive.failed
  {
    ghost var d, o := archive.data, archive.fileOffset;
    var n := |infos|;
    TakeAtRest(d, o, 8 * n);
    var ok, wb := archive.ReadExactly(8 * n);
    if !ok {
      return Short;
    }
    var words := DecodeWords(wb, n);
    forall k | 0 <= k < n {
      relocData[k] := words[k];
    }
    assert relocData[..n] == words;
    assert env == EnvOf(archive.table, typeOf, rt);
    var ps := PatchRelocs(archive.table, typeOf, rt, infos, relocData);
    if ps.None? {
      return Crash;
    }
    r := Decoded(LoadedSection(locsPointOff, infos, ps.value), 8 * n);
  }

  /** `reloc_count * sizeof(relocInfo)` as a `size_t`: a negative count is far too large to read. */
  lemma RelocSizeOf(count: i32)
    ensures count >= 0 ==> U64Of(count * RELOC_INFO_SIZE) == 2 * count
    ensures count < 0 ==> U64Of(count * RELOC_INFO_SIZE) >= U32_MODULUS
  {
    if count < 0 {
      assert count * RELOC_INFO_SIZE + U64_MODULUS < U64_MODULUS;
    }
  }

  /**
   * The part of `read_relocations` after the count and the `locs_point`
   * offset of a non-empty section: the records, a refusal when the words
   * would not fit in `relocData`, then the words and the patches.
   */
  method ReadRelocBody(archive: Archive.SCAFile, count: i32, locsPointOff: i32, typeOf: u16 -> RelocType, rt: Runtime,
                       relocData: array<u64>, ghost env: Env) returns (r: Decoded<LoadedSection>)
    requires count != 0 && archive.ForRead() && archive.table != null && archive.table.Valid()
    requires relocData != archive.table.extrsAddr && relocData != archive.table.stubsAddr
    requires relocData != archive.table.blobsAddr
    requires env == EnvOf(archive.table, typeOf, rt)
    modifies archive`fileOffset, archive`failed, relocData
    ensures r == DecodeRelocBody(Rest(archive.data, old(archive.fileOffset)), count, locsPointOff, relocData.Length, env)
    ensures env == EnvOf(archive.table, typeOf, rt)
    ensures r.Decoded? ==> archive.ForRead() && archive.fileOffset == old(archive.fileOffset) + r.used
    ensures r.Short? ==> archive.failed
    ensures r.Refused? ==> archive.ForRead()
  {
    ghost var d, o := archive.data, archive.fileOffset;
    ghost var s := Rest(d, o);
    var relocSize := U64Of(count * RELOC_INFO_SIZE);
    RelocSizeOf(count);
    TakeAtRest(d, o, relocSize);
    var ok, ib := archive.ReadExactly(relocSize);
    if !ok {
      assert count <= 0 || |s| < 2 * count;
      return Short;
    }
    if count > relocData.Length {
      return Refused;
    }
    assert relocSize == 2 * count && ib == s[..2 * count];
    RestRest(d, o, 2 * count);
    ghost var rest := Rest(archive.data, archive.fileOffset);
    assert rest == s[2 * count..];
    var body := ReadRelocWords(archive, locsPointOff, DecodeInfos(ib, count), typeOf, rt, relocData, env);
    assert body == DecodeRelocWords(rest, locsPointOff, DecodeInfos(ib, count), env);
    r := After(2 * count, body);
  }

  /**
   * One section of `read_relocations`, with `relocData` as its
   * `reloc_data` buffer: what `DecodeRelocSection` makes of the bytes
   * from the cursor on, with room for `relocData.Length` words.
   */
  method ReadRelocSection(archive: Archive.SCAFile, typeOf: u16 -> RelocType, rt: Runtime, relocData: array<u64>,
                          ghost env: Env)
    returns (r: Decoded<LoadedSection>)
    requires archive.ForRead() && archive.table != null && archive.table.Valid()
    requires relocData != archive.table.extrsAddr && relocData != archive.table.stubsAddr
    requires relocData != archive.table.blobsAddr
    requires env == EnvOf(archive.table, typeOf, rt)
    modifies archive`fileOffset, archive`failed, relocData
    ensures r == DecodeRelocSection(Rest(archive.data, old(archive.fileOffset)), relocData.Length, env)
    ensures r.Decoded? ==> archive.ForRead() && archive.fileOffset == old(archive.fileOffset) + r.used
    ensures r.Short? ==> archive.failed
    ensures r.Refused? ==> archive.ForRead()
    ensures env == EnvOf(archive.table, typeOf, rt)
  {
    ghost var d, o := archive.data, archive.fileOffset;
    TakeAtRest(d, o, 4);
    var ok, cb := archive.ReadExactly(4);
    if !ok {
      return Short;
    }
    var count := DecodeI32(cb);
    if count == 0 {
      return Decoded(LoadedSection(0, [], []), 4);
    }
    TakeAtRest(d, o + 4, 4);
    var lb;
    ok, lb := archive.ReadExactly(4);
    if !ok {
      return Short;
    }
    RestRest(d, o, 8);
    assert lb == Rest(d, o)[4..8];
    var body := ReadRelocBody(archive, count, DecodeI32(lb), typeOf, rt, relocData, env);
    r := After(8, body);
  }

  /**
   * One more section read: if `whole` is what is read from the sections
   * `ss` already read (taking `used` bytes) and the `n` still to read
   * from `rest`, the rest of the image after `used` bytes, then it is also
   * what is read after the next section `x`.
   */
  lemma DecodeRelocSectionsStep(d: seq<byte>, o0: nat, used: nat, rest: seq<byte>, whole: Decoded<seq<LoadedSection>>,
                                ss: seq<LoadedSection>, maxCount: nat, env: Env, n: nat, x: Decoded<LoadedSection>)
    requires n > 0 && rest == Rest(d, o0 + used) && x == DecodeRelocSection(rest, maxCount, env)
    requires whole == Prepend(ss, used, DecodeRelocSections(rest, maxCount, env, n))
    ensures x.Decoded? ==>
      && rest[x.used..] == Rest(d, o0 + (used + x.used))
      && whole == Prepend(ss + [x.value], used + x.used, DecodeRelocSections(rest[x.used..], maxCount, env, n - 1))
    ensures !x.Decoded? ==> whole == x.Fail()
  {
    if x.Decoded? {
      var next := DecodeRelocSections(rest[x.used..], maxCount, env, n - 1);
      assert DecodeRelocSections(rest, maxCount, env, n) == Prepend([x.value], x.used, next);
      RestRest(d, o0 + used, x.used);
      PrependPrepend(ss, used, [x.value], x.used, next);
    } else {
      assert DecodeRelocSections(rest, maxCount, env, n) == x.Fail();
    }
  }

  /** The section loop of `read_relocations`, through the `reloc_data` buffer `relocData`. */
  method ReadRelocSections(archive: Archive.SCAFile, typeOf: u16 -> RelocType, rt: Runtime, relocData: array<u64>)
    returns (r: Decoded<seq<LoadedSection>>)
    requires archive.ForRead() && archive.table != null && archive.table.Valid()
    requires relocData != archive.table.extrsAddr && relocData != archive.table.stubsAddr
    requires relocData != archive.table.blobsAddr
    modifies archive`fileOffset, archive`failed, relocData
    ensures r == DecodeRelocSections(Rest(archive.data, old(archive.fileOffset)), relocData.Length,
                                     EnvOf(archive.table, typeOf, rt), CodeSections.SECT_LIMIT)
    ensures r.Decoded? ==> archive.ForRead() && archive.fileOffset == old(archive.fileOffset) + r.used
    ensures r.Short? ==> archive.failed
    ensures r.Refused? ==> archive.ForRead()
  {
    var table := archive.table;
    ghost var env := EnvOf(table, typeOf, rt);
    ghost var d, o0 := archive.data, archive.fileOffset;
    ghost var whole := DecodeRelocSections(Rest(d, o0), relocData.Length, env, CodeSections.SECT_LIMIT);
    ghost var rest := Rest(d, o0);
    PrependNothing(whole);
    var ss, used: nat := [], 0;
    var i := 0;
    while i < CodeSections.SECT_LIMIT
      invariant 0 <= i <= CodeSections.SECT_LIMIT && archive.data == d
      invariant archive.ForRead() && archive.fileOffset == o0 + used
      invariant EnvOf(table, typeOf, rt) == env
      invariant rest == Rest(d, o0 + used)
      invariant whole == Prepend(ss, used, DecodeRelocSections(rest, relocData.Length, env, CodeSections.SECT_LIMIT - i))
    {
      var x := ReadRelocSection(archive, typeOf, rt, relocData, env);
      DecodeRelocSectionsStep(d, o0, used, rest, whole, ss, relocData.Length, env, CodeSections.SECT_LIMIT - i, x);
      if !x.Decoded? {
        return x.Fail();
      }
      ss, used, rest := ss + [x.value], used + x.used, rest[x.used..];
      i := i + 1;
    }
    assert ss + [] == ss;
    r := Decoded(ss, used);
  }

  /**
   * `read_relocations`: every section in order through one `reloc_data`
   * buffer with room for `max_reloc_size / sizeof(relocInfo)` words.
   */
  method ReadRelocations(archive: Archive.SCAFile, typeOf: u16 -> RelocType, rt: Runtime, maxRelocSize: nat)
    returns (r: Decoded<seq<LoadedSection>>)
    requires archive.ForRead() && archive.table != null && archive.table.Valid()
    modifies archive`fileOffset, archive`failed
    ensures r == DecodeRelocSections(Rest(archive.data, old(archive.fileOffset)), maxRelocSize / RELOC_INFO_SIZE,
                                     EnvOf(archive.table, typeOf, rt), CodeSections.SECT_LIMIT)
    ensures r.Decoded? ==> archive.ForRead() && archive.fileOffset == old(archive.fileOffset) + r.used
    ensures r.Short? ==> archive.failed
    ensures r.Refused? ==> archive.ForRead()
  {
    var relocData := new u64[maxRelocSize / RELOC_INFO_SIZE];
    r := ReadRelocSections(archive, typeOf, rt, relocData);
  }
}
