/**
 * The exception blob: `SCAFile::store_exception_blob` and
 * `load_exception_blob`. The archive holds one blob, under kind `Blob`
 * and id 999. Its block starts at an aligned position `pos` and holds:
 * the `pc_offset` as an `int`, the name and its NUL, zero padding to the
 * next multiple of 8, the code sections as `write_code` lays them out,
 * and the relocation sections as `write_relocations` lays them out.
 */
module Blobs {
  import opened Bytes
  import opened Wrappers
  import opened FileImage
  import opened Index
  import opened Artifacts
  import Archive
  import AddressTable
  import CodeSections
  import Relocations

  /** What `load_exception_blob` restores: the pc offset, the code sections and the relocation sections. */
  datatype BlobImage = BlobImage(pcOffset: i32, sections: seq<CodeSections.Section>,
                                 relocs: seq<Relocations.LoadedSection>)

  /** The part of the block in front of the code: the pc offset, the name and NUL, the padding. */
  function BlobHead(pcOffset: i32, name: seq<byte>, pos: nat): seq<byte>
  {
    I32Bytes(pcOffset) + (name + [0]) + Zeros(AlignPadding(pos + 4 + |name| + 1))
  }

  /** The whole block at `pos`, given the bytes of the code and of the relocations. */
  function BlobBlock(pcOffset: i32, name: seq<byte>, pos: nat, code: seq<byte>, relocs: seq<byte>): seq<byte>
  {
    BlobHead(pcOffset, name, pos) + code + relocs
  }

  /**
   * The entry `store_exception_blob` appends: the name after the pc
   * offset, the code after the head, the relocations after the code
   * (`codeLen` bytes of layout), `code_size` the bytes of code proper and
   * `reloc_size` the writer's `max_reloc_size`.
   */
  function BlobEntry(pos: nat, name: seq<byte>, codeLen: nat, codeSize: nat, relocSize: nat, idx: u32): SCAEntry
  {
    var codeOffset := 4 + |name| + 1 + AlignPadding(pos + 4 + |name| + 1);
    NewEntry(U32Of(pos), 4, U32Of(|name| + 1), U32Of(codeOffset), U32Of(codeSize),
             U32Of(codeOffset + codeLen), U32Of(relocSize), Blob, BLOB_ID, idx)
  }

  /** What `store_exception_blob` writes from the offset `o` it starts at: the padding, then the block there. */
  function PaddedBlobBlock(o: nat, pcOffset: i32, name: seq<byte>, code: seq<byte>, relocs: seq<byte>): seq<byte>
  {
    Zeros(AlignPadding(o)) + BlobBlock(pcOffset, name, o + AlignPadding(o), code, relocs)
  }

  /** The padded block of the code `ss` and the relocations `secs` stored from `o`, as `env` encodes them. */
  function StoredBlob(o: nat, pcOffset: i32, name: seq<byte>, ss: seq<CodeSections.Section>,
                      secs: seq<Relocations.RelocSection>, env: Relocations.Env): seq<byte>
    requires CodeSections.AllValid(ss) && env.Valid() && Relocations.Writable(env, secs)
  {
    PaddedBlobBlock(o, pcOffset, name, CodeSections.CodeLayout(ss), Relocations.RelocLayout(env, secs))
  }

  /** The entry of the blob stored from `o`: at the aligned offset, with the sizes of its code and relocations. */
  function StoredBlobEntry(o: nat, name: seq<byte>, ss: seq<CodeSections.Section>, secs: seq<Relocations.RelocSection>,
                           idx: u32): SCAEntry
    requires CodeSections.AllValid(ss)
  {
    BlobEntry(o + AlignPadding(o), name, |CodeSections.CodeLayout(ss)|, CodeSections.CodeSize(ss),
              Relocations.MaxCount(secs) * Relocations.RELOC_INFO_SIZE, idx)
  }

  /**
   * How `load_exception_blob` ends once the name has matched, given what
   * it reads at the code (`read_code`) and then at the relocations
   * (`read_relocations`): the first read that does not succeed decides.
   */
  function BlobParts(pc: i32, code: Decoded<seq<CodeSections.Section>>,
                     relocs: Decoded<seq<Relocations.LoadedSection>>): Outcome<BlobImage>
  {
    if !code.Decoded? then Unloaded(code)
    else if !relocs.Decoded? then Unloaded(relocs)
    else Loaded(BlobImage(pc, code.value, relocs.value))
  }

  /** The code sections at the entry's code, read into buffers of capacities `caps`. */
  function CodeAt(d: seq<byte>, e: SCAEntry, caps: seq<nat>): Decoded<seq<CodeSections.Section>>
  {
    CodeSections.DecodeSections(Rest(d, e.offset + e.codeOffset), caps)
  }

  /** The relocation sections at the entry's relocations, with room for `reloc_size / sizeof(relocInfo)` records. */
  function RelocsAt(d: seq<byte>, e: SCAEntry, env: Relocations.Env): Decoded<seq<Relocations.LoadedSection>>
  {
    Relocations.DecodeRelocSections(Rest(d, e.offset + e.relocOffset), e.relocSize / Relocations.RELOC_INFO_SIZE,
                                    env, CodeSections.SECT_LIMIT)
  }

  /** What `load_exception_blob` makes of the data for the entry `e`, asked for the blob `name`. */
  function BlobFrom(d: seq<byte>, e: SCAEntry, name: seq<byte>, caps: seq<nat>, env: Relocations.Env): Outcome<BlobImage>
  {
    match TakeAt(d, e.offset, 4)
    case None => Failed
    case Some(pc) =>
      var named := NameAt(d, e, name);
      if !named.Loaded? then named.Fail()
      else BlobParts(DecodeI32(pc), CodeAt(d, e, caps), RelocsAt(d, e, env))
  }

  // ---------------------------------------------------------------------
  // The round trip.

  /** The fields of the entry of a block that fits the 32-bit offsets. */
  lemma BlobEntryFields(pos: nat, name: seq<byte>, codeLen: nat, codeSize: nat, relocLen: nat, relocSize: nat, idx: u32)
    requires pos + |BlobHead(0, name, pos)| + codeLen + relocLen < U32_MODULUS
    requires codeSize <= codeLen && relocSize < U32_MODULUS
    ensures var e := BlobEntry(pos, name, codeLen, codeSize, relocSize, idx);
      && e.offset == pos && e.nameOffset == 4 && e.nameSize == |name| + 1
      && e.codeOffset == |BlobHead(0, name, pos)| && e.relocOffset == e.codeOffset + codeLen
      && e.codeSize == codeSize && e.relocSize == relocSize
      && e.kind == Blob && e.id == BLOB_ID && e.idx == idx
      && (e.offset + e.codeOffset) % ALIGNMENT == 0
  {
  }

  /**
   * What a reader finds at the code and at the relocations of a block
   * `head + code + relocs` placed at `o`: each part, then whatever follows.
   */
  lemma RestOfBlock(d: seq<byte>, o: nat, head: seq<byte>, code: seq<byte>, relocs: seq<byte>)
    requires o + |head + code + relocs| <= |d| && d[o..o + |head + code + relocs|] == head + code + relocs
    ensures var after := Rest(d, o + |head + code + relocs|);
      && Rest(d, o + |head|) == code + (relocs + after)
      && Rest(d, o + |head| + |code|) == relocs + after
  {
    var block := head + code + relocs;
    var after := Rest(d, o + |block|);
    assert d[o..] == block + after;
    assert d[o..][|head|..] == d[o + |head|..];
    assert d[o..][|head| + |code|..] == d[o + |head| + |code|..];
    assert (block + after)[|head|..] == code + (relocs + after);
    assert (block + after)[|head| + |code|..] == relocs + after;
  }

  /**
   * The loader's reads of a block stored at `pos`: it gives back the pc
   * offset, the code sections and the loaded relocations when the name it
   * is asked for starts with the stored name, and fails the archive
   * otherwise.
   */
  lemma BlobRoundTrip(d: seq<byte>, pos: nat, pcOffset: i32, name: seq<byte>, ss: seq<CodeSections.Section>,
                      secs: seq<Relocations.RelocSection>, env: Relocations.Env, idx: u32,
                      asked: seq<byte>, caps: seq<nat>)
    requires NoNul(name) && NoNul(asked)
    requires CodeSections.AllValid(ss) && CodeSections.AllFit(ss, caps)
    requires env.Valid() && env.table.complete && Relocations.AllCarried(env, secs) && Relocations.Writable(env, secs)
    requires |secs| == CodeSections.SECT_LIMIT
    requires var block := BlobBlock(pcOffset, name, pos, CodeSections.CodeLayout(ss), Relocations.RelocLayout(env, secs));
      pos + |block| < U32_MODULUS && pos + |block| <= |d| && d[pos..pos + |block|] == block
    ensures var e := BlobEntry(pos, name, |CodeSections.CodeLayout(ss)|, CodeSections.CodeSize(ss),
                               Relocations.MaxCount(secs) * Relocations.RELOC_INFO_SIZE, idx);
      BlobFrom(d, e, asked, caps, env)
      == if |name| <= |asked| && asked[..|name|] == name
         then Loaded(BlobImage(pcOffset, ss, Relocations.AllLoaded(env, secs)))
         else Failed
  {
    var code, relocs := CodeSections.CodeLayout(ss), Relocations.RelocLayout(env, secs);
    var e := BlobEntry(pos, name, |code|, CodeSections.CodeSize(ss), Relocations.MaxCount(secs) * Relocations.RELOC_INFO_SIZE, idx);
    HeadOfBlob(d, pos, pcOffset, name, code, relocs);
    BlobBodyRoundTrip(d, pos, pcOffset, name, ss, secs, env, idx, caps);
    NameRoundTrip(d, e, name, asked);
    BlobFromParts(d, e, asked, caps, env, pcOffset, ss, Relocations.AllLoaded(env, secs), |code|, |relocs|);
  }

  /**
   * What `store_exception_blob` writes from `o` over any image,
   * `load_exception_blob` reads back through the entry it records.
   */
  lemma StoredBlobLoads(d: seq<byte>, o: nat, pcOffset: i32, name: seq<byte>, ss: seq<CodeSections.Section>,
                        secs: seq<Relocations.RelocSection>, env: Relocations.Env, idx: u32,
                        asked: seq<byte>, caps: seq<nat>)
    requires NoNul(name) && NoNul(asked)
    requires CodeSections.AllValid(ss) && CodeSections.AllFit(ss, caps)
    requires env.Valid() && env.table.complete && Relocations.AllCarried(env, secs) && Relocations.Writable(env, secs)
    requires |secs| == CodeSections.SECT_LIMIT
    requires o + |StoredBlob(o, pcOffset, name, ss, secs, env)| < U32_MODULUS
    ensures BlobFrom(Overwrite(d, o, StoredBlob(o, pcOffset, name, ss, secs, env)), StoredBlobEntry(o, name, ss, secs, idx), asked, caps, env)
            == if |name| <= |asked| && asked[..|name|] == name
               then Loaded(BlobImage(pcOffset, ss, Relocations.AllLoaded(env, secs)))
               else Failed
  {
    var pos := o + AlignPadding(o);
    var block := BlobBlock(pcOffset, name, pos, CodeSections.CodeLayout(ss), Relocations.RelocLayout(env, secs));
    var written := StoredBlob(o, pcOffset, name, ss, secs, env);
    StoredBlobIsPadded(o, pcOffset, name, ss, secs, env);
    var w := Overwrite(d, o, written);
    PaddedAt(d, o, Zeros(AlignPadding(o)), block, written);
    BlobRoundTrip(w, pos, pcOffset, name, ss, secs, env, idx, asked, caps);
    EntryOfStoredBlob(pos, o, name, ss, secs, CodeSections.CodeSize(ss),
                      Relocations.MaxCount(secs) * Relocations.RELOC_INFO_SIZE, idx);
  }

  /** The stored blob is the padding, then the block at the aligned offset. */
  lemma StoredBlobIsPadded(o: nat, pcOffset: i32, name: seq<byte>, ss: seq<CodeSections.Section>,
                           secs: seq<Relocations.RelocSection>, env: Relocations.Env)
    requires CodeSections.AllValid(ss) && env.Valid() && Relocations.Writable(env, secs)
    ensures StoredBlob(o, pcOffset, name, ss, secs, env)
            == Zeros(AlignPadding(o)) + BlobBlock(pcOffset, name, o + AlignPadding(o),
                                                  CodeSections.CodeLayout(ss), Relocations.RelocLayout(env, secs))
  {
  }

  /** `load_exception_blob` from what each of its reads gives. */
  lemma BlobFromParts(d: seq<byte>, e: SCAEntry, asked: seq<byte>, caps: seq<nat>, env: Relocations.Env,
                      pcOffset: i32, ss: seq<CodeSections.Section>, loaded: seq<Relocations.LoadedSection>, n: nat, m: nat)
    requires TakeAt(d, e.offset, 4) == Some(I32Bytes(pcOffset))
    requires CodeAt(d, e, caps) == Decoded(ss, n) && RelocsAt(d, e, env) == Decoded(loaded, m)
    ensures var named := NameAt(d, e, asked);
      BlobFrom(d, e, asked, caps, env) == if named.Loaded? then Loaded(BlobImage(pcOffset, ss, loaded)) else named.Fail()
  {
    I32RoundTrip(pcOffset);
  }

  /** The pc offset and the name read back from the head of a block. */
  lemma HeadOfBlob(d: seq<byte>, pos: nat, pcOffset: i32, name: seq<byte>, code: seq<byte>, relocs: seq<byte>)
    requires var block := BlobBlock(pcOffset, name, pos, code, relocs);
      pos + |block| <= |d| && d[pos..pos + |block|] == block && |block| < U32_MODULUS
    ensures TakeAt(d, pos, 4) == Some(I32Bytes(pcOffset))
    ensures TakeAt(d, pos + 4, |name| + 1) == Some(name + [0])
  {
    var block := BlobBlock(pcOffset, name, pos, code, relocs);
    assert block[..4] == I32Bytes(pcOffset);
    assert block[4..4 + |name| + 1] == name + [0];
    SliceWithin(d, pos, block, 0, 4);
    SliceWithin(d, pos, block, 4, 4 + |name| + 1);
  }

  /** The code and the relocations read back from a stored block, and the entry's fields the loader uses. */
  lemma BlobBodyRoundTrip(d: seq<byte>, pos: nat, pcOffset: i32, name: seq<byte>, ss: seq<CodeSections.Section>,
                          secs: seq<Relocations.RelocSection>, env: Relocations.Env, idx: u32, caps: seq<nat>)
    requires CodeSections.AllValid(ss) && CodeSections.AllFit(ss, caps)
    requires env.Valid() && env.table.complete && Relocations.AllCarried(env, secs) && Relocations.Writable(env, secs)
    requires |secs| == CodeSections.SECT_LIMIT
    requires var block := BlobBlock(pcOffset, name, pos, CodeSections.CodeLayout(ss), Relocations.RelocLayout(env, secs));
      pos + |block| < U32_MODULUS && pos + |block| <= |d| && d[pos..pos + |block|] == block
    ensures var e := BlobEntry(pos, name, |CodeSections.CodeLayout(ss)|, CodeSections.CodeSize(ss),
                               Relocations.MaxCount(secs) * Relocations.RELOC_INFO_SIZE, idx);
      && e.offset == pos && e.nameOffset == 4 && e.nameSize == |name| + 1
      && CodeAt(d, e, caps) == Decoded(ss, |CodeSections.CodeLayout(ss)|)
      && RelocsAt(d, e, env) == Decoded(Relocations.AllLoaded(env, secs), |Relocations.RelocLayout(env, secs)|)
  {
    var code, relocs := CodeSections.CodeLayout(ss), Relocations.RelocLayout(env, secs);
    var head := BlobHead(pcOffset, name, pos);
    var maxCount := Relocations.MaxCount(secs);
    var e := BlobEntry(pos, name, |code|, CodeSections.CodeSize(ss), maxCount * Relocations.RELOC_INFO_SIZE, idx);
    MaxCountBound(env, secs);
    CodeSizeBound(ss);
    BlobEntryFields(pos, name, |code|, CodeSections.CodeSize(ss), |relocs|, maxCount * Relocations.RELOC_INFO_SIZE, idx);
    var after := Rest(d, pos + |head + code + relocs|);
    PartsAt(d, e, head, code, relocs);
    CodeAtBlock(d, e, code + (relocs + after), ss, caps);
    Relocations.MaxRelocSizeFits(secs);
    RelocsAtBlock(d, e, relocs + after, secs, env);
  }

  /** `read_code` at the entry's code, where the data holds the sections' layout. */
  lemma CodeAtBlock(d: seq<byte>, e: SCAEntry, s: seq<byte>, ss: seq<CodeSections.Section>, caps: seq<nat>)
    requires CodeSections.AllValid(ss) && CodeSections.AllFit(ss, caps)
    requires Rest(d, e.offset + e.codeOffset) == s
    requires |CodeSections.CodeLayout(ss)| <= |s| && s[..|CodeSections.CodeLayout(ss)|] == CodeSections.CodeLayout(ss)
    ensures CodeAt(d, e, caps) == Decoded(ss, |CodeSections.CodeLayout(ss)|)
  {
    var code := CodeSections.CodeLayout(ss);
    SplitFront(s, code);
    CodeSections.CodeRoundTrip(ss, caps, s[|code|..]);
  }

  /** `read_relocations` at the entry's relocations, where the data holds the sections' layout. */
  lemma RelocsAtBlock(d: seq<byte>, e: SCAEntry, s: seq<byte>, secs: seq<Relocations.RelocSection>, env: Relocations.Env)
    requires env.Valid() && env.table.complete && Relocations.AllCarried(env, secs)
    requires |secs| == CodeSections.SECT_LIMIT && Relocations.Writable(env, secs)
    requires e.relocSize / Relocations.RELOC_INFO_SIZE == Relocations.MaxCount(secs)
    requires Rest(d, e.offset + e.relocOffset) == s
    requires |Relocations.RelocLayout(env, secs)| <= |s| && s[..|Relocations.RelocLayout(env, secs)|] == Relocations.RelocLayout(env, secs)
    ensures RelocsAt(d, e, env) == Decoded(Relocations.AllLoaded(env, secs), |Relocations.RelocLayout(env, secs)|)
  {
    var relocs := Relocations.RelocLayout(env, secs);
    SplitFront(s, relocs);
    Relocations.MaxCountIsMaximum(secs);
    Relocations.RelocationsRoundTrip(env, secs, Relocations.MaxCount(secs), s[|relocs|..]);
  }

  /** The reads at the entry's code and relocations see the parts of the block, each followed by the rest. */
  lemma PartsAt(d: seq<byte>, e: SCAEntry, head: seq<byte>, code: seq<byte>, relocs: seq<byte>)
    requires e.offset + |head + code + relocs| <= |d| && d[e.offset..e.offset + |head + code + relocs|] == head + code + relocs
    requires e.codeOffset == |head| && e.relocOffset == |head| + |code|
    ensures var after := Rest(d, e.offset + |head + code + relocs|);
      && Rest(d, e.offset + e.codeOffset) == code + (relocs + after)
      && Rest(d, e.offset + e.relocOffset) == relocs + after
  {
    RestOfBlock(d, e.offset, head, code, relocs);
  }

  /** The writer's `max_reloc_size` fits the entry's `uint32_t` field. */
  lemma MaxCountBound(env: Relocations.Env, secs: seq<Relocations.RelocSection>)
    requires Relocations.AllCarried(env, secs)
    ensures Relocations.MaxCount(secs) < 0x2000_0000
  {
    Relocations.MaxCountIsMaximum(secs);
    if Relocations.MaxCount(secs) != 0 {
      var i :| 0 <= i < |secs| && |secs[i].relocs| == Relocations.MaxCount(secs);
      assert Relocations.Carried(env, secs[i]);
    }
  }

  /** `code_size` counts the code bytes, which the layout of the sections holds. */
  lemma {:induction false} CodeSizeBound(ss: seq<CodeSections.Section>)
    requires CodeSections.AllValid(ss)
    ensures CodeSections.CodeSize(ss) <= |CodeSections.CodeLayout(ss)|
    decreases |ss|
  {
    if ss != [] {
      CodeSizeBound(ss[1..]);
    }
  }

  // ---------------------------------------------------------------------
  // Storing.

  /** The writes of `store_exception_blob` in front of the code: align, the pc offset, the name and NUL, align. */
  method WriteBlobHead(archive: Archive.SCAFile, pcOffset: i32, name: seq<byte>) returns (ok: bool, pos: nat)
    requires archive.ForWrite() && archive.fileOffset <= |archive.data|
    modifies archive`data, archive`fileOffset, archive`failed
    ensures ok ==>
      var o := old(archive.fileOffset);
      && pos == o + AlignPadding(o)
      && archive.ForWrite() && archive.fileOffset <= |archive.data|
      && archive.data == Overwrite(old(archive.data), o, Zeros(AlignPadding(o)) + BlobHead(pcOffset, name, pos))
      && archive.fileOffset == pos + |BlobHead(pcOffset, name, pos)|
    ensures !ok ==> archive.failed
  {
    ghost var d0, o0 := archive.data, archive.fileOffset;
    pos := 0;
    ok := AppendPadding(archive, d0, o0, []);
    if ok {
      pos := archive.fileOffset;
      ghost var pad := Zeros(AlignPadding(o0));
      assert [] + pad == pad;
      ok := Append(archive, I32Bytes(pcOffset), d0, o0, pad);
      if ok {
        ok := Append(archive, name + [0], d0, o0, pad + I32Bytes(pcOffset));
        if ok {
          ok := AppendPadding(archive, d0, o0, pad + I32Bytes(pcOffset) + (name + [0]));
          assert pad + I32Bytes(pcOffset) + (name + [0]) + Zeros(AlignPadding(pos + 4 + |name| + 1))
              == pad + BlobHead(pcOffset, name, pos);
        }
      }
    }
  }

  /** The block after the head: `write_code`, then `write_relocations`, for the relocation environment `env`. */
  method WriteBlobBody(archive: Archive.SCAFile, ss: seq<CodeSections.Section>,
                       secs: seq<Relocations.RelocSection>, typeOf: u16 -> Relocations.RelocType,
                       rt: AddressTable.Runtime, ghost env: Relocations.Env)
    returns (st: Relocations.WriteStatus, codeSize: nat, maxRelocSize: nat)
    requires archive.ForWrite() && archive.fileOffset <= |archive.data|
    requires archive.table != null && archive.table.Valid()
    requires |ss| == CodeSections.SECT_LIMIT && CodeSections.AllValid(ss)
    requires |secs| == CodeSections.SECT_LIMIT && forall i :: 0 <= i < |secs| ==> secs[i].Valid()
    requires env == Relocations.EnvOf(archive.table, typeOf, rt)
    modifies archive`data, archive`fileOffset, archive`failed
    ensures env == Relocations.EnvOf(archive.table, typeOf, rt)
    ensures st == Relocations.Wrote ==> Relocations.Writable(env, secs)
    ensures st == Relocations.Wrote ==>
      var body := CodeSections.CodeLayout(ss) + Relocations.RelocLayout(env, secs);
      && archive.ForWrite() && archive.fileOffset <= |archive.data|
      && archive.data == Overwrite(old(archive.data), old(archive.fileOffset), body)
      && archive.fileOffset == old(archive.fileOffset) + |body|
      && codeSize == CodeSections.CodeSize(ss)
      && maxRelocSize == Relocations.MaxCount(secs) * Relocations.RELOC_INFO_SIZE
    ensures st == Relocations.WriteFatal ==> !Relocations.Writable(env, secs)
    ensures st == Relocations.WriteFailed ==> archive.failed
    ensures archive.failed || (archive.ForWrite() && archive.fileOffset <= |archive.data|)
  {
    ghost var d0, o0 := archive.data, archive.fileOffset;
    st, maxRelocSize := Relocations.WriteFailed, 0;
    var ok;
    ok, codeSize := CodeSections.WriteCode(archive, ss);
    if ok {
      st, maxRelocSize := Relocations.WriteRelocations(archive, secs, typeOf, rt, env);
      if st == Relocations.Wrote {
        OverwriteAppend(d0, o0, CodeSections.CodeLayout(ss), Relocations.RelocLayout(env, secs));
      }
    }
  }

  /** The padding and the head written at `o`, then the code and the relocations after them: the padded block. */
  lemma PaddedBlobWritten(d0: seq<byte>, o: nat, pos: nat, pcOffset: i32, name: seq<byte>, code: seq<byte>,
                          relocs: seq<byte>, d: seq<byte>)
    requires pos == o + AlignPadding(o)
    requires d == Overwrite(Overwrite(d0, o, Zeros(AlignPadding(o)) + BlobHead(pcOffset, name, pos)),
                            pos + |BlobHead(pcOffset, name, pos)|, code + relocs)
    ensures d == Overwrite(d0, o, PaddedBlobBlock(o, pcOffset, name, code, relocs))
    ensures pos + |BlobHead(pcOffset, name, pos)| + |code + relocs| == o + |PaddedBlobBlock(o, pcOffset, name, code, relocs)|
  {
    var pad, h := Zeros(AlignPadding(o)), BlobHead(pcOffset, name, pos);
    OverwriteAppend(d0, o, pad + h, code + relocs);
    assert (pad + h) + (code + relocs) == PaddedBlobBlock(o, pcOffset, name, code, relocs);
  }

  /**
   * The writes of `store_exception_blob`: the head, then `write_code`,
   * then `write_relocations`. `WriteFatal` is the `fatal` of a relocation
   * the archive cannot carry, which ends the VM.
   */
  method WriteBlobBlock(archive: Archive.SCAFile, pcOffset: i32, name: seq<byte>, ss: seq<CodeSections.Section>,
                        secs: seq<Relocations.RelocSection>, typeOf: u16 -> Relocations.RelocType,
                        rt: AddressTable.Runtime, ghost env: Relocations.Env)
    returns (st: Relocations.WriteStatus, pos: nat, codeSize: nat, maxRelocSize: nat)
    requires archive.ForWrite() && archive.fileOffset <= |archive.data|
    requires archive.table != null && archive.table.Valid()
    requires |ss| == CodeSections.SECT_LIMIT && CodeSections.AllValid(ss)
    requires |secs| == CodeSections.SECT_LIMIT && forall i :: 0 <= i < |secs| ==> secs[i].Valid()
    requires env == Relocations.EnvOf(archive.table, typeOf, rt)
    modifies archive`data, archive`fileOffset, archive`failed
    ensures env == Relocations.EnvOf(archive.table, typeOf, rt)
    ensures st == Relocations.Wrote ==> Relocations.Writable(env, secs)
    ensures st == Relocations.Wrote ==>
      var o := old(archive.fileOffset);
      var written := StoredBlob(o, pcOffset, name, ss, secs, env);
      && pos == o + AlignPadding(o)
      && archive.ForWrite() && archive.fileOffset <= |archive.data|
      && archive.data == Overwrite(old(archive.data), o, written)
      && archive.fileOffset == o + |written|
      && codeSize == CodeSections.CodeSize(ss)
      && maxRelocSize == Relocations.MaxCount(secs) * Relocations.RELOC_INFO_SIZE
    ensures st == Relocations.WriteFatal ==> !Relocations.Writable(env, secs)
    ensures st == Relocations.WriteFailed ==> archive.failed
    ensures archive.failed || (archive.ForWrite() && archive.fileOffset <= |archive.data|)
  {
    ghost var d0, o0 := archive.data, archive.fileOffset;
    st, codeSize, maxRelocSize := Relocations.WriteFailed, 0, 0;
    var ok;
    ok, pos := WriteBlobHead(archive, pcOffset, name);
    if ok {
      st, codeSize, maxRelocSize := WriteBlobBody(archive, ss, secs, typeOf, rt, env);
      if st == Relocations.Wrote {
        PaddedBlobWritten(d0, o0, pos, pcOffset, name, CodeSections.CodeLayout(ss), Relocations.RelocLayout(env, secs),
                          archive.data);
      }
    }
  }

  /** The entry of `store_exception_blob`, appended once the block is written. */
  method RecordBlob(archive: Archive.SCAFile, pos: nat, name: seq<byte>, codeLen: nat, codeSize: nat, relocSize: nat)
    returns (e: SCAEntry)
    requires archive.Valid() && !archive.forRead
    requires |Archive.Written(archive.writeEntries)| + 1 < 0x8000_0000
    modifies archive`writeEntries, archive.header`entriesCount
    ensures archive.Valid()
    ensures e == BlobEntry(pos, name, codeLen, codeSize, relocSize, old(archive.header.entriesCount))
    ensures archive.writeEntries == Some(Archive.Written(old(archive.writeEntries)) + [e])
  {
    var codeOffset := 4 + |name| + 1 + AlignPadding(pos + 4 + |name| + 1);
    e := RecordEntry(archive, U32Of(pos), 4, U32Of(|name| + 1), U32Of(codeOffset), U32Of(codeSize),
                     U32Of(codeOffset + codeLen), U32Of(relocSize), Blob, BLOB_ID);
  }

  /** The entry built from what the writes report is the entry of the stored blob. */
  lemma EntryOfStoredBlob(pos: nat, o: nat, name: seq<byte>, ss: seq<CodeSections.Section>,
                          secs: seq<Relocations.RelocSection>, codeSize: nat, relocSize: nat, idx: u32)
    requires CodeSections.AllValid(ss) && pos == o + AlignPadding(o) && codeSize == CodeSections.CodeSize(ss)
    requires relocSize == Relocations.MaxCount(secs) * Relocations.RELOC_INFO_SIZE
    ensures BlobEntry(pos, name, |CodeSections.CodeLayout(ss)|, codeSize, relocSize, idx)
            == StoredBlobEntry(o, name, ss, secs, idx)
  {
  }

  /**
   * `store_exception_blob`: the block, then the entry. Nothing is stored
   * unless the archive is open for writing; a write that fails fails the
   * archive.
   */
  method StoreBlob(archive: Archive.SCAFile, pcOffset: i32, name: seq<byte>, ss: seq<CodeSections.Section>,
                   secs: seq<Relocations.RelocSection>, typeOf: u16 -> Relocations.RelocType, rt: AddressTable.Runtime)
    returns (st: Relocations.WriteStatus)
    requires archive.Valid() && |Archive.Written(archive.writeEntries)| + 1 < 0x8000_0000
    requires |ss| == CodeSections.SECT_LIMIT && CodeSections.AllValid(ss)
    requires |secs| == CodeSections.SECT_LIMIT && forall i :: 0 <= i < |secs| ==> secs[i].Valid()
    modifies archive`data, archive`fileOffset, archive`failed, archive`writeEntries, archive.header`entriesCount
    ensures archive.Valid()
    ensures !old(archive.ForWrite()) ==> st == Relocations.WriteFailed && unchanged(archive, archive.header)
    ensures old(archive.ForWrite()) ==>
      var env := old(Relocations.EnvOf(archive.table, typeOf, rt));
      && (st == Relocations.Wrote ==>
            var o := old(archive.fileOffset);
            && Relocations.Writable(env, secs)
            && var written := StoredBlob(o, pcOffset, name, ss, secs, env);
            && archive.ForWrite()
            && archive.data == Overwrite(old(archive.data), o, written)
            && archive.fileOffset == o + |written|
            && archive.writeEntries
               == Some(Archive.Written(old(archive.writeEntries))
                       + [StoredBlobEntry(o, name, ss, secs, old(archive.header.entriesCount))]))
      && (st == Relocations.WriteFatal ==> !Relocations.Writable(env, secs))
      && (st == Relocations.WriteFailed ==> archive.failed)
  {
    st := Relocations.WriteFailed;
    if Archive.OpenForWrite(archive) {
      archive.KeptWhileWriting();
      ghost var env := Relocations.EnvOf(archive.table, typeOf, rt);
      ghost var o := archive.fileOffset;
      var pos, codeSize, maxRelocSize;
      st, pos, codeSize, maxRelocSize := WriteBlobBlock(archive, pcOffset, name, ss, secs, typeOf, rt, env);
      archive.ValidAfterWriting();
      if st == Relocations.Wrote {
        EntryOfStoredBlob(pos, o, name, ss, secs, codeSize, maxRelocSize, archive.header.entriesCount);
        var e := RecordBlob(archive, pos, name, |CodeSections.CodeLayout(ss)|, codeSize, maxRelocSize);
      }
    }
  }

  // ---------------------------------------------------------------------
  // Loading.

  /** `read_code` at the entry's code. */
  method ReadCodeAt(archive: Archive.SCAFile, e: SCAEntry, caps: seq<nat>) returns (ok: bool, ss: seq<CodeSections.Section>)
    requires archive.ForRead() && |caps| == CodeSections.SECT_LIMIT
    modifies archive`fileOffset, archive`failed
    ensures var p := CodeAt(archive.data, e, caps);
      && ok == p.Decoded?
      && (ok ==> ss == p.value && archive.ForRead())
      && (p.Short? ==> archive.failed)
      && (p.Refused? ==> archive.ForRead())
  {
    var positioned := archive.SeekToPosition(e.offset + e.codeOffset);
    if !positioned {
      return false, [];
    }
    ok, ss := CodeSections.ReadCode(archive, caps);
  }

  /** `read_relocations` at the entry's relocations, with the entry's `reloc_size`. */
  method ReadRelocsAt(archive: Archive.SCAFile, e: SCAEntry, typeOf: u16 -> Relocations.RelocType, rt: AddressTable.Runtime)
    returns (p: Decoded<seq<Relocations.LoadedSection>>)
    requires archive.ForRead() && archive.table != null && archive.table.Valid()
    modifies archive`fileOffset, archive`failed
    ensures p == RelocsAt(archive.data, e, Relocations.EnvOf(archive.table, typeOf, rt))
    ensures p.Decoded? ==> archive.ForRead()
    ensures p.Short? ==> archive.failed
    ensures p.Refused? ==> archive.ForRead()
  {
    var positioned := archive.SeekToPosition(e.offset + e.relocOffset);
    if !positioned {
      return Short;
    }
    p := Relocations.ReadRelocations(archive, typeOf, rt, e.relocSize);
  }

  /**
   * The reads of `load_exception_blob` after the name: the code, then the
   * relocations. A code section too large for its buffer declines the
   * blob without failing the archive.
   */
  method ReadBlobParts(archive: Archive.SCAFile, e: SCAEntry, pc: i32, caps: seq<nat>,
                       typeOf: u16 -> Relocations.RelocType, rt: AddressTable.Runtime)
    returns (r: Outcome<BlobImage>)
    requires archive.ForRead() && archive.table != null && archive.table.Valid()
    requires |caps| == CodeSections.SECT_LIMIT
    modifies archive`fileOffset, archive`failed
    ensures r == BlobParts(pc, CodeAt(archive.data, e, caps), RelocsAt(archive.data, e, Relocations.EnvOf(archive.table, typeOf, rt)))
    ensures r.Failed? ==> archive.failed
    ensures r.Loaded? ==> archive.ForRead()
  {
    var ok, ss := ReadCodeAt(archive, e, caps);
    if !ok {
      return if archive.failed then Failed else Declined;
    }
    var relocs := ReadRelocsAt(archive, e, typeOf, rt);
    if !relocs.Decoded? {
      return Unloaded(relocs);
    }
    return Loaded(BlobImage(pc, ss, relocs.value));
  }

  /** The reads of `load_exception_blob` once the entry is found: the pc offset, the name, then the parts. */
  method ReadBlob(archive: Archive.SCAFile, e: SCAEntry, name: seq<byte>, caps: seq<nat>,
                  typeOf: u16 -> Relocations.RelocType, rt: AddressTable.Runtime)
    returns (r: Outcome<BlobImage>)
    requires archive.ForRead() && archive.table != null && archive.table.Valid()
    requires |caps| == CodeSections.SECT_LIMIT
    modifies archive`fileOffset, archive`failed
    ensures r == BlobFrom(archive.data, e, name, caps, Relocations.EnvOf(archive.table, typeOf, rt))
    ensures r.Failed? ==> archive.failed
    ensures r.Loaded? ==> archive.ForRead()
  {
    var positioned := archive.SeekToPosition(e.offset);
    if !positioned {
      return Failed;
    }
    var ok, pc := archive.ReadExactly(4);
    if !ok {
      return Failed;
    }
    var named := CheckName(archive, e, name);
    if !named.Loaded? {
      return named.Fail();
    }
    r := ReadBlobParts(archive, e, DecodeI32(pc), caps, typeOf, rt);
  }

  /**
   * `load_exception_blob`: nothing unless the archive is open for reading
   * and holds the blob's entry; `caps` are the capacities of the
   * buffer's sections.
   */
  method LoadBlob(archive: Archive.SCAFile, name: seq<byte>, caps: seq<nat>,
                  typeOf: u16 -> Relocations.RelocType, rt: AddressTable.Runtime)
    returns (r: Outcome<BlobImage>)
    requires archive.Valid() && |caps| == CodeSections.SECT_LIMIT
    modifies archive`entries, archive`fileOffset, archive`failed
    ensures archive.Valid()
    ensures !old(archive.ForRead()) ==> r == Missing && unchanged(archive)
    ensures old(archive.ForRead()) ==>
      var found := Lookup(archive.entries, Blob, BLOB_ID);
      && (found.None? ==> r == Missing)
      && (found.Some? ==> r == BlobFrom(archive.data, found.value, name, caps, Relocations.EnvOf(archive.table, typeOf, rt)))
      && (archive.entries.None? ==> archive.failed)
    ensures r.Failed? ==> archive.failed
    ensures r.Loaded? ==> archive.ForRead()
  {
    r := Missing;
    if Archive.OpenForRead(archive) {
      var found := archive.FindEntry(Blob, BLOB_ID);
      if found.Some? {
        r := ReadBlob(archive, archive.entries.value[found.value], name, caps, typeOf, rt);
      }
    }
  }
}
