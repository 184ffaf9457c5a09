/**
 * Compiled methods: `SCAFile::store_nmethod` and `SCAFile::load_nmethod`
 * (SCArchive.cpp). Only a method compiled by C2 for its normal entry (not
 * an on-stack replacement) is stored; it goes under kind `Code` and its
 * compile id. Its block starts at an aligned position `pos` and holds: the
 * name and its NUL (the name is `name_and_sig_as_C_string()`), zero
 * padding to the next multiple of 8, then at `code_offset` the body (the
 * prologue of flags, `orig_pc_offset`, `frame_size` and `CodeOffsets`,
 * the metadata, the side tables and the code sections), and at
 * `reloc_offset` the relocation sections.
 *
 * The loader reads the body in one sequence from `code_offset`, then
 * seeks to the relocations.
 */
module Nmethods {
  import opened Bytes
  import opened Wrappers
  import opened FileImage
  import opened Index
  import opened Artifacts
  import Archive
  import AddressTable
  import CodeSections
  import Relocations
  import Metadata
  import SideTables
  import Blobs

  /** HotSpot's `InvocationEntryBci`: the bci of a method's normal entry. */
  const INVOCATION_ENTRY_BCI: int := -1

  /** The methods both directions accept: a normal entry, compiled by C2. */
  predicate Shareable(entryBci: int, isC2: bool)
  {
    entryBci == INVOCATION_ENTRY_BCI && isC2
  }

  /** The words `store_nmethod` writes in front of the metadata: the flags, `orig_pc_offset`, `frame_size`, `CodeOffsets`. */
  datatype Prologue = Prologue(flags: NmethodFlags, origPcOffset: i32, frameSize: i32, offsets: seq<byte>)

  /** What `store_nmethod` is handed besides the method, the compile id and the entry bci. */
  datatype Nmethod = Nmethod(prologue: Prologue, metadata: seq<Metadata.Item>, tables: SideTables.SideTables,
                             sections: seq<CodeSections.Section>, relocs: seq<Relocations.RelocSection>)
  {
    /** What the writer needs to lay the method out: sizes that fit their `int` counts, three sections of each kind. */
    predicate Writable()
    {
      && Metadata.AllValid(metadata)
      && |tables.debug.data| < 0x8000_0000 && |tables.dependencies| < 0x8000_0000
      && |tables.oopMaps| < 0x8000_0000 && SideTables.DataFits(tables.oopMaps)
      && |sections| == CodeSections.SECT_LIMIT && CodeSections.AllValid(sections)
      && |relocs| == CodeSections.SECT_LIMIT && (forall i :: 0 <= i < |relocs| ==> relocs[i].Valid())
    }

    /** As HotSpot's objects hold it, for the type sizes `sz`. */
    predicate Valid(sz: SideTables.Sizes)
    {
      Writable() && |prologue.offsets| == sz.codeOffsets && tables.Valid(sz)
    }

    /** Every part went through one `write_bytes`, which moves fewer than 2^32 bytes. */
    predicate Fits()
    {
      |prologue.offsets| < U32_MODULUS && tables.Fits()
    }
  }

  /** What `load_nmethod` reads from `code_offset` up to the relocations. */
  datatype LoadedBody = LoadedBody(prologue: Prologue, methods: seq<Option<Metadata.MethodId>>,
                                   tables: SideTables.SideTables, sections: seq<CodeSections.Section>)

  /** What `load_nmethod` hands `register_method`. */
  datatype NmethodImage = NmethodImage(body: LoadedBody, relocs: seq<Relocations.LoadedSection>)

  // ---------------------------------------------------------------------
  // Layouts.

  /** The flags word `(unsafe << 16) | (wide << 8) | monitors`, `orig_pc_offset`, `frame_size`, `CodeOffsets`. */
  function PrologueLayout(p: Prologue): seq<byte>
  {
    I32Bytes(PackFlags(p.flags)) + I32Bytes(p.origPcOffset) + I32Bytes(p.frameSize) + p.offsets
  }

  /** The side tables, then `write_code`. */
  function TablesAndCodeLayout(t: SideTables.SideTables, ss: seq<CodeSections.Section>): seq<byte>
    requires |t.debug.data| < 0x8000_0000 && |t.dependencies| < 0x8000_0000
    requires |t.oopMaps| < 0x8000_0000 && SideTables.DataFits(t.oopMaps)
    requires CodeSections.AllValid(ss)
  {
    SideTables.SideTablesLayout(t) + CodeSections.CodeLayout(ss)
  }

  /** `write_metadata`, then the side tables and the code. */
  function AfterPrologueLayout(ms: seq<Metadata.Item>, t: SideTables.SideTables, ss: seq<CodeSections.Section>): seq<byte>
    requires Metadata.AllValid(ms)
    requires |t.debug.data| < 0x8000_0000 && |t.dependencies| < 0x8000_0000
    requires |t.oopMaps| < 0x8000_0000 && SideTables.DataFits(t.oopMaps)
    requires CodeSections.AllValid(ss)
  {
    Metadata.MetadataLayout(ms) + TablesAndCodeLayout(t, ss)
  }

  /** Everything from `code_offset` up to `reloc_offset`. */
  function BodyLayout(n: Nmethod): seq<byte>
    requires n.Writable()
  {
    PrologueLayout(n.prologue) + AfterPrologueLayout(n.metadata, n.tables, n.sections)
  }

  /** The part of the block in front of `code_offset`: the name and NUL, the padding. */
  function NmethodHead(name: seq<byte>, pos: nat): seq<byte>
  {
    name + [0] + Zeros(AlignPadding(pos + |name| + 1))
  }

  /** The whole block at `pos`, given the bytes of the body and of the relocations. */
  function NmethodBlock(name: seq<byte>, pos: nat, body: seq<byte>, relocs: seq<byte>): seq<byte>
  {
    NmethodHead(name, pos) + body + relocs
  }

  /**
   * What `store_nmethod` writes from the offset `o` it starts at: the
   * padding up to the next aligned offset, then the block there.
   */
  function PaddedNmethodBlock(o: nat, name: seq<byte>, body: seq<byte>, relocs: seq<byte>): seq<byte>
  {
    Zeros(AlignPadding(o)) + NmethodBlock(name, o + AlignPadding(o), body, relocs)
  }

  /** The padded block of `n` stored from `o`, its relocations as `env` encodes them. */
  function StoredNmethod(o: nat, name: seq<byte>, n: Nmethod, env: Relocations.Env): seq<byte>
    requires n.Writable() && env.Valid() && Relocations.Writable(env, n.relocs)
  {
    PaddedNmethodBlock(o, name, BodyLayout(n), Relocations.RelocLayout(env, n.relocs))
  }

  /**
   * The entry `store_nmethod` appends: the name at offset 0, the body
   * after the head, the relocations after the body (`bodyLen` bytes),
   * `code_size` the bytes of code proper and `reloc_size` the writer's
   * `max_reloc_size`; the id is the compile id as a `uint32_t`.
   */
  function NmethodEntry(pos: nat, name: seq<byte>, bodyLen: nat, codeSize: nat, relocSize: nat,
                        compileId: i32, idx: u32): SCAEntry
  {
    var codeOffset := |name| + 1 + AlignPadding(pos + |name| + 1);
    NewEntry(U32Of(pos), 0, U32Of(|name| + 1), U32Of(codeOffset), U32Of(codeSize),
             U32Of(codeOffset + bodyLen), U32Of(relocSize), Code, U32Of(compileId), idx)
  }

  /** The entry of `n` stored from `o`: at the aligned offset, with the sizes of its body, code and relocations. */
  function StoredNmethodEntry(o: nat, name: seq<byte>, n: Nmethod, compileId: i32, idx: u32): SCAEntry
    requires n.Writable()
  {
    NmethodEntry(o + AlignPadding(o), name, |BodyLayout(n)|, CodeSections.CodeSize(n.sections),
                 Relocations.MaxCount(n.relocs) * Relocations.RELOC_INFO_SIZE, compileId, idx)
  }

  // ---------------------------------------------------------------------
  // Reading. `CodeOffsets` is read as `sizeof(CodeOffsets)` raw bytes.

  /** The prologue from the front of `s`: three `int`s and the offsets; any short read decides. */
  function DecodePrologue(s: seq<byte>, sz: SideTables.Sizes): (r: Decoded<Prologue>)
    ensures r.Decoded? ==> r.used <= |s|
    ensures r.Decoded? || r.Short?
  {
    if |s| < 12 then Short
    else
      var k := sz.codeOffsets;
      if k >= U32_MODULUS || |s| < 12 + k then Short
      else Decoded(Prologue(UnpackFlags(DecodeI32(s[..4])), DecodeI32(s[4..8]), DecodeI32(s[8..12]), s[12..12 + k]),
                   12 + k)
  }

  /** The side tables, then `read_code` into buffers of capacities `caps`. */
  function DecodeTablesAndCode(s: seq<byte>, sz: SideTables.Sizes, caps: seq<nat>)
    : (r: Decoded<(SideTables.SideTables, seq<CodeSections.Section>)>)
    ensures r.Decoded? ==> r.used <= |s|
    ensures !r.Crash?
  {
    var t := SideTables.DecodeSideTables(s, sz);
    if !t.Decoded? then Short else
    var c := CodeSections.DecodeSections(s[t.used..], caps);
    if !c.Decoded? then c.Fail()
    else Decoded((t.value, c.value), t.used + c.used)
  }

  /** `read_metadata`, then the side tables and the code. */
  function DecodeAfterPrologue(s: seq<byte>, sz: SideTables.Sizes, res: Metadata.Resolver, caps: seq<nat>)
    : (r: Decoded<(seq<Option<Metadata.MethodId>>, SideTables.SideTables, seq<CodeSections.Section>)>)
    ensures r.Decoded? ==> r.used <= |s|
  {
    var m := Metadata.DecodeMetadata(s, res);
    if !m.Decoded? then m.Fail() else
    var c := DecodeTablesAndCode(s[m.used..], sz, caps);
    if !c.Decoded? then c.Fail()
    else Decoded((m.value, c.value.0, c.value.1), m.used + c.used)
  }

  /** The body as `load_nmethod` reads it from `code_offset`. */
  function DecodeBody(s: seq<byte>, sz: SideTables.Sizes, res: Metadata.Resolver, caps: seq<nat>)
    : (r: Decoded<LoadedBody>)
    ensures r.Decoded? ==> r.used <= |s|
  {
    var p := DecodePrologue(s, sz);
    if !p.Decoded? then Short else
    var a := DecodeAfterPrologue(s[p.used..], sz, res, caps);
    if !a.Decoded? then a.Fail()
    else Decoded(LoadedBody(p.value, a.value.0, a.value.1, a.value.2), p.used + a.used)
  }

  /** The body at the entry's code. */
  function BodyAt(d: seq<byte>, e: SCAEntry, sz: SideTables.Sizes, res: Metadata.Resolver, caps: seq<nat>)
    : Decoded<LoadedBody>
  {
    DecodeBody(Rest(d, e.offset + e.codeOffset), sz, res, caps)
  }

  /**
   * How `load_nmethod` ends once the name has matched, given what it
   * reads at the body and then at the relocations: the first read that
   * does not succeed decides.
   */
  function NmethodParts(body: Decoded<LoadedBody>, relocs: Decoded<seq<Relocations.LoadedSection>>)
    : Outcome<NmethodImage>
  {
    if !body.Decoded? then Unloaded(body)
    else if !relocs.Decoded? then Unloaded(relocs)
    else Loaded(NmethodImage(body.value, relocs.value))
  }

  /**
   * What `load_nmethod` makes of the data for the entry `e`, asked for the
   * method `name`, with the type sizes `sz`, the resolver `res` of the
   * metadata, the capacities `caps` of the buffer's sections and the
   * relocation environment `env`.
   */
  function NmethodFrom(d: seq<byte>, e: SCAEntry, name: seq<byte>, caps: seq<nat>, sz: SideTables.Sizes,
                       res: Metadata.Resolver, env: Relocations.Env): Outcome<NmethodImage>
  {
    var named := NameAt(d, e, name);
    if !named.Loaded? then named.Fail()
    else NmethodParts(BodyAt(d, e, sz, res, caps), Blobs.RelocsAt(d, e, env))
  }

  // ---------------------------------------------------------------------
  // Round trips of the body's parts.

  /** The prologue read from bytes whose fields are those of `p`. */
  lemma PrologueFromFields(s: seq<byte>, p: Prologue, sz: SideTables.Sizes)
    requires |p.offsets| == sz.codeOffsets < U32_MODULUS && 12 + sz.codeOffsets <= |s|
    requires UnpackFlags(DecodeI32(s[..4])) == p.flags
    requires DecodeI32(s[4..8]) == p.origPcOffset && DecodeI32(s[8..12]) == p.frameSize
    requires s[12..12 + sz.codeOffsets] == p.offsets
    ensures DecodePrologue(s, sz) == Decoded(p, 12 + |p.offsets|)
  {
  }

  lemma PrologueRoundTrip(p: Prologue, t: seq<byte>, sz: SideTables.Sizes)
    requires |p.offsets| == sz.codeOffsets < U32_MODULUS
    ensures DecodePrologue(PrologueLayout(p) + t, sz) == Decoded(p, |PrologueLayout(p)|)
  {
    var a, b, c := I32Bytes(PackFlags(p.flags)), I32Bytes(p.origPcOffset), I32Bytes(p.frameSize);
    var s := PrologueLayout(p) + t;
    Fields4Of(a, b, c, p.offsets, t);
    I32RoundTrip(PackFlags(p.flags));
    FlagsRoundTrip(p.flags);
    I32RoundTrip(p.origPcOffset);
    I32RoundTrip(p.frameSize);
    PrologueFromFields(s, p, sz);
  }

  /** The prologue read from bytes that start with its layout. */
  lemma PrologueAtFront(p: Prologue, s: seq<byte>, sz: SideTables.Sizes)
    requires |p.offsets| == sz.codeOffsets < U32_MODULUS
    requires |PrologueLayout(p)| <= |s| && s[..|PrologueLayout(p)|] == PrologueLayout(p)
    ensures DecodePrologue(s, sz) == Decoded(p, |PrologueLayout(p)|)
  {
    SplitFront(s, PrologueLayout(p));
    PrologueRoundTrip(p, s[|PrologueLayout(p)|..], sz);
  }

  /** `read_metadata` on bytes that start with what `write_metadata` wrote: the methods, or a refusal. */
  lemma MetadataAtFront(ms: seq<Metadata.Item>, s: seq<byte>, res: Metadata.Resolver)
    requires Metadata.AllValid(ms)
    requires |Metadata.MetadataLayout(ms)| <= |s| && s[..|Metadata.MetadataLayout(ms)|] == Metadata.MetadataLayout(ms)
    ensures Metadata.AllResolvable(res, ms) ==>
              Metadata.DecodeMetadata(s, res) == Decoded(Metadata.Methods(res, ms), |Metadata.MetadataLayout(ms)|)
    ensures !Metadata.AllResolvable(res, ms) ==> Metadata.DecodeMetadata(s, res) == Refused
  {
    SplitFront(s, Metadata.MetadataLayout(ms));
    Metadata.MetadataRoundTrip(ms, s[|Metadata.MetadataLayout(ms)|..], res);
  }

  /** The side tables read from bytes that start with their layout. */
  lemma SideTablesAtFront(tables: SideTables.SideTables, s: seq<byte>, sz: SideTables.Sizes)
    requires sz.Valid() && tables.Valid(sz) && tables.Fits() && SideTables.DataFits(tables.oopMaps)
    requires |SideTables.SideTablesLayout(tables)| <= |s|
    requires s[..|SideTables.SideTablesLayout(tables)|] == SideTables.SideTablesLayout(tables)
    ensures SideTables.DecodeSideTables(s, sz) == Decoded(tables, |SideTables.SideTablesLayout(tables)|)
  {
    SplitFront(s, SideTables.SideTablesLayout(tables));
    SideTables.SideTablesRoundTrip(tables, s[|SideTables.SideTablesLayout(tables)|..], sz);
  }

  /** The code sections read from bytes that start with their layout. */
  lemma CodeAtFront(ss: seq<CodeSections.Section>, caps: seq<nat>, s: seq<byte>)
    requires CodeSections.AllValid(ss) && CodeSections.AllFit(ss, caps)
    requires |CodeSections.CodeLayout(ss)| <= |s| && s[..|CodeSections.CodeLayout(ss)|] == CodeSections.CodeLayout(ss)
    ensures CodeSections.DecodeSections(s, caps) == Decoded(ss, |CodeSections.CodeLayout(ss)|)
  {
    SplitFront(s, CodeSections.CodeLayout(ss));
    CodeSections.CodeRoundTrip(ss, caps, s[|CodeSections.CodeLayout(ss)|..]);
  }

  /** The side tables and the code read back from bytes that start with their layout. */
  lemma TablesAndCodeAtFront(tables: SideTables.SideTables, ss: seq<CodeSections.Section>, s: seq<byte>,
                             sz: SideTables.Sizes, caps: seq<nat>)
    requires sz.Valid() && tables.Valid(sz) && tables.Fits() && SideTables.DataFits(tables.oopMaps)
    requires CodeSections.AllValid(ss) && CodeSections.AllFit(ss, caps)
    requires |TablesAndCodeLayout(tables, ss)| <= |s| && s[..|TablesAndCodeLayout(tables, ss)|] == TablesAndCodeLayout(tables, ss)
    ensures DecodeTablesAndCode(s, sz, caps) == Decoded((tables, ss), |TablesAndCodeLayout(tables, ss)|)
  {
    var a, c := SideTables.SideTablesLayout(tables), CodeSections.CodeLayout(ss);
    FrontParts(s, a, c);
    SideTablesAtFront(tables, s, sz);
    CodeAtFront(ss, caps, s[|a|..]);
    TablesAndCodeOfParts(s, sz, caps, tables, ss, |a|, |c|);
  }

  /** The side tables and the code read back from what each of their readers gives. */
  lemma TablesAndCodeOfParts(s: seq<byte>, sz: SideTables.Sizes, caps: seq<nat>, tables: SideTables.SideTables,
                             ss: seq<CodeSections.Section>, la: nat, lc: nat)
    requires la <= |s| && SideTables.DecodeSideTables(s, sz) == Decoded(tables, la)
    requires CodeSections.DecodeSections(s[la..], caps) == Decoded(ss, lc)
    ensures DecodeTablesAndCode(s, sz, caps) == Decoded((tables, ss), la + lc)
  {
  }

  /** The metadata, side tables and code read back: the methods resolve, or the reader refuses. */
  lemma AfterPrologueAtFront(ms: seq<Metadata.Item>, tables: SideTables.SideTables, ss: seq<CodeSections.Section>,
                             s: seq<byte>, sz: SideTables.Sizes, res: Metadata.Resolver, caps: seq<nat>)
    requires Metadata.AllValid(ms)
    requires sz.Valid() && tables.Valid(sz) && tables.Fits() && SideTables.DataFits(tables.oopMaps)
    requires CodeSections.AllValid(ss) && CodeSections.AllFit(ss, caps)
    requires |AfterPrologueLayout(ms, tables, ss)| <= |s|
    requires s[..|AfterPrologueLayout(ms, tables, ss)|] == AfterPrologueLayout(ms, tables, ss)
    ensures Metadata.AllResolvable(res, ms) ==>
              DecodeAfterPrologue(s, sz, res, caps)
              == Decoded((Metadata.Methods(res, ms), tables, ss), |AfterPrologueLayout(ms, tables, ss)|)
    ensures !Metadata.AllResolvable(res, ms) ==> DecodeAfterPrologue(s, sz, res, caps) == Refused
  {
    var a, c := Metadata.MetadataLayout(ms), TablesAndCodeLayout(tables, ss);
    FrontParts(s, a, c);
    MetadataAtFront(ms, s, res);
    if Metadata.AllResolvable(res, ms) {
      TablesAndCodeAtFront(tables, ss, s[|a|..], sz, caps);
      AfterMetadata(s, sz, res, caps, Metadata.Methods(res, ms), |a|, (tables, ss), |c|,
                    |AfterPrologueLayout(ms, tables, ss)|);
    } else {
      AfterRefusedMetadata(s, sz, res, caps);
    }
  }

  /** The read after a metadata block that resolved: the tables and code that follow it. */
  lemma AfterMetadata(s: seq<byte>, sz: SideTables.Sizes, res: Metadata.Resolver, caps: seq<nat>,
                      methods: seq<Option<Metadata.MethodId>>, m: nat,
                      tc: (SideTables.SideTables, seq<CodeSections.Section>), k: nat, n: nat)
    requires Metadata.DecodeMetadata(s, res) == Decoded(methods, m)
    requires m <= |s| && DecodeTablesAndCode(s[m..], sz, caps) == Decoded(tc, k) && n == m + k
    ensures DecodeAfterPrologue(s, sz, res, caps) == Decoded((methods, tc.0, tc.1), n)
  {
  }

  /** A refused metadata block ends the read there. */
  lemma AfterRefusedMetadata(s: seq<byte>, sz: SideTables.Sizes, res: Metadata.Resolver, caps: seq<nat>)
    requires Metadata.DecodeMetadata(s, res) == Refused
    ensures DecodeAfterPrologue(s, sz, res, caps) == Refused
  {
  }

  /**
   * The body `store_nmethod` writes, read back by `load_nmethod` from any
   * bytes that start with it: the prologue, the resolved methods, the side
   * tables and the code sections when every metadata lookup succeeds; a
   * refusal otherwise.
   */
  lemma BodyAtFront(n: Nmethod, s: seq<byte>, sz: SideTables.Sizes, res: Metadata.Resolver, caps: seq<nat>)
    requires sz.Valid() && n.Valid(sz) && n.Fits() && CodeSections.AllFit(n.sections, caps)
    requires |BodyLayout(n)| <= |s| && s[..|BodyLayout(n)|] == BodyLayout(n)
    ensures DecodeBody(s, sz, res, caps) == BodyBack(n, res)
  {
    var p, a := PrologueLayout(n.prologue), AfterPrologueLayout(n.metadata, n.tables, n.sections);
    FrontParts(s, p, a);
    PrologueAtFront(n.prologue, s, sz);
    AfterPrologueAtFront(n.metadata, n.tables, n.sections, s[|p|..], sz, res, caps);
    if Metadata.AllResolvable(res, n.metadata) {
      AfterPrologue(s, sz, res, caps, n.prologue, |p|, (Metadata.Methods(res, n.metadata), n.tables, n.sections), |a|,
                    |BodyLayout(n)|);
    } else {
      RefusedAfterPrologue(s, sz, res, caps, n.prologue, |p|);
    }
  }

  /**
   * What `load_nmethod` reads back from the body of `n`: the prologue, the
   * resolved methods, the side tables and the code sections when every
   * metadata lookup succeeds; a refusal otherwise.
   */
  function BodyBack(n: Nmethod, res: Metadata.Resolver): Decoded<LoadedBody>
    requires n.Writable()
  {
    if Metadata.AllResolvable(res, n.metadata)
    then Decoded(LoadedBody(n.prologue, Metadata.Methods(res, n.metadata), n.tables, n.sections), |BodyLayout(n)|)
    else Refused
  }

  /** The read of a body whose prologue was read: what follows it decides. */
  lemma AfterPrologue(s: seq<byte>, sz: SideTables.Sizes, res: Metadata.Resolver, caps: seq<nat>, p: Prologue, m: nat,
                      a: (seq<Option<Metadata.MethodId>>, SideTables.SideTables, seq<CodeSections.Section>), k: nat,
                      n: nat)
    requires DecodePrologue(s, sz) == Decoded(p, m)
    requires m <= |s| && DecodeAfterPrologue(s[m..], sz, res, caps) == Decoded(a, k) && n == m + k
    ensures DecodeBody(s, sz, res, caps) == Decoded(LoadedBody(p, a.0, a.1, a.2), n)
  {
  }

  /** A refusal after the prologue ends the read of the body there. */
  lemma RefusedAfterPrologue(s: seq<byte>, sz: SideTables.Sizes, res: Metadata.Resolver, caps: seq<nat>, p: Prologue,
                             m: nat)
    requires DecodePrologue(s, sz) == Decoded(p, m)
    requires m <= |s| && DecodeAfterPrologue(s[m..], sz, res, caps) == Refused
    ensures DecodeBody(s, sz, res, caps) == Refused
  {
  }

  /** The body read at the entry's code, where the block's body starts. */
  lemma BodyAtRoundTrip(d: seq<byte>, e: SCAEntry, n: Nmethod, sz: SideTables.Sizes, res: Metadata.Resolver,
                        caps: seq<nat>)
    requires sz.Valid() && n.Valid(sz) && n.Fits() && CodeSections.AllFit(n.sections, caps)
    requires var s := Rest(d, e.offset + e.codeOffset);
      |BodyLayout(n)| <= |s| && s[..|BodyLayout(n)|] == BodyLayout(n)
    ensures BodyAt(d, e, sz, res, caps) == BodyBack(n, res)
  {
    BodyAtFront(n, Rest(d, e.offset + e.codeOffset), sz, res, caps);
  }

  // ---------------------------------------------------------------------
  // The round trip of the whole record.

  /** The fields of the entry of a block that fits the 32-bit offsets. */
  lemma NmethodEntryFields(pos: nat, name: seq<byte>, bodyLen: nat, codeSize: nat, relocLen: nat, relocSize: nat,
                           compileId: i32, idx: u32)
    requires pos + |NmethodHead(name, pos)| + bodyLen + relocLen < U32_MODULUS
    requires codeSize <= bodyLen && relocSize < U32_MODULUS
    ensures var e := NmethodEntry(pos, name, bodyLen, codeSize, relocSize, compileId, idx);
      && e.offset == pos && e.nameOffset == 0 && e.nameSize == |name| + 1
      && e.codeOffset == |NmethodHead(name, pos)| && e.relocOffset == e.codeOffset + bodyLen
      && e.codeSize == codeSize && e.relocSize == relocSize
      && e.kind == Code && e.id == U32Of(compileId) && e.idx == idx
      && (e.offset + e.codeOffset) % ALIGNMENT == 0
  {
  }

  /** The name read back from the head of a block. */
  lemma HeadOfNmethod(d: seq<byte>, pos: nat, name: seq<byte>, body: seq<byte>, relocs: seq<byte>)
    requires var block := NmethodBlock(name, pos, body, relocs);
      pos + |block| <= |d| && d[pos..pos + |block|] == block && |block| < U32_MODULUS
    ensures TakeAt(d, pos, |name| + 1) == Some(name + [0])
  {
    var block := NmethodBlock(name, pos, body, relocs);
    assert block[..|name| + 1] == name + [0];
    SliceWithin(d, pos, block, 0, |name| + 1);
  }

  /** `code_size` counts the code bytes, which the body holds. */
  lemma CodeSizeInBody(n: Nmethod)
    requires n.Writable()
    ensures CodeSections.CodeSize(n.sections) <= |BodyLayout(n)|
  {
    Blobs.CodeSizeBound(n.sections);
  }

  /** The body and the relocations read back from a stored block, and the entry's fields the loader uses. */
  lemma NmethodPartsRoundTrip(d: seq<byte>, pos: nat, name: seq<byte>, n: Nmethod, env: Relocations.Env,
                              compileId: i32, idx: u32, caps: seq<nat>, sz: SideTables.Sizes, res: Metadata.Resolver)
    requires sz.Valid() && n.Valid(sz) && n.Fits() && CodeSections.AllFit(n.sections, caps)
    requires env.Valid() && env.table.complete && Relocations.AllCarried(env, n.relocs)
    requires Relocations.Writable(env, n.relocs)
    requires var block := NmethodBlock(name, pos, BodyLayout(n), Relocations.RelocLayout(env, n.relocs));
      pos + |block| < U32_MODULUS && pos + |block| <= |d| && d[pos..pos + |block|] == block
    ensures var e := NmethodEntry(pos, name, |BodyLayout(n)|, CodeSections.CodeSize(n.sections),
                                  Relocations.MaxCount(n.relocs) * Relocations.RELOC_INFO_SIZE, compileId, idx);
      && e.offset == pos && e.nameOffset == 0 && e.nameSize == |name| + 1
      && BodyAt(d, e, sz, res, caps) == BodyBack(n, res)
      && Blobs.RelocsAt(d, e, env)
         == Decoded(Relocations.AllLoaded(env, n.relocs), |Relocations.RelocLayout(env, n.relocs)|)
  {
    var body, relocs := BodyLayout(n), Relocations.RelocLayout(env, n.relocs);
    var head := NmethodHead(name, pos);
    var maxCount := Relocations.MaxCount(n.relocs);
    var e := NmethodEntry(pos, name, |body|, CodeSections.CodeSize(n.sections), maxCount * Relocations.RELOC_INFO_SIZE,
                          compileId, idx);
    Blobs.MaxCountBound(env, n.relocs);
    CodeSizeInBody(n);
    NmethodEntryFields(pos, name, |body|, CodeSections.CodeSize(n.sections), |relocs|,
                       maxCount * Relocations.RELOC_INFO_SIZE, compileId, idx);
    var after := Rest(d, pos + |head + body + relocs|);
    Blobs.PartsAt(d, e, head, body, relocs);
    BodyAtRoundTrip(d, e, n, sz, res, caps);
    Relocations.MaxRelocSizeFits(n.relocs);
    Blobs.RelocsAtBlock(d, e, relocs + after, n.relocs, env);
  }

  /** `load_nmethod` from what each of its reads gives. */
  lemma NmethodFromParts(d: seq<byte>, e: SCAEntry, asked: seq<byte>, caps: seq<nat>, sz: SideTables.Sizes,
                         res: Metadata.Resolver, env: Relocations.Env, body: Decoded<LoadedBody>,
                         relocs: seq<Relocations.LoadedSection>, m: nat)
    requires BodyAt(d, e, sz, res, caps) == body && Blobs.RelocsAt(d, e, env) == Decoded(relocs, m)
    requires body.Decoded? || body.Refused?
    ensures var named := NameAt(d, e, asked);
      NmethodFrom(d, e, asked, caps, sz, res, env)
      == if !named.Loaded? then named.Fail()
         else if body.Decoded? then Loaded(NmethodImage(body.value, relocs))
         else Declined
  {
  }

  /**
   * The loader's reads of a method stored at `pos`: when the name it is
   * asked for starts with the stored name, it gives back the flags, the
   * offsets and sizes, the resolved methods, the side tables, the code
   * sections and the loaded relocations, or declines when a method of the
   * metadata does not resolve; any other name fails the archive.
   */
  lemma NmethodRoundTrip(d: seq<byte>, pos: nat, name: seq<byte>, n: Nmethod, env: Relocations.Env,
                         compileId: i32, idx: u32, asked: seq<byte>, caps: seq<nat>,
                         sz: SideTables.Sizes, res: Metadata.Resolver)
    requires NoNul(name) && NoNul(asked)
    requires sz.Valid() && n.Valid(sz) && n.Fits() && CodeSections.AllFit(n.sections, caps)
    requires env.Valid() && env.table.complete && Relocations.AllCarried(env, n.relocs)
    requires Relocations.Writable(env, n.relocs)
    requires var block := NmethodBlock(name, pos, BodyLayout(n), Relocations.RelocLayout(env, n.relocs));
      pos + |block| < U32_MODULUS && pos + |block| <= |d| && d[pos..pos + |block|] == block
    ensures var e := NmethodEntry(pos, name, |BodyLayout(n)|, CodeSections.CodeSize(n.sections),
                                  Relocations.MaxCount(n.relocs) * Relocations.RELOC_INFO_SIZE, compileId, idx);
      NmethodFrom(d, e, asked, caps, sz, res, env)
      == if !(|name| <= |asked| && asked[..|name|] == name) then Failed
         else if !Metadata.AllResolvable(res, n.metadata) then Declined
         else Loaded(NmethodImage(LoadedBody(n.prologue, Metadata.Methods(res, n.metadata), n.tables, n.sections),
                                  Relocations.AllLoaded(env, n.relocs)))
  {
    var body, relocs := BodyLayout(n), Relocations.RelocLayout(env, n.relocs);
    var e := NmethodEntry(pos, name, |body|, CodeSections.CodeSize(n.sections),
                          Relocations.MaxCount(n.relocs) * Relocations.RELOC_INFO_SIZE, compileId, idx);
    HeadOfNmethod(d, pos, name, body, relocs);
    NmethodPartsRoundTrip(d, pos, name, n, env, compileId, idx, caps, sz, res);
    NameRoundTrip(d, e, name, asked);
    NmethodFromParts(d, e, asked, caps, sz, res, env, BodyAt(d, e, sz, res, caps),
                     Relocations.AllLoaded(env, n.relocs), |relocs|);
  }

  /**
   * What `store_nmethod` writes from `o` over any image, `load_nmethod`
   * reads back through the entry it records.
   */
  lemma StoredNmethodLoads(d: seq<byte>, o: nat, name: seq<byte>, n: Nmethod, env: Relocations.Env,
                           compileId: i32, idx: u32, asked: seq<byte>, caps: seq<nat>,
                           sz: SideTables.Sizes, res: Metadata.Resolver)
    requires NoNul(name) && NoNul(asked)
    requires sz.Valid() && n.Valid(sz) && n.Fits() && CodeSections.AllFit(n.sections, caps)
    requires env.Valid() && env.table.complete && Relocations.AllCarried(env, n.relocs)
    requires Relocations.Writable(env, n.relocs)
    requires o + |StoredNmethod(o, name, n, env)| < U32_MODULUS
    ensures NmethodFrom(Overwrite(d, o, StoredNmethod(o, name, n, env)), StoredNmethodEntry(o, name, n, compileId, idx),
                        asked, caps, sz, res, env)
            == if !(|name| <= |asked| && asked[..|name|] == name) then Failed
               else if !Metadata.AllResolvable(res, n.metadata) then Declined
               else Loaded(NmethodImage(LoadedBody(n.prologue, Metadata.Methods(res, n.metadata), n.tables, n.sections),
                                        Relocations.AllLoaded(env, n.relocs)))
  {
    var pos := o + AlignPadding(o);
    var block := NmethodBlock(name, pos, BodyLayout(n), Relocations.RelocLayout(env, n.relocs));
    var written := StoredNmethod(o, name, n, env);
    StoredNmethodIsPadded(o, name, n, env);
    PaddedAt(d, o, Zeros(AlignPadding(o)), block, written);
    NmethodRoundTrip(Overwrite(d, o, written), pos, name, n, env, compileId, idx, asked, caps, sz, res);
    EntryOfStored(pos, o, name, n, CodeSections.CodeSize(n.sections),
                  Relocations.MaxCount(n.relocs) * Relocations.RELOC_INFO_SIZE, compileId, idx);
  }

  /** The stored nmethod is the padding, then the block at the aligned offset. */
  lemma StoredNmethodIsPadded(o: nat, name: seq<byte>, n: Nmethod, env: Relocations.Env)
    requires n.Writable() && env.Valid() && Relocations.Writable(env, n.relocs)
    ensures StoredNmethod(o, name, n, env)
            == Zeros(AlignPadding(o)) + NmethodBlock(name, o + AlignPadding(o), BodyLayout(n),
                                                     Relocations.RelocLayout(env, n.relocs))
  {
  }

  // ---------------------------------------------------------------------
  // The oop maps as SCArchive.cpp loads them.

  /**
   * `load_nmethod` as written: `read_oop_maps(OopMapSet* oop_maps)` takes
   * its argument by value and assigns the set it builds to its own copy,
   * so the caller's `oop_maps` is still `nullptr` when it is passed to
   * `register_method`. The maps are read (the reads and the failures are
   * the same) but none reach the method, modelled as an empty list.
   */
  function NmethodFromAsWritten(d: seq<byte>, e: SCAEntry, name: seq<byte>, caps: seq<nat>, sz: SideTables.Sizes,
                                res: Metadata.Resolver, env: Relocations.Env): Outcome<NmethodImage>
  {
    match NmethodFrom(d, e, name, caps, sz, res, env)
    case Loaded(img) => Loaded(img.(body := img.body.(tables := img.body.tables.(oopMaps := []))))
    case other => other
  }

  /**
   * A method stored with oop maps loads, as written, without them: the
   * load succeeds and registers no maps, where the corrected load gives
   * back the maps that were stored.
   */
  lemma OopMapsLostAsWritten(d: seq<byte>, pos: nat, name: seq<byte>, n: Nmethod, env: Relocations.Env,
                             compileId: i32, idx: u32, caps: seq<nat>, sz: SideTables.Sizes, res: Metadata.Resolver)
    requires NoNul(name)
    requires sz.Valid() && n.Valid(sz) && n.Fits() && CodeSections.AllFit(n.sections, caps)
    requires env.Valid() && env.table.complete && Relocations.AllCarried(env, n.relocs)
    requires Relocations.Writable(env, n.relocs) && Metadata.AllResolvable(res, n.metadata)
    requires n.tables.oopMaps != []
    requires var block := NmethodBlock(name, pos, BodyLayout(n), Relocations.RelocLayout(env, n.relocs));
      pos + |block| < U32_MODULUS && pos + |block| <= |d| && d[pos..pos + |block|] == block
    ensures var e := NmethodEntry(pos, name, |BodyLayout(n)|, CodeSections.CodeSize(n.sections),
                                  Relocations.MaxCount(n.relocs) * Relocations.RELOC_INFO_SIZE, compileId, idx);
      var asWritten, intended := NmethodFromAsWritten(d, e, name, caps, sz, res, env), NmethodFrom(d, e, name, caps, sz, res, env);
      && asWritten.Loaded? && asWritten.value.body.tables.oopMaps == []
      && intended.Loaded? && intended.value.body.tables.oopMaps == n.tables.oopMaps
  {
    assert name[..|name|] == name;
    NmethodRoundTrip(d, pos, name, n, env, compileId, idx, name, caps, sz, res);
  }

  // ---------------------------------------------------------------------
  // Storing.

  /** The writes of `store_nmethod` in front of the body: align, the name and NUL, align. */
  method WriteNmethodHead(archive: Archive.SCAFile, name: seq<byte>) returns (ok: bool, pos: nat)
    requires archive.ForWrite() && archive.fileOffset <= |archive.data|
    requires archive.table != null && archive.table.Valid()
    modifies archive`data, archive`fileOffset, archive`failed
    ensures archive.table.Valid() && archive.table.View() == old(archive.table.View())
    ensures ok ==>
      var o := old(archive.fileOffset);
      && pos == o + AlignPadding(o)
      && archive.ForWrite() && archive.fileOffset <= |archive.data|
      && archive.data == Overwrite(old(archive.data), o, Zeros(AlignPadding(o)) + NmethodHead(name, pos))
      && archive.fileOffset == pos + |NmethodHead(name, pos)|
    ensures !ok ==> archive.failed
  {
    ghost var d0, o0 := archive.data, archive.fileOffset;
    pos := 0;
    ok := AppendPadding(archive, d0, o0, []);
    if ok {
      pos := archive.fileOffset;
      ghost var pad := Zeros(AlignPadding(o0));
      assert [] + pad == pad;
      ok := Append(archive, name + [0], d0, o0, pad);
      if ok {
        ok := AppendPadding(archive, d0, o0, pad + (name + [0]));
        assert pad + (name + [0]) + Zeros(AlignPadding(pos + |name| + 1)) == pad + NmethodHead(name, pos);
      }
    }
  }

  /** The flags word, `orig_pc_offset`, `frame_size` and `CodeOffsets`, each through one `write_bytes`. */
  method WritePrologue(archive: Archive.SCAFile, p: Prologue) returns (ok: bool)
    requires archive.ForWrite() && archive.fileOffset <= |archive.data|
    modifies archive`data, archive`fileOffset, archive`failed
    ensures ok ==>
      && archive.data == Overwrite(old(archive.data), old(archive.fileOffset), PrologueLayout(p))
      && archive.fileOffset == old(archive.fileOffset) + |PrologueLayout(p)|
      && archive.ForWrite() && archive.fileOffset <= |archive.data|
      && |p.offsets| < U32_MODULUS
    ensures !ok ==> archive.failed
  {
    ghost var d0, o0 := archive.data, archive.fileOffset;
    var a, b, c := I32Bytes(PackFlags(p.flags)), I32Bytes(p.origPcOffset), I32Bytes(p.frameSize);
    OverwriteEmpty(d0, o0);
    assert [] + a == a;
    ok := Append(archive, a, d0, o0, []);
    if !ok {
      return;
    }
    ok := Append(archive, b, d0, o0, a);
    if !ok {
      return;
    }
    ok := Append(archive, c, d0, o0, a + b);
    if !ok {
      return;
    }
    ok := Append(archive, p.offsets, d0, o0, a + b + c);
  }

  /** The side tables, then `write_code`; `codeSize` is the `code_size` it reports. */
  method WriteTablesAndCode(archive: Archive.SCAFile, t: SideTables.SideTables, ss: seq<CodeSections.Section>)
    returns (ok: bool, codeSize: nat)
    requires archive.ForWrite() && archive.fileOffset <= |archive.data|
    requires |t.debug.data| < 0x8000_0000 && |t.dependencies| < 0x8000_0000
    requires |t.oopMaps| < 0x8000_0000 && SideTables.DataFits(t.oopMaps)
    requires |ss| == CodeSections.SECT_LIMIT && CodeSections.AllValid(ss)
    modifies archive`data, archive`fileOffset, archive`failed
    ensures ok ==>
      && archive.data == Overwrite(old(archive.data), old(archive.fileOffset), TablesAndCodeLayout(t, ss))
      && archive.fileOffset == old(archive.fileOffset) + |TablesAndCodeLayout(t, ss)|
      && archive.ForWrite() && archive.fileOffset <= |archive.data|
      && t.Fits() && codeSize == CodeSections.CodeSize(ss)
    ensures !ok ==> archive.failed
  {
    ghost var d0, o0 := archive.data, archive.fileOffset;
    codeSize := 0;
    ok := SideTables.WriteSideTables(archive, t);
    if !ok {
      return;
    }
    ok, codeSize := CodeSections.WriteCode(archive, ss);
    if ok {
      OverwriteAppend(d0, o0, SideTables.SideTablesLayout(t), CodeSections.CodeLayout(ss));
    }
  }

  /** `write_metadata`, then the side tables and the code. */
  method WriteAfterPrologue(archive: Archive.SCAFile, ms: seq<Metadata.Item>, t: SideTables.SideTables,
                            ss: seq<CodeSections.Section>)
    returns (ok: bool, codeSize: nat)
    requires archive.ForWrite() && archive.fileOffset <= |archive.data| && Metadata.AllValid(ms)
    requires |t.debug.data| < 0x8000_0000 && |t.dependencies| < 0x8000_0000
    requires |t.oopMaps| < 0x8000_0000 && SideTables.DataFits(t.oopMaps)
    requires |ss| == CodeSections.SECT_LIMIT && CodeSections.AllValid(ss)
    modifies archive`data, archive`fileOffset, archive`failed
    ensures ok ==>
      && archive.data == Overwrite(old(archive.data), old(archive.fileOffset), AfterPrologueLayout(ms, t, ss))
      && archive.fileOffset == old(archive.fileOffset) + |AfterPrologueLayout(ms, t, ss)|
      && archive.ForWrite() && archive.fileOffset <= |archive.data|
      && t.Fits() && codeSize == CodeSections.CodeSize(ss)
    ensures !ok ==> archive.failed
  {
    ghost var d0, o0 := archive.data, archive.fileOffset;
    codeSize := 0;
    ok := Metadata.WriteMetadata(archive, ms);
    if !ok {
      return;
    }
    ok, codeSize := WriteTablesAndCode(archive, t, ss);
    if ok {
      OverwriteAppend(d0, o0, Metadata.MetadataLayout(ms), TablesAndCodeLayout(t, ss));
    }
  }

  /** Everything `store_nmethod` writes from `code_offset` up to the relocations. */
  method WriteBody(archive: Archive.SCAFile, n: Nmethod) returns (ok: bool, codeSize: nat)
    requires archive.ForWrite() && archive.fileOffset <= |archive.data| && n.Writable()
    requires archive.table != null && archive.table.Valid()
    modifies archive`data, archive`fileOffset, archive`failed
    ensures archive.table.Valid() && archive.table.View() == old(archive.table.View())
    ensures ok ==>
      && archive.data == Overwrite(old(archive.data), old(archive.fileOffset), BodyLayout(n))
      && archive.fileOffset == old(archive.fileOffset) + |BodyLayout(n)|
      && archive.ForWrite() && archive.fileOffset <= |archive.data|
      && n.Fits() && codeSize == CodeSections.CodeSize(n.sections)
    ensures !ok ==> archive.failed
  {
    ghost var d0, o0 := archive.data, archive.fileOffset;
    codeSize := 0;
    ok := WritePrologue(archive, n.prologue);
    if !ok {
      return;
    }
    ok, codeSize := WriteAfterPrologue(archive, n.metadata, n.tables, n.sections);
    if ok {
      OverwriteAppend(d0, o0, PrologueLayout(n.prologue), AfterPrologueLayout(n.metadata, n.tables, n.sections));
    }
  }

  /** The padding and the head written at `o`, then the body and the relocations after them: the padded block. */
  lemma PaddedBlockWritten(d0: seq<byte>, o: nat, pos: nat, name: seq<byte>, body: seq<byte>, relocs: seq<byte>,
                           d: seq<byte>)
    requires pos == o + AlignPadding(o)
    requires d == Overwrite(Overwrite(d0, o, Zeros(AlignPadding(o)) + NmethodHead(name, pos)),
                            pos + |NmethodHead(name, pos)|, body + relocs)
    ensures d == Overwrite(d0, o, PaddedNmethodBlock(o, name, body, relocs))
    ensures pos + |NmethodHead(name, pos)| + |body + relocs| == o + |PaddedNmethodBlock(o, name, body, relocs)|
  {
    var pad, h := Zeros(AlignPadding(o)), NmethodHead(name, pos);
    OverwriteAppend(d0, o, pad + h, body + relocs);
    assert (pad + h) + (body + relocs) == PaddedNmethodBlock(o, name, body, relocs);
  }

  /** The body, then `write_relocations`: the bytes from `code_offset` to the end of the block. */
  method WriteBodyAndRelocs(archive: Archive.SCAFile, n: Nmethod, typeOf: u16 -> Relocations.RelocType,
                            rt: AddressTable.Runtime, ghost env: Relocations.Env)
    returns (st: Relocations.WriteStatus, codeSize: nat, maxRelocSize: nat)
    requires archive.ForWrite() && archive.fileOffset <= |archive.data|
    requires archive.table != null && archive.table.Valid() && n.Writable()
    requires env == Relocations.EnvOf(archive.table, typeOf, rt)
    modifies archive`data, archive`fileOffset, archive`failed
    ensures st == Relocations.Wrote ==> Relocations.Writable(env, n.relocs)
    ensures st == Relocations.Wrote ==>
      var tail := BodyLayout(n) + Relocations.RelocLayout(env, n.relocs);
      && n.Fits()
      && archive.ForWrite() && archive.fileOffset <= |archive.data|
      && archive.data == Overwrite(old(archive.data), old(archive.fileOffset), tail)
      && archive.fileOffset == old(archive.fileOffset) + |tail|
      && codeSize == CodeSections.CodeSize(n.sections)
      && maxRelocSize == Relocations.MaxCount(n.relocs) * Relocations.RELOC_INFO_SIZE
    ensures st == Relocations.WriteFatal ==> !Relocations.Writable(env, n.relocs)
    ensures st == Relocations.WriteFailed ==> archive.failed
    ensures archive.failed || (archive.ForWrite() && archive.fileOffset <= |archive.data|)
  {
    ghost var d0, o0 := archive.data, archive.fileOffset;
    st, maxRelocSize := Relocations.WriteFailed, 0;
    var ok;
    ok, codeSize := WriteBody(archive, n);
    if !ok {
      return;
    }
    st, maxRelocSize := Relocations.WriteRelocations(archive, n.relocs, typeOf, rt, env);
    if st == Relocations.Wrote {
      OverwriteAppend(d0, o0, BodyLayout(n), Relocations.RelocLayout(env, n.relocs));
    }
  }

  /**
   * The writes of `store_nmethod`: the head, the body, then
   * `write_relocations`. `WriteFatal` is the `fatal` of a relocation the
   * archive cannot carry, which ends the VM.
   */
  method WriteNmethodBlock(archive: Archive.SCAFile, name: seq<byte>, n: Nmethod,
                           typeOf: u16 -> Relocations.RelocType, rt: AddressTable.Runtime, ghost env: Relocations.Env)
    returns (st: Relocations.WriteStatus, pos: nat, codeSize: nat, maxRelocSize: nat)
    requires archive.ForWrite() && archive.fileOffset <= |archive.data|
    requires archive.table != null && archive.table.Valid() && n.Writable()
    requires env == Relocations.EnvOf(archive.table, typeOf, rt)
    modifies archive`data, archive`fileOffset, archive`failed
    ensures st == Relocations.Wrote ==> Relocations.Writable(env, n.relocs)
    ensures st == Relocations.Wrote ==>
      var o := old(archive.fileOffset);
      var written := StoredNmethod(o, name, n, env);
      && n.Fits()
      && pos == o + AlignPadding(o)
      && archive.ForWrite() && archive.fileOffset <= |archive.data|
      && archive.data == Overwrite(old(archive.data), o, written)
      && archive.fileOffset == o + |written|
      && codeSize == CodeSections.CodeSize(n.sections)
      && maxRelocSize == Relocations.MaxCount(n.relocs) * Relocations.RELOC_INFO_SIZE
    ensures st == Relocations.WriteFatal ==> !Relocations.Writable(env, n.relocs)
    ensures st == Relocations.WriteFailed ==> archive.failed
    ensures archive.failed || (archive.ForWrite() && archive.fileOffset <= |archive.data|)
  {
    ghost var d0, o0 := archive.data, archive.fileOffset;
    st, codeSize, maxRelocSize := Relocations.WriteFailed, 0, 0;
    var ok;
    ok, pos := WriteNmethodHead(archive, name);
    if !ok {
      return;
    }
    st, codeSize, maxRelocSize := WriteBodyAndRelocs(archive, n, typeOf, rt, env);
    if st == Relocations.Wrote {
      PaddedBlockWritten(d0, o0, pos, name, BodyLayout(n), Relocations.RelocLayout(env, n.relocs), archive.data);
    }
  }

  /** The entry of `store_nmethod`, appended once the block is written. */
  method RecordNmethod(archive: Archive.SCAFile, pos: nat, name: seq<byte>, bodyLen: nat, codeSize: nat,
                       relocSize: nat, compileId: i32)
    returns (e: SCAEntry)
    requires archive.Valid() && !archive.forRead
    requires |Archive.Written(archive.writeEntries)| + 1 < 0x8000_0000
    modifies archive`writeEntries, archive.header`entriesCount
    ensures archive.Valid()
    ensures archive.data == old(archive.data) && archive.fileOffset == old(archive.fileOffset)
    ensures archive.ForWrite() == old(archive.ForWrite())
    ensures e == NmethodEntry(pos, name, bodyLen, codeSize, relocSize, compileId, old(archive.header.entriesCount))
    ensures archive.writeEntries == Some(Archive.Written(old(archive.writeEntries)) + [e])
  {
    var codeOffset := |name| + 1 + AlignPadding(pos + |name| + 1);
    e := RecordEntry(archive, U32Of(pos), 0, U32Of(|name| + 1), U32Of(codeOffset), U32Of(codeSize),
                     U32Of(codeOffset + bodyLen), U32Of(relocSize), Code, U32Of(compileId));
  }

  /** The entry built from what the writes report is the entry of the stored nmethod. */
  lemma EntryOfStored(pos: nat, o: nat, name: seq<byte>, n: Nmethod, codeSize: nat, relocSize: nat, compileId: i32,
                      idx: u32)
    requires n.Writable() && pos == o + AlignPadding(o) && codeSize == CodeSections.CodeSize(n.sections)
    requires relocSize == Relocations.MaxCount(n.relocs) * Relocations.RELOC_INFO_SIZE
    ensures NmethodEntry(pos, name, |BodyLayout(n)|, codeSize, relocSize, compileId, idx)
            == StoredNmethodEntry(o, name, n, compileId, idx)
  {
  }

  /**
   * `store_nmethod`: nothing is stored for an on-stack-replacement entry,
   * a method not compiled by C2, or an archive not open for writing;
   * otherwise the block, then the entry under the compile id. A write that
   * fails fails the archive.
   */
  method StoreNmethod(archive: Archive.SCAFile, compileId: i32, entryBci: int, isC2: bool, name: seq<byte>,
                      n: Nmethod, typeOf: u16 -> Relocations.RelocType, rt: AddressTable.Runtime)
    returns (st: Relocations.WriteStatus)
    requires archive.Valid() && |Archive.Written(archive.writeEntries)| + 1 < 0x8000_0000
    requires n.Writable()
    modifies archive`data, archive`fileOffset, archive`failed, archive`writeEntries, archive.header`entriesCount
    ensures archive.Valid()
    ensures !(Shareable(entryBci, isC2) && old(archive.ForWrite())) ==>
      st == Relocations.WriteFailed && unchanged(archive, archive.header)
    ensures Shareable(entryBci, isC2) && old(archive.ForWrite()) ==>
      var env := old(Relocations.EnvOf(archive.table, typeOf, rt));
      && (st == Relocations.Wrote ==>
            var o := old(archive.fileOffset);
            && Relocations.Writable(env, n.relocs) && n.Fits()
            && var written := StoredNmethod(o, name, n, env);
            && archive.ForWrite()
            && archive.data == Overwrite(old(archive.data), o, written)
            && archive.fileOffset == o + |written|
            && archive.writeEntries
               == Some(Archive.Written(old(archive.writeEntries))
                       + [StoredNmethodEntry(o, name, n, compileId, old(archive.header.entriesCount))]))
      && (st == Relocations.WriteFatal ==> !Relocations.Writable(env, n.relocs))
      && (st == Relocations.WriteFailed ==> archive.failed)
  {
    st := Relocations.WriteFailed;
    if !Shareable(entryBci, isC2) {
      return;
    }
    if Archive.OpenForWrite(archive) {
      archive.KeptWhileWriting();
      ghost var env := Relocations.EnvOf(archive.table, typeOf, rt);
      ghost var o := archive.fileOffset;
      var pos, codeSize, maxRelocSize;
      st, pos, codeSize, maxRelocSize := WriteNmethodBlock(archive, name, n, typeOf, rt, env);
      archive.ValidAfterWriting();
      if st == Relocations.Wrote {
        EntryOfStored(pos, o, name, n, codeSize, maxRelocSize, compileId, archive.header.entriesCount);
        var e := RecordNmethod(archive, pos, name, |BodyLayout(n)|, codeSize, maxRelocSize, compileId);
      }
    }
  }

  // ---------------------------------------------------------------------
  // Loading.

  /** The prologue in terms of the four reads of `load_nmethod`, each on what the previous one left. */
  lemma PrologueFromReads(s: seq<byte>, s3: seq<byte>, sz: SideTables.Sizes, a: seq<byte>, b: seq<byte>,
                          c: seq<byte>, offsets: seq<byte>)
    requires |s| >= 12 && a == s[..4] && b == s[4..8] && c == s[8..12] && s3 == s[12..]
    ensures sz.codeOffsets >= U32_MODULUS || sz.codeOffsets > |s3| ==> DecodePrologue(s, sz) == Short
    ensures sz.codeOffsets < U32_MODULUS && sz.codeOffsets <= |s3| && offsets == s3[..sz.codeOffsets] ==>
      DecodePrologue(s, sz)
      == Decoded(Prologue(UnpackFlags(DecodeI32(a)), DecodeI32(b), DecodeI32(c), offsets), 12 + sz.codeOffsets)
  {
    if sz.codeOffsets < U32_MODULUS && sz.codeOffsets <= |s3| {
      assert s3[..sz.codeOffsets] == s[12..12 + sz.codeOffsets];
    }
  }

  /** The flags word, `orig_pc_offset`, `frame_size` and `CodeOffsets` of `load_nmethod`. */
  method ReadPrologue(archive: Archive.SCAFile, sz: SideTables.Sizes) returns (r: Decoded<Prologue>)
    requires archive.ForRead()
    modifies archive`fileOffset, archive`failed
    ensures r == DecodePrologue(Rest(archive.data, old(archive.fileOffset)), sz)
    ensures r.Decoded? ==> archive.ForRead() && archive.fileOffset == old(archive.fileOffset) + r.used
    ensures !r.Decoded? ==> archive.failed
  {
    ghost var d, o0 := archive.data, archive.fileOffset;
    ghost var s := Rest(d, o0);
    TakeAtRest(d, o0, 4);
    var ok, a := archive.ReadExactly(4);
    if !ok {
      return Short;
    }
    ghost var o1 := archive.fileOffset;
    ghost var s1 := Rest(d, o1);
    TakeAtRest(d, o1, 4);
    var b;
    ok, b := archive.ReadExactly(4);
    if !ok {
      return Short;
    }
    ghost var o2 := archive.fileOffset;
    ghost var s2 := Rest(d, o2);
    TakeAtRest(d, o2, 4);
    var c;
    ok, c := archive.ReadExactly(4);
    if !ok {
      return Short;
    }
    ghost var o3 := archive.fileOffset;
    ghost var s3 := Rest(d, o3);
    assert s1 == s[4..] && s2 == s1[4..] && s3 == s2[4..];
    assert a == s[..4] && b == s[4..8] && c == s[8..12] && s3 == s[12..];
    TakeAtRest(d, o3, sz.codeOffsets);
    var offsets;
    ok, offsets := archive.ReadExactly(sz.codeOffsets);
    PrologueFromReads(s, s3, sz, a, b, c, offsets);
    if !ok {
      return Short;
    }
    r := Decoded(Prologue(UnpackFlags(DecodeI32(a)), DecodeI32(b), DecodeI32(c), offsets), 12 + sz.codeOffsets);
  }

  lemma TablesAndCodeSteps(s: seq<byte>, sz: SideTables.Sizes, caps: seq<nat>, s1: seq<byte>,
                           t: Decoded<SideTables.SideTables>, c: Decoded<seq<CodeSections.Section>>)
    requires t == SideTables.DecodeSideTables(s, sz)
    requires t.Decoded? ==> s1 == s[t.used..] && c == CodeSections.DecodeSections(s1, caps)
    ensures DecodeTablesAndCode(s, sz, caps)
            == if !t.Decoded? then Short
               else if !c.Decoded? then c.Fail()
               else Decoded((t.value, c.value), t.used + c.used)
  {
  }

  /** The side tables, then `read_code`; a section too large for its buffer refuses without failing the archive. */
  method ReadTablesAndCode(archive: Archive.SCAFile, sz: SideTables.Sizes, caps: seq<nat>)
    returns (r: Decoded<(SideTables.SideTables, seq<CodeSections.Section>)>)
    requires archive.ForRead() && |caps| == CodeSections.SECT_LIMIT
    modifies archive`fileOffset, archive`failed
    ensures r == DecodeTablesAndCode(Rest(archive.data, old(archive.fileOffset)), sz, caps)
    ensures r.Decoded? ==> archive.ForRead() && archive.fileOffset == old(archive.fileOffset) + r.used
    ensures r.Short? ==> archive.failed
    ensures r.Refused? ==> archive.ForRead()
  {
    ghost var d, o := archive.data, archive.fileOffset;
    ghost var s1: seq<byte> := [];
    var t := SideTables.ReadSideTables(archive, sz);
    if !t.Decoded? {
      TablesAndCodeSteps(Rest(d, o), sz, caps, s1, t, Short);
      return Short;
    }
    RestRest(d, o, t.used);
    s1 := Rest(d, archive.fileOffset);
    ghost var c := CodeSections.DecodeSections(s1, caps);
    TablesAndCodeSteps(Rest(d, o), sz, caps, s1, t, c);
    var start := archive.fileOffset;
    var ok, ss := CodeSections.ReadCode(archive, caps);
    if !ok {
      return if archive.failed then Short else Refused;
    }
    r := Decoded((t.value, ss), t.used + (archive.fileOffset - start));
  }

  lemma AfterPrologueSteps(s: seq<byte>, sz: SideTables.Sizes, res: Metadata.Resolver, caps: seq<nat>, s1: seq<byte>,
                           m: Decoded<seq<Option<Metadata.MethodId>>>,
                           c: Decoded<(SideTables.SideTables, seq<CodeSections.Section>)>)
    requires m == Metadata.DecodeMetadata(s, res)
    requires m.Decoded? ==> s1 == s[m.used..] && c == DecodeTablesAndCode(s1, sz, caps)
    ensures DecodeAfterPrologue(s, sz, res, caps)
            == if !m.Decoded? then m.Fail()
               else if !c.Decoded? then c.Fail()
               else Decoded((m.value, c.value.0, c.value.1), m.used + c.used)
  {
  }

  /** `read_metadata`, then the side tables and the code. */
  method ReadAfterPrologue(archive: Archive.SCAFile, sz: SideTables.Sizes, res: Metadata.Resolver, caps: seq<nat>)
    returns (r: Decoded<(seq<Option<Metadata.MethodId>>, SideTables.SideTables, seq<CodeSections.Section>)>)
    requires archive.ForRead() && |caps| == CodeSections.SECT_LIMIT
    modifies archive`fileOffset, archive`failed
    ensures r == DecodeAfterPrologue(Rest(archive.data, old(archive.fileOffset)), sz, res, caps)
    ensures r.Decoded? ==> archive.ForRead() && archive.fileOffset == old(archive.fileOffset) + r.used
    ensures r.Short? ==> archive.failed
    ensures r.Refused? ==> archive.ForRead()
  {
    ghost var d, o := archive.data, archive.fileOffset;
    ghost var s1: seq<byte> := [];
    var m := Metadata.ReadMetadata(archive, res);
    if !m.Decoded? {
      AfterPrologueSteps(Rest(d, o), sz, res, caps, s1, m, Short);
      return m.Fail();
    }
    RestRest(d, o, m.used);
    s1 := Rest(d, archive.fileOffset);
    var c := ReadTablesAndCode(archive, sz, caps);
    AfterPrologueSteps(Rest(d, o), sz, res, caps, s1, m, c);
    if !c.Decoded? {
      return c.Fail();
    }
    r := Decoded((m.value, c.value.0, c.value.1), m.used + c.used);
  }

  lemma BodySteps(s: seq<byte>, sz: SideTables.Sizes, res: Metadata.Resolver, caps: seq<nat>, s1: seq<byte>,
                  p: Decoded<Prologue>,
                  a: Decoded<(seq<Option<Metadata.MethodId>>, SideTables.SideTables, seq<CodeSections.Section>)>)
    requires p == DecodePrologue(s, sz)
    requires p.Decoded? ==> s1 == s[p.used..] && a == DecodeAfterPrologue(s1, sz, res, caps)
    ensures DecodeBody(s, sz, res, caps)
            == if !p.Decoded? then Short
               else if !a.Decoded? then a.Fail()
               else Decoded(LoadedBody(p.value, a.value.0, a.value.1, a.value.2), p.used + a.used)
  {
  }

  /** The reads of `load_nmethod` from `code_offset` to the end of the code. */
  method ReadBody(archive: Archive.SCAFile, e: SCAEntry, sz: SideTables.Sizes, res: Metadata.Resolver, caps: seq<nat>)
    returns (r: Decoded<LoadedBody>)
    requires archive.ForRead() && |caps| == CodeSections.SECT_LIMIT
    requires archive.table != null && archive.table.Valid()
    modifies archive`fileOffset, archive`failed
    ensures archive.table.Valid()
    ensures r == BodyAt(archive.data, e, sz, res, caps)
    ensures r.Decoded? ==> archive.ForRead()
    ensures r.Short? ==> archive.failed
    ensures r.Refused? ==> archive.ForRead()
  {
    var positioned := archive.SeekToPosition(e.offset + e.codeOffset);
    if !positioned {
      return Short;
    }
    ghost var d, o := archive.data, archive.fileOffset;
    ghost var s1: seq<byte> := [];
    var p := ReadPrologue(archive, sz);
    if !p.Decoded? {
      BodySteps(Rest(d, o), sz, res, caps, s1, p, Short);
      return Short;
    }
    RestRest(d, o, p.used);
    s1 := Rest(d, archive.fileOffset);
    var a := ReadAfterPrologue(archive, sz, res, caps);
    BodySteps(Rest(d, o), sz, res, caps, s1, p, a);
    if !a.Decoded? {
      return a.Fail();
    }
    r := Decoded(LoadedBody(p.value, a.value.0, a.value.1, a.value.2), p.used + a.used);
  }

  /** The reads of `load_nmethod` once the entry is found: the name, the body, then the relocations. */
  method ReadNmethod(archive: Archive.SCAFile, e: SCAEntry, name: seq<byte>, caps: seq<nat>, sz: SideTables.Sizes,
                     res: Metadata.Resolver, typeOf: u16 -> Relocations.RelocType, rt: AddressTable.Runtime)
    returns (r: Outcome<NmethodImage>)
    requires archive.ForRead() && archive.table != null && archive.table.Valid()
    requires |caps| == CodeSections.SECT_LIMIT
    modifies archive`fileOffset, archive`failed
    ensures r == NmethodFrom(archive.data, e, name, caps, sz, res, Relocations.EnvOf(archive.table, typeOf, rt))
    ensures r.Failed? ==> archive.failed
    ensures r.Loaded? ==> archive.ForRead()
  {
    var named := CheckName(archive, e, name);
    if !named.Loaded? {
      return named.Fail();
    }
    var body := ReadBody(archive, e, sz, res, caps);
    if !body.Decoded? {
      return Unloaded(body);
    }
    var relocs := Blobs.ReadRelocsAt(archive, e, typeOf, rt);
    if !relocs.Decoded? {
      return Unloaded(relocs);
    }
    return Loaded(NmethodImage(body.value, relocs.value));
  }

  /**
   * `load_nmethod`: nothing for an on-stack-replacement entry, a method
   * not compiled by C2, an archive not open for reading, or a compile id
   * without an entry.
   */
  method LoadNmethod(archive: Archive.SCAFile, compileId: i32, entryBci: int, isC2: bool, name: seq<byte>,
                     caps: seq<nat>, sz: SideTables.Sizes, res: Metadata.Resolver,
                     typeOf: u16 -> Relocations.RelocType, rt: AddressTable.Runtime)
    returns (r: Outcome<NmethodImage>)
    requires archive.Valid() && |caps| == CodeSections.SECT_LIMIT
    modifies archive`entries, archive`fileOffset, archive`failed
    ensures archive.Valid()
    ensures !(Shareable(entryBci, isC2) && old(archive.ForRead())) ==> r == Missing && unchanged(archive)
    ensures Shareable(entryBci, isC2) && old(archive.ForRead()) ==>
      var found := Lookup(archive.entries, Code, U32Of(compileId));
      && (found.None? ==> r == Missing)
      && (found.Some? ==>
            r == NmethodFrom(archive.data, found.value, name, caps, sz, res, Relocations.EnvOf(archive.table, typeOf, rt)))
      && (archive.entries.None? ==> archive.failed)
    ensures r.Failed? ==> archive.failed
    ensures r.Loaded? ==> archive.ForRead()
  {
    r := Missing;
    if !Shareable(entryBci, isC2) {
      return;
    }
    if Archive.OpenForRead(archive) {
      var found := archive.FindEntry(Code, U32Of(compileId));
      if found.Some? {
        r := ReadNmethod(archive, archive.entries.value[found.value], name, caps, sz, res, typeOf, rt);
      }
    }
  }
}
