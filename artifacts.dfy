/**
 * The artifacts SCArchive.cpp stores besides nmethods: stubs
 * (`SCAFile::store_stub` / `load_stub`) and the exception blob
 * (`store_exception_blob` / `load_exception_blob`), with what the stores
 * and loads of all three kinds share: the outcome of a load, the name
 * check, the entry a store appends, and the flags word of an nmethod.
 *
 * A stored artifact is a block that starts at an aligned file position
 * (the entry's `offset`): the name and its NUL at `name_offset`, zero
 * padding to the next multiple of 8, the code at `code_offset` and, for
 * blobs and nmethods, the relocations at `reloc_offset`. A loader finds
 * the entry by kind and id, seeks to each part by the entry's offsets,
 * and compares the stored name with the one it was asked for.
 */
module Artifacts {
  import opened Bytes
  import opened Wrappers
  import opened FileImage
  import opened Index
  import Archive
  import AddressTable
  import CodeSections
  import Relocations

  /**
   * How a `load_*` routine ends: the restored value; nothing to load (no
   * archive open for reading, or no entry of that kind and id); `false`
   * with the archive marked failed (a short read, a stored name that
   * differs); `false` with the archive still usable; or a crash.
   */
  datatype Outcome<T> = Loaded(value: T) | Missing | Failed | Declined | Aborted
  {
    /** The same ending, from a load of another type. */
    function Fail<U>(): (r: Outcome<U>)
      requires !Loaded?
      ensures r.Missing? == Missing? && r.Failed? == Failed? && r.Declined? == Declined? && r.Aborted? == Aborted?
    {
      if Missing? then Missing else if Failed? then Failed else if Declined? then Declined else Aborted
    }
  }

  /** A reader's failure as the load it ends: a short read leaves the archive failed. */
  function Unloaded<T, U>(p: Decoded<T>): (r: Outcome<U>)
    requires !p.Decoded?
    ensures r.Failed? == p.Short? && r.Declined? == p.Refused? && r.Aborted? == p.Crash?
  {
    if p.Short? then Failed else if p.Refused? then Declined else Aborted
  }

  /** The entry `find_entry` hands back, once the entry array is loaded. */
  function Lookup(entries: Option<seq<SCAEntry>>, kind: Kind, id: u32): (r: Option<SCAEntry>)
    ensures r.Some? ==> entries.Some? && r.value in entries.value && r.value.kind == kind && r.value.id == id
    ensures entries.Some? && (exists i :: 0 <= i < |entries.value| && Matches(entries.value[i], kind, id)) ==> r.Some?
  {
    if entries.None? then Option.None
    else
      var found := FindFirst(entries.value, kind, id);
      if found.Some? then Some(entries.value[found.value]) else Option.None
  }

  // ---------------------------------------------------------------------
  // The name check.

  /**
   * The name check of the three loaders: `name_size` bytes read at the
   * entry's name and compared by `strncmp(name, saved, name_size - 1)`;
   * a mismatch marks the archive failed. With a stored size of 0 the
   * comparison runs past the empty buffer.
   */
  function NameAt(d: seq<byte>, e: SCAEntry, name: seq<byte>): Outcome<()>
  {
    match TakeAt(d, e.offset + e.nameOffset, e.nameSize)
    case None => Failed
    case Some(saved) =>
      if e.nameSize == 0 then Aborted
      else if StrNEq(name + [0], saved, e.nameSize - 1) then Loaded(())
      else Failed
  }

  /**
   * The name check against a stored name: it passes exactly when the name
   * asked for starts with the stored one (`strncmp` over the stored
   * length), and otherwise fails the archive.
   */
  lemma NameRoundTrip(d: seq<byte>, e: SCAEntry, name: seq<byte>, asked: seq<byte>)
    requires NoNul(name) && NoNul(asked)
    requires e.nameSize == |name| + 1 && TakeAt(d, e.offset + e.nameOffset, e.nameSize) == Some(name + [0])
    ensures NameAt(d, e, asked) == if |name| <= |asked| && asked[..|name|] == name then Loaded(()) else Failed
  {
    NameCheck(asked, name);
  }

  /**
   * The name check as SCArchive.cpp writes it: on a mismatch it calls
   * `failed()`, the accessor, where `set_failed()` was meant, so the
   * archive is left usable.
   */
  function NameAtAsWritten(d: seq<byte>, e: SCAEntry, name: seq<byte>): Outcome<()>
  {
    match TakeAt(d, e.offset + e.nameOffset, e.nameSize)
    case None => Failed
    case Some(saved) =>
      if e.nameSize == 0 then Aborted
      else if StrNEq(name + [0], saved, e.nameSize - 1) then Loaded(())
      else Declined
  }

  /** A stub saved as "A" and asked for as "B": as written the archive stays usable, as intended it is failed. */
  lemma NameMismatchAsWrittenKeepsArchiveUsable()
    ensures var e := NewEntry(0, 0, 2, 2, 0, 0, 0, Stub, 7, 0);
      && NameAtAsWritten([65, 0], e, [66]) == Declined
      && NameAt([65, 0], e, [66]) == Failed
  {
    var e := NewEntry(0, 0, 2, 2, 0, 0, 0, Stub, 7, 0);
    var d: seq<byte> := [65, 0];
    assert d[0..2] == d;
    assert !StrNEq([66] + [0], d, 1);
  }

  /** Reading and comparing the name, at `entry_position + name_offset`. */
  method CheckName(archive: Archive.SCAFile, e: SCAEntry, name: seq<byte>) returns (r: Outcome<()>)
    requires archive.ForRead()
    modifies archive`fileOffset, archive`failed
    ensures r == NameAt(archive.data, e, name)
    ensures r.Loaded? ==> archive.ForRead()
    ensures r.Failed? ==> archive.failed
  {
    var positioned := archive.SeekToPosition(e.offset + e.nameOffset);
    if !positioned {
      return Failed;
    }
    var ok, saved := archive.ReadExactly(e.nameSize);
    if !ok {
      return Failed;
    }
    if e.nameSize == 0 {
      return Aborted;
    }
    if !StrNEq(name + [0], saved, e.nameSize - 1) {
      archive.SetFailed();
      return Failed;
    }
    return Loaded(());
  }

  // ---------------------------------------------------------------------
  // Writing a block.

  /**
   * `n = write_bytes(b, size); if (n != size) return false;` inside a
   * store: the bytes written since position `o0` grow from `w` to `w + b`.
   */
  method Append(archive: Archive.SCAFile, b: seq<byte>, ghost d0: seq<byte>, ghost o0: nat, ghost w: seq<byte>)
    returns (ok: bool)
    requires archive.ForWrite() && archive.fileOffset <= |archive.data|
    requires archive.data == Overwrite(d0, o0, w) && archive.fileOffset == o0 + |w|
    modifies archive`data, archive`fileOffset, archive`failed
    ensures ok ==>
      && archive.ForWrite() && archive.fileOffset <= |archive.data|
      && archive.data == Overwrite(d0, o0, w + b) && archive.fileOffset == o0 + |w + b|
    ensures ok ==> |b| < U32_MODULUS
    ensures !ok ==> archive.failed
  {
    ok := archive.WriteAll(b);
    OverwriteAppend(d0, o0, w, b);
  }

  /** `if (!archive->align_write()) return false;` inside a store, as a write of the padding. */
  method AppendPadding(archive: Archive.SCAFile, ghost d0: seq<byte>, ghost o0: nat, ghost w: seq<byte>)
    returns (ok: bool)
    requires archive.ForWrite() && archive.fileOffset <= |archive.data|
    requires archive.data == Overwrite(d0, o0, w) && archive.fileOffset == o0 + |w|
    modifies archive`data, archive`fileOffset, archive`failed
    ensures var pad := Zeros(AlignPadding(o0 + |w|));
      ok ==>
        && archive.ForWrite() && archive.fileOffset <= |archive.data|
        && archive.data == Overwrite(d0, o0, w + pad) && archive.fileOffset == o0 + |w + pad|
    ensures !ok ==> archive.failed
  {
    ok := archive.AlignWrite();
    OverwriteAppend(d0, o0, w, Zeros(AlignPadding(o0 + |w|)));
  }

  /**
   * `SCAEntry entry(...); archive->add_entry(entry);` at the end of a
   * store, with the offsets and sizes already narrowed to the entry's
   * `uint32_t` fields: the entry takes the index from `next_idx`.
   */
  method RecordEntry(archive: Archive.SCAFile, offset: u32, nameOffset: u32, nameSize: u32, codeOffset: u32,
                     codeSize: u32, relocOffset: u32, relocSize: u32, kind: Kind, id: u32)
    returns (e: SCAEntry)
    requires archive.Valid() && !archive.forRead
    requires |Archive.Written(archive.writeEntries)| + 1 < 0x8000_0000
    modifies archive`writeEntries, archive.header`entriesCount
    ensures archive.Valid()
    ensures e == NewEntry(offset, nameOffset, nameSize, codeOffset, codeSize, relocOffset, relocSize,
                          kind, id, old(archive.header.entriesCount))
    ensures archive.writeEntries == Some(Archive.Written(old(archive.writeEntries)) + [e])
  {
    ghost var w := Archive.Written(archive.writeEntries);
    var idx := archive.header.NextIdx();
    e := NewEntry(offset, nameOffset, nameSize, codeOffset, codeSize, relocOffset, relocSize, kind, id, idx);
    archive.AddEntry(e);
    assert Archive.Written(archive.writeEntries) == w + [e];
  }

  // ---------------------------------------------------------------------
  // The flags word of an nmethod.

  /** The three booleans `store_nmethod` packs into one `int`. */
  datatype NmethodFlags = NmethodFlags(unsafeAccess: bool, wideVectors: bool, monitors: bool)

  function Bit(b: bool): int { if b then 1 else 0 }

  /** `(has_unsafe_access << 16) | (has_wide_vectors << 8) | has_monitors`: the bits are disjoint, so `|` adds. */
  function PackFlags(f: NmethodFlags): i32
  {
    Bit(f.unsafeAccess) * 0x1_0000 + Bit(f.wideVectors) * 0x100 + Bit(f.monitors)
  }

  /** `(flags >> k) & 0xFF` of an `int`, with `unit` = 2^k: the shift is arithmetic, so it divides rounding down. */
  function FlagByte(flags: i32, unit: nat): byte
    requires unit > 0
  {
    (flags / unit) % 0x100
  }

  /** `load_nmethod`: each byte of the word is one boolean, set when the byte is not zero. */
  function UnpackFlags(flags: i32): NmethodFlags
  {
    NmethodFlags(FlagByte(flags, 0x1_0000) != 0, FlagByte(flags, 0x100) != 0, FlagByte(flags, 1) != 0)
  }

  /** The flags read back are the flags stored, and the word is one of the eight small values. */
  lemma FlagsRoundTrip(f: NmethodFlags)
    ensures UnpackFlags(PackFlags(f)) == f
    ensures 0 <= PackFlags(f) <= 0x1_0101
  {
  }

  // ---------------------------------------------------------------------
  // Stubs.

  /** The block `store_stub` writes at the aligned position `pos`: the name and NUL, padding, the code. */
  function StubBlock(name: seq<byte>, code: seq<byte>, pos: nat): seq<byte>
  {
    name + [0] + Zeros(AlignPadding(pos + |name| + 1)) + code
  }

  /** The entry `store_stub` appends for that block, with the index `idx`. */
  function StubEntry(pos: nat, name: seq<byte>, code: seq<byte>, id: u32, idx: u32): SCAEntry
  {
    NewEntry(U32Of(pos), 0, U32Of(|name| + 1), U32Of(|name| + 1 + AlignPadding(pos + |name| + 1)),
             U32Of(|code|), 0, 0, Stub, id, idx)
  }

  /**
   * Where the entry places the parts of a block that fits the 32-bit
   * offsets: the name at offset 0 with its NUL, the code at an aligned
   * file position and running to the end of the block, no relocations.
   */
  lemma StubEntryLayout(pos: nat, name: seq<byte>, code: seq<byte>, id: u32, idx: u32)
    requires pos + |StubBlock(name, code, pos)| < U32_MODULUS
    ensures var e := StubEntry(pos, name, code, id, idx);
      && e.offset == pos && e.nameOffset == 0 && e.nameSize == |name| + 1
      && (e.offset + e.codeOffset) % ALIGNMENT == 0
      && e.codeOffset + e.codeSize == |StubBlock(name, code, pos)|
      && e.relocOffset == 0 && e.relocSize == 0 && e.kind == Stub && e.id == id && e.idx == idx
  {
  }

  /** What `load_stub` makes of the data for the entry `e`, asked for the stub `name`. */
  function StubFrom(d: seq<byte>, e: SCAEntry, name: seq<byte>): Outcome<seq<byte>>
  {
    var named := NameAt(d, e, name);
    if !named.Loaded? then named.Fail()
    else
      match TakeAt(d, e.offset + e.codeOffset, e.codeSize)
      case None => Failed
      case Some(code) => Loaded(code)
  }

  /** The fields of the entry of a block that fits the 32-bit offsets, as the loader uses them. */
  lemma StubEntryFields(pos: nat, name: seq<byte>, code: seq<byte>, id: u32, idx: u32)
    requires pos + |StubBlock(name, code, pos)| < U32_MODULUS
    ensures var e := StubEntry(pos, name, code, id, idx);
      && e.offset == pos && e.nameOffset == 0 && e.nameSize == |name| + 1
      && e.codeOffset == |name| + 1 + AlignPadding(pos + |name| + 1) && e.codeSize == |code|
  {
  }

  /**
   * A stored stub block loads back: the code comes back exactly when the
   * stored name is a prefix of the one asked for, and a different name
   * fails the archive.
   */
  lemma StubRoundTrip(d: seq<byte>, pos: nat, name: seq<byte>, code: seq<byte>, id: u32, idx: u32, asked: seq<byte>)
    requires NoNul(name) && NoNul(asked)
    requires pos + |StubBlock(name, code, pos)| < U32_MODULUS
    requires pos + |StubBlock(name, code, pos)| <= |d|
    requires d[pos..pos + |StubBlock(name, code, pos)|] == StubBlock(name, code, pos)
    ensures StubFrom(d, StubEntry(pos, name, code, id, idx), asked)
            == if |name| <= |asked| && asked[..|name|] == name then Loaded(code) else Failed
  {
    var block := StubBlock(name, code, pos);
    var e := StubEntry(pos, name, code, id, idx);
    StubEntryFields(pos, name, code, id, idx);
    var n, c := |name| + 1, e.codeOffset;
    assert c + |code| == |block|;
    assert block[..n] == name + [0];
    assert block[c..] == code;
    assert d[pos..pos + n] == block[..n];
    assert d[pos + c..pos + c + |code|] == block[c..];
    assert TakeAt(d, e.offset + e.nameOffset, e.nameSize) == Some(name + [0]);
    NameCheck(asked, name);
    assert TakeAt(d, e.offset + e.codeOffset, e.codeSize) == Some(code);
  }

  /**
   * What `StoreStub` leaves in the archive loads back: the entry it
   * appends, looked up in the data it leaves, gives the code for the name
   * it was stored under (or any name that name is a prefix of).
   */
  lemma StoredStubLoads(d: seq<byte>, o: nat, name: seq<byte>, code: seq<byte>, id: u32, idx: u32, asked: seq<byte>)
    requires NoNul(name) && NoNul(asked)
    requires var pos := o + AlignPadding(o); pos + |StubBlock(name, code, pos)| < U32_MODULUS
    ensures var pos := o + AlignPadding(o);
      StubFrom(Overwrite(d, o, Zeros(AlignPadding(o)) + StubBlock(name, code, pos)), StubEntry(pos, name, code, id, idx), asked)
      == if |name| <= |asked| && asked[..|name|] == name then Loaded(code) else Failed
  {
    var pos := o + AlignPadding(o);
    var block := StubBlock(name, code, pos);
    OverwritePadded(d, o, Zeros(AlignPadding(o)), block);
    StubRoundTrip(Overwrite(d, o, Zeros(AlignPadding(o)) + block), pos, name, code, id, idx, asked);
  }

  /** The writes of `store_stub`: align, the name and NUL, align, the code; `pos` is `entry_position`. */
  method WriteStubBlock(archive: Archive.SCAFile, name: seq<byte>, code: seq<byte>) returns (ok: bool, pos: nat)
    requires archive.ForWrite() && archive.fileOffset <= |archive.data|
    modifies archive`data, archive`fileOffset, archive`failed
    ensures ok ==>
      var o := old(archive.fileOffset);
      && pos == o + AlignPadding(o)
      && archive.ForWrite() && archive.fileOffset <= |archive.data|
      && archive.data == Overwrite(old(archive.data), o, Zeros(AlignPadding(o)) + StubBlock(name, code, pos))
      && archive.fileOffset == pos + |StubBlock(name, code, pos)|
    ensures !ok ==> archive.failed
  {
    ghost var d0, o0 := archive.data, archive.fileOffset;
    pos := 0;
    ok := AppendPadding(archive, d0, o0, []);
    if ok {
      pos := archive.fileOffset;
      ghost var pad := Zeros(AlignPadding(o0));
      assert [] + pad == pad;
      ok := Append(archive, name + [0], d0, o0, pad);
      if ok {
        ok := AppendPadding(archive, d0, o0, pad + (name + [0]));
        if ok {
          ghost var w := pad + (name + [0]) + Zeros(AlignPadding(pos + |name| + 1));
          ok := Append(archive, code, d0, o0, w);
          assert w + code == pad + StubBlock(name, code, pos);
        }
      }
    }
  }

  /**
   * `store_stub`: the block, then the entry. Nothing is stored unless the
   * archive is open for writing; a write that fails fails the archive.
   */
  method StoreStub(archive: Archive.SCAFile, id: u32, name: seq<byte>, code: seq<byte>) returns (ok: bool)
    requires archive.Valid() && |Archive.Written(archive.writeEntries)| + 1 < 0x8000_0000
    modifies archive`data, archive`fileOffset, archive`failed, archive`writeEntries, archive.header`entriesCount
    ensures archive.Valid()
    ensures !old(archive.ForWrite()) ==> !ok && unchanged(archive, archive.header)
    ensures ok ==>
      var o := old(archive.fileOffset);
      var pos := o + AlignPadding(o);
      var block := StubBlock(name, code, pos);
      && archive.ForWrite()
      && archive.data == Overwrite(old(archive.data), o, Zeros(AlignPadding(o)) + block)
      && archive.fileOffset == pos + |block|
      && archive.writeEntries
         == Some(Archive.Written(old(archive.writeEntries)) + [StubEntry(pos, name, code, id, old(archive.header.entriesCount))])
    ensures old(archive.ForWrite()) && !ok ==> archive.failed
  {
    ok := false;
    if Archive.OpenForWrite(archive) {
      archive.KeptWhileWriting();
      var pos;
      ok, pos := WriteStubBlock(archive, name, code);
      archive.ValidAfterWriting();
      if ok {
        var codeOffset := |name| + 1 + AlignPadding(pos + |name| + 1);
        var e := RecordEntry(archive, U32Of(pos), 0, U32Of(|name| + 1), U32Of(codeOffset), U32Of(|code|), 0, 0, Stub, id);
      }
    }
  }

  /** The reads of `load_stub` once the entry is found: the name, then `code_size` bytes at the code. */
  method ReadStub(archive: Archive.SCAFile, e: SCAEntry, name: seq<byte>) returns (r: Outcome<seq<byte>>)
    requires archive.ForRead()
    modifies archive`fileOffset, archive`failed
    ensures r == StubFrom(archive.data, e, name)
    ensures r.Failed? ==> archive.failed
    ensures r.Loaded? ==> archive.ForRead()
  {
    var named := CheckName(archive, e, name);
    if !named.Loaded? {
      return named.Fail();
    }
    var positioned := archive.SeekToPosition(e.offset + e.codeOffset);
    if !positioned {
      return Failed;
    }
    var ok, code := archive.ReadExactly(e.codeSize);
    if !ok {
      return Failed;
    }
    return Loaded(code);
  }

  /** `load_stub`: nothing unless the archive is open for reading and holds the stub's entry. */
  method LoadStub(archive: Archive.SCAFile, id: u32, name: seq<byte>) returns (r: Outcome<seq<byte>>)
    requires archive.Valid()
    modifies archive`entries, archive`fileOffset, archive`failed
    ensures archive.Valid()
    ensures !old(archive.ForRead()) ==> r == Missing && unchanged(archive)
    ensures old(archive.ForRead()) ==>
      var found := Lookup(archive.entries, Stub, id);
      && (found.None? ==> r == Missing)
      && (found.Some? ==> r == StubFrom(archive.data, found.value, name))
      && (archive.entries.None? ==> archive.failed)
    ensures r.Failed? ==> archive.failed
    ensures r.Loaded? ==> archive.ForRead()
  {
    r := Missing;
    if Archive.OpenForRead(archive) {
      var found := archive.FindEntry(Stub, id);
      if found.Some? {
        r := ReadStub(archive, archive.entries.value[found.value], name);
      }
    }
  }
}
