/**
 * `SCAFile` (SCArchive.cpp, SCArchive.hpp): the open archive. Its I/O
 * methods are the transitions of `FileImage.Cursor`; on top of them it
 * keeps the header, the entries appended while writing, the entries
 * loaded lazily while reading, and the address table.
 *
 * The file descriptor is replaced by the byte image `data`: `open` is
 * `_fd >= 0`, and `limit` is how many bytes the file system accepts.
 */
module Archive {
  import opened Bytes
  import opened Wrappers
  import opened FileImage
  import opened Index
  import AddressTable

  /**
   * `SCArchive::initialize` opens the archive under the last component of
   * `SharedCodeArchive` only: everything up to the last separator is dropped.
   */
  function BaseName(path: seq<char>, separator: char): (r: seq<char>)
    ensures separator !in r
    ensures |r| <= |path| && r == path[|path| - |r|..]
    ensures |r| < |path| ==> path[|path| - |r| - 1] == separator
  {
    if |path| == 0 || path[|path| - 1] == separator then []
    else BaseName(path[..|path| - 1], separator) + [path[|path| - 1]]
  }

  /** The entries appended so far: a null `_write_entries` is the empty list. */
  function Written(w: Option<seq<SCAEntry>>): seq<SCAEntry>
  {
    if w.None? then [] else w.value
  }

  /**
   * `_write_entries->length()` as `finish_write` reads it: with no entry
   * ever added the list was never allocated, and the call dereferences null
   * (`Option.None` here).
   */
  function WrittenCountAsWritten(w: Option<seq<SCAEntry>>): Option<nat>
  {
    if w.None? then Option.None else Some(|w.value|)
  }

  /** The count `finish_write` evidently means: no list, no entries. */
  function WrittenCount(w: Option<seq<SCAEntry>>): (r: nat)
    ensures r == |Written(w)|
    ensures WrittenCountAsWritten(w).Some? ==> r == WrittenCountAsWritten(w).value
  {
    if w.None? then 0 else |w.value|
  }


  /**
   * The image `finish_write` leaves as written when every write succeeds:
   * `None` where the count is read through a list that was never allocated.
   */
  function FinishedImageAsWritten(d: seq<byte>, o: nat, w: Option<seq<SCAEntry>>, version: u32): Option<seq<byte>>
  {
    match WrittenCountAsWritten(w)
    case None => Option.None
    case Some(_) => Some(FinishedImage(d, o, w.value, version))
  }

  /**
   * Opening for write and closing without storing anything crashes as
   * written; the corrected `finish_write` leaves a header with no entries,
   * an entry offset of 0 and the archive ending at the cursor. With a list
   * allocated, the two agree.
   */
  lemma FinishWriteWithoutEntries(d: seq<byte>, o: nat, version: u32)
    requires HEADER_SIZE <= o < U32_MODULUS
    ensures FinishedImageAsWritten(d, o, Option.None, version) == Option.None
    ensures WrittenCount(Option.None) == 0
    ensures var img := FinishedImage(d, o, Written(Option.None), version);
      HEADER_SIZE <= |img| && DecodeHeader(img[..HEADER_SIZE]) == HeaderImage(version, 0, o, 0)
    ensures forall es :: FinishedImageAsWritten(d, o, Some(es), version) == Some(FinishedImage(d, o, es, version))
  {
    FinishedArchiveReadsBack(d, o, [], version);
  }

  /** The header `finish_write` leaves: the count, the end of the archive and the entry array's offset, each as a `uint`. */
  function FinalHeader(version: u32, count: nat, entriesOffset: nat, archiveSize: nat): HeaderImage
  {
    HeaderImage(version, U32Of(count), U32Of(archiveSize), U32Of(entriesOffset))
  }

  /** The image `finish_write` leaves when every write succeeds. */
  function FinishedImage(d: seq<byte>, o: nat, es: seq<SCAEntry>, version: u32): seq<byte>
  {
    var body := if |es| > 0 then Overwrite(d, o, EncodeEntries(es)) else d;
    Overwrite(body, 0, EncodeHeader(FinalHeader(version, |es|, if |es| > 0 then o else 0, o + ENTRY_SIZE * |es|)))
  }

  /**
   * What a reader finds in a finished archive: the header at offset 0
   * holds the version, the entry count, the archive size and the entry
   * offset (0 without entries), and the entry array at that offset
   * decodes to the appended entries.
   */
  lemma FinishedArchiveReadsBack(d: seq<byte>, o: nat, es: seq<SCAEntry>, version: u32)
    requires HEADER_SIZE <= o && o + ENTRY_SIZE * |es| < U32_MODULUS
    requires forall i :: 0 <= i < |es| ==> es[i].Valid()
    ensures HEADER_SIZE <= |FinishedImage(d, o, es, version)|
    ensures DecodeHeader(FinishedImage(d, o, es, version)[..HEADER_SIZE])
            == HeaderImage(version, |es|, o + ENTRY_SIZE * |es|, if |es| > 0 then o else 0)
    ensures |es| > 0 ==>
      && o + ENTRY_SIZE * |es| <= |FinishedImage(d, o, es, version)|
      && DecodeEntries(FinishedImage(d, o, es, version)[o..o + ENTRY_SIZE * |es|], |es|) == es
  {
    FinishedHeaderReadsBack(d, o, es, version);
    if |es| > 0 {
      FinishedEntriesReadBack(d, o, es, version);
    }
  }

  lemma FinishedHeaderReadsBack(d: seq<byte>, o: nat, es: seq<SCAEntry>, version: u32)
    requires HEADER_SIZE <= o && o + ENTRY_SIZE * |es| < U32_MODULUS
    ensures var img := FinishedImage(d, o, es, version);
      var eo := if |es| > 0 then o else 0;
      && HEADER_SIZE <= |img|
      && DecodeHeader(img[..HEADER_SIZE]) == HeaderImage(version, |es|, o + ENTRY_SIZE * |es|, eo)
  {
    var eo := if |es| > 0 then o else 0;
    var hd := FinalHeader(version, |es|, eo, o + ENTRY_SIZE * |es|);
    var body := if |es| > 0 then Overwrite(d, o, EncodeEntries(es)) else d;
    var img := FinishedImage(d, o, es, version);
    assert img == Overwrite(body, 0, EncodeHeader(hd));
    FinishedHeader(body, hd);
    FinalHeaderFields(version, |es|, eo, o + ENTRY_SIZE * |es|);
  }

  lemma FinishedEntriesReadBack(d: seq<byte>, o: nat, es: seq<SCAEntry>, version: u32)
    requires HEADER_SIZE <= o && 0 < |es|
    requires forall i :: 0 <= i < |es| ==> es[i].Valid()
    ensures var img := FinishedImage(d, o, es, version);
      && o + ENTRY_SIZE * |es| <= |img|
      && DecodeEntries(img[o..o + ENTRY_SIZE * |es|], |es|) == es
  {
    var hd := FinalHeader(version, |es|, o, o + ENTRY_SIZE * |es|);
    var img := FinishedImage(d, o, es, version);
    assert img == Overwrite(Overwrite(d, o, EncodeEntries(es)), 0, EncodeHeader(hd));
    FinishedEntries(d, o, es, EncodeHeader(hd));
  }

  /** Values that fit in a `uint` are stored unchanged. */
  lemma FinalHeaderFields(version: u32, count: nat, entriesOffset: nat, archiveSize: nat)
    requires count < U32_MODULUS && entriesOffset < U32_MODULUS && archiveSize < U32_MODULUS
    ensures FinalHeader(version, count, entriesOffset, archiveSize)
            == HeaderImage(version, count, archiveSize, entriesOffset)
  {
  }

  /** The rewritten header reads back as written. */
  lemma FinishedHeader(body: seq<byte>, hd: HeaderImage)
    ensures HEADER_SIZE <= |Overwrite(body, 0, EncodeHeader(hd))|
    ensures DecodeHeader(Overwrite(body, 0, EncodeHeader(hd))[..HEADER_SIZE]) == hd
  {
    OverwriteSlice(body, 0, EncodeHeader(hd));
    HeaderRoundTrip(hd);
  }

  /** The entry array survives the header rewrite below it and reads back as the entries. */
  lemma FinishedEntries(d: seq<byte>, o: nat, es: seq<SCAEntry>, hb: seq<byte>)
    requires |hb| <= o
    requires forall i :: 0 <= i < |es| ==> es[i].Valid()
    ensures var img := Overwrite(Overwrite(d, o, EncodeEntries(es)), 0, hb);
      && o + ENTRY_SIZE * |es| <= |img|
      && DecodeEntries(img[o..o + ENTRY_SIZE * |es|], |es|) == es
  {
    var b := EncodeEntries(es);
    OverwriteBelow(d, o, b, hb);
    EntriesAt(Overwrite(Overwrite(d, o, b), 0, hb), o, es);
  }

  class SCAFile {
    var data: seq<byte>
    const limit: nat
    var fileOffset: nat
    var open: bool
    const forRead: bool
    var failed: bool
    var lookupFailed: bool
    const header: SCAHeader
    var table: AddressTable.SCATable?
    var entries: Option<seq<SCAEntry>>
    var writeEntries: Option<seq<SCAEntry>>

    /** The cursor state the I/O steps act on. */
    function Cursor(): Cursor
      reads this
    {
      FileImage.Cursor(data, limit, fileOffset, open, forRead, failed)
    }

    /** `for_read` */
    predicate ForRead()
      reads this`open, this`failed
    {
      open && forRead && !failed
    }

    /** `for_write` */
    predicate ForWrite()
      reads this`open, this`failed
    {
      open && !forRead && !failed
    }

    /**
     * The bookkeeping the archive keeps: while writing, the header counts
     * the appended entries, each entry's `idx` is its position and (until
     * a transfer fails) the cursor lies within the data; while
     * reading, a loaded entry array has the header's length.
     */
    ghost predicate Valid()
      reads this, header, if table == null then {} else {table}
    {
      TableValid() && WriteValid() && EntriesValid()
    }

    ghost predicate TableValid()
      reads this`table, this`open, this`failed, if table == null then {} else {table}
    {
      && (table != null ==> table.Valid())
      && (open && !failed ==> table != null)
    }

    ghost predicate WriteValid()
      reads this`entries, this`writeEntries, this`fileOffset, this`data, this`open, this`failed,
            header`entriesCount
    {
      && (forRead ==> writeEntries.None?)
      && (!forRead ==>
            && entries.None?
            && (open && !failed ==> fileOffset <= |data|)
            && |Written(writeEntries)| < 0x8000_0000
            && header.entriesCount == U32Of(|Written(writeEntries)|)
            && Indexed(Written(writeEntries)))
    }

    ghost predicate EntriesValid()
      reads this`entries, header`entriesCount
    {
      entries.Some? ==>
        && |entries.value| == header.entriesCount
        && ENTRY_SIZE * |entries.value| < U32_MODULUS
    }

    /**
     * The part of `Valid` that a store's byte writes leave alone (they
     * change only the data, the cursor and the failure flag), for an
     * archive open for writing.
     */
    ghost predicate WriteKept()
      reads this`table, this`entries, this`writeEntries, header`entriesCount,
            if table == null then {} else {table}
    {
      && !forRead && table != null && table.Valid() && entries.None?
      && |Written(writeEntries)| < 0x8000_0000
      && header.entriesCount == U32Of(|Written(writeEntries)|)
      && Indexed(Written(writeEntries))
    }

    lemma KeptWhileWriting()
      requires Valid() && ForWrite()
      ensures WriteKept()
    {
    }

    /** Byte writes keep `Valid` as long as the cursor stays within the data. */
    lemma ValidAfterWriting()
      requires WriteKept() && (open && !failed ==> fileOffset <= |data|)
      ensures Valid()
    {
    }

    /** The state right after the constructor: open, header handled, nothing stored or loaded. */
    constructor (image: seq<byte>, fileLimit: nat, forRead: bool, jvmVersion: u32)
      requires !forRead ==> image == []
      ensures Valid()
      ensures this.forRead == forRead && limit == fileLimit && open && !lookupFailed
      ensures entries.None? && writeEntries.None? && fresh(header)
      ensures forRead ==> data == image
      ensures forRead && HEADER_SIZE <= |image| ==>
        && ForRead() && fileOffset == HEADER_SIZE
        && header.Image() == DecodeHeader(image[..HEADER_SIZE])
        && table != null && fresh(table) && !table.complete
      ensures forRead && |image| < HEADER_SIZE ==> failed && table == null
      ensures !forRead && HEADER_SIZE <= fileLimit ==>
        && ForWrite() && fileOffset == HEADER_SIZE
        && header.Image() == HeaderImage(jvmVersion, 0, 0, 0)
        && data == EncodeHeader(header.Image())
        && table != null && fresh(table) && !table.complete
      ensures !forRead && fileLimit < HEADER_SIZE ==> failed && table == null
    {
      data := image;
      limit := fileLimit;
      fileOffset := 0;
      open := true;
      this.forRead := forRead;
      failed := false;
      lookupFailed := false;
      table := null;
      entries := Option.None;
      writeEntries := Option.None;
      header := new SCAHeader();
      new;
      var ok;
      if forRead {
        ok := ReadHeaderRecord();
      } else {
        ok := WriteInitialHeader(jvmVersion);
      }
      if ok {
        table := new AddressTable.SCATable();
      }
    }

    /** Opening for read: the header record is read from offset 0 over `header`. */
    method ReadHeaderRecord() returns (ok: bool)
      requires ForRead() && fileOffset == 0
      modifies this`fileOffset, this`failed, header
      ensures ok == (HEADER_SIZE <= |data|)
      ensures ok ==> ForRead() && fileOffset == HEADER_SIZE && header.Image() == DecodeHeader(data[..HEADER_SIZE])
      ensures !ok ==> failed
    {
      var positioned := SeekToPosition(0);
      if !positioned {
        return false;
      }
      var bytes, n := ReadBytes(HEADER_SIZE);
      if n != HEADER_SIZE {
        return false;
      }
      header.Load(bytes);
      return true;
    }

    /** Opening for write: `init` the header with the VM's version and write it at offset 0. */
    method WriteInitialHeader(version: u32) returns (ok: bool)
      requires ForWrite() && fileOffset == 0 && data == []
      modifies this`data, this`fileOffset, this`failed, header
      ensures ok == (HEADER_SIZE <= limit)
      ensures header.entriesCount == 0 && fileOffset <= |data|
      ensures ok ==>
        && ForWrite() && fileOffset == HEADER_SIZE
        && header.Image() == HeaderImage(version, 0, 0, 0)
        && data == EncodeHeader(header.Image())
      ensures !ok ==> failed
    {
      header.Init(version, 0, 0, 0);
      var n := WriteBytes(EncodeHeader(header.Image()));
      if n != HEADER_SIZE {
        return false;
      }
      return true;
    }

    /** `seek_to_position` */
    method SeekToPosition(pos: nat) returns (ok: bool)
      modifies this`fileOffset, this`failed
      ensures var (after, success) := SeekStep(old(Cursor()), pos);
        fileOffset == after.offset && failed == after.failed && ok == success
    {
      if pos == fileOffset {
        return true;
      }
      if pos >= SEEK_LIMIT {
        failed := true;
        return false;
      }
      fileOffset := pos;
      return true;
    }

    /** `read_bytes`: the bytes at the cursor and how many were read. */
    method ReadBytes(n: nat) returns (bytes: seq<byte>, count: nat)
      requires ForRead()
      modifies this`fileOffset, this`failed
      ensures var t := ReadStep(old(Cursor()), n);
        && fileOffset == t.after.offset && failed == t.after.failed
        && bytes == t.bytes && count == t.count
    {
      if n == 0 {
        return [], 0;
      }
      if n >= U32_MODULUS || fileOffset + n > |data| {
        failed := true;
        return [], 0;
      }
      bytes := data[fileOffset..fileOffset + n];
      fileOffset := fileOffset + n;
      count := n;
    }

    /** `write_bytes`: how many bytes were written at the cursor. */
    method WriteBytes(b: seq<byte>) returns (count: nat)
      requires ForWrite()
      modifies this`data, this`fileOffset, this`failed
      ensures var t := WriteStep(old(Cursor()), b);
        && data == t.after.data && fileOffset == t.after.offset && failed == t.after.failed
        && count == t.count
    {
      if |b| == 0 {
        return 0;
      }
      if |b| >= U32_MODULUS || fileOffset + |b| > limit {
        failed := true;
        return 0;
      }
      data := Overwrite(data, fileOffset, b);
      fileOffset := fileOffset + |b|;
      count := |b|;
    }

    /** `align_write` */
    method AlignWrite() returns (ok: bool)
      requires ForWrite()
      modifies this`data, this`fileOffset, this`failed
      ensures var (after, success) := AlignStep(old(Cursor()));
        && data == after.data && fileOffset == after.offset && failed == after.failed
        && ok == success
    {
      var padding := ALIGNMENT - fileOffset % ALIGNMENT;
      if padding == 0 {
        return true;
      }
      var n := WriteBytes(Zeros(padding));
      return n == padding;
    }

    /** `n = write_bytes(b, size); if (n != size) return false;`: the whole block or a failed archive. */
    method WriteAll(b: seq<byte>) returns (ok: bool)
      requires ForWrite() && fileOffset <= |data|
      modifies this`data, this`fileOffset, this`failed
      ensures ok ==>
        && data == Overwrite(old(data), old(fileOffset), b) && fileOffset == old(fileOffset) + |b|
        && ForWrite() && fileOffset <= |data|
      ensures ok == (|b| == 0 || (|b| < U32_MODULUS && old(fileOffset) + |b| <= limit))
      ensures !ok ==> failed
    {
      var n := WriteBytes(b);
      ok := n == |b|;
      if |b| == 0 {
        OverwriteEmpty(old(data), old(fileOffset));
      }
    }

    /** `n = read_bytes(buf, size); if (n != size) return false;`: exactly `n` bytes or a failed archive. */
    method ReadExactly(n: nat) returns (ok: bool, bytes: seq<byte>)
      requires ForRead()
      modifies this`fileOffset, this`failed
      ensures var p := TakeAt(data, old(fileOffset), n);
        && ok == p.Some?
        && (ok ==> bytes == p.value && fileOffset == old(fileOffset) + n && ForRead())
        && (!ok ==> failed)
    {
      ReadStepTakes(Cursor(), n);
      var count;
      bytes, count := ReadBytes(n);
      ok := count == n;
    }

    /** `set_failed` */
    method SetFailed()
      modifies this`failed
      ensures failed
    {
      failed := true;
    }

    /** `set_lookup_failed`: touches `_lookup_failed` only. */
    method SetLookupFailed()
      modifies this`lookupFailed
      ensures lookupFailed
    {
      lookupFailed := true;
    }

    /** `clear_lookup_failed`: touches `_lookup_failed` only. */
    method ClearLookupFailed()
      modifies this`lookupFailed
      ensures !lookupFailed
    {
      lookupFailed := false;
    }

    /** `add_entry`: allocate the list on first use, then append. */
    method AddEntry(e: SCAEntry)
      requires |Written(writeEntries)| + 1 < 0x8000_0000
      modifies this`writeEntries
      ensures writeEntries == Some(Written(old(writeEntries)) + [e])
    {
      if writeEntries.None? {
        writeEntries := Some([]);
      }
      writeEntries := Some(writeEntries.value + [e]);
    }

    /** The loaded entry array is the `count` records at the header's entry offset. */
    ghost predicate EntriesFromFile()
      reads this, header
    {
      var off := header.entriesOffset;
      var size := ENTRY_SIZE * header.entriesCount;
      && entries.Some?
      && |entries.value| == header.entriesCount
      && (size > 0 ==>
            && off + size <= |data|
            && entries.value == DecodeEntries(data[off..off + size], header.entriesCount))
    }

    /**
     * The first half of `find_entry`: seek to the header's entry offset and
     * read `count` records into the entry array.
     */
    method LoadEntries() returns (ok: bool)
      requires Valid() && entries.None? && ForRead()
      modifies this`entries, this`fileOffset, this`failed
      ensures Valid()
      ensures ok ==>
        && EntriesFromFile() && !failed
        && fileOffset == header.entriesOffset + ENTRY_SIZE * header.entriesCount
      ensures !ok ==> entries.None? && failed
    {
      assert forRead;
      var count: nat := header.entriesCount;
      var positioned := SeekToPosition(header.entriesOffset);
      if !positioned {
        return false;
      }
      var size := count * ENTRY_SIZE;
      var bytes, n := ReadBytes(size);
      if n != size {
        return false;
      }
      entries := Some(DecodeEntries(bytes, count));
      assert WriteValid() && EntriesValid();
      return true;
    }

    /**
     * `find_entry`: load the entry array on first use, then scan it for
     * the first entry of this kind and id (`r` is its index).
     */
    method FindEntry(kind: Kind, id: u32) returns (r: Option<nat>)
      requires Valid() && (entries.None? ==> ForRead())
      modifies this`entries, this`fileOffset, this`failed
      ensures Valid()
      ensures entries.Some? ==> r == FindFirst(entries.value, kind, id)
      ensures entries.None? ==> r.None? && failed
      ensures old(entries).Some? ==>
        entries == old(entries) && fileOffset == old(fileOffset) && failed == old(failed)
      ensures old(entries).None? && entries.Some? ==> EntriesFromFile() && !failed
    {
      if entries.None? {
        var loaded := LoadEntries();
        if !loaded {
          return Option.None;
        }
      }
      var es := entries.value;
      Int32OfSmall(|es|);
      var bound := Int32Of(header.entriesCount);
      var i := 0;
      while i < bound
        invariant 0 <= i <= |es|
        invariant FindFirst(es, kind, id) == FindFrom(es, kind, id, i)
      {
        if es[i].kind == kind && es[i].id == id {
          return Some(i);
        }
        i := i + 1;
      }
      return Option.None;
    }

    /**
     * `finish_write`: append the entry array (when there is one), then
     * rewrite the header at offset 0 with the final count, size and
     * entry offset. The count of a never-allocated list is taken as 0.
     */
    method FinishWrite() returns (ok: bool)
      requires ForWrite() && fileOffset <= |data| && |Written(writeEntries)| < 0x8000_0000
      modifies this`data, this`fileOffset, this`failed, header
      ensures ok ==>
        var es := Written(writeEntries);
        && data == FinishedImage(old(data), old(fileOffset), es, old(header.version))
        && header.Image() == FinalHeader(old(header.version), |es|,
             if |es| > 0 then old(fileOffset) else 0, old(fileOffset) + ENTRY_SIZE * |es|)
        && fileOffset == HEADER_SIZE && !failed
      ensures !ok ==> failed
    {
      var version := header.version;
      var count := WrittenCount(writeEntries);
      var es := Written(writeEntries);
      var entriesOffset := if count > 0 then fileOffset else 0;
      ok := WriteEntryArray(es);
      if !ok {
        return;
      }
      header.Init(version, count, U32Of(fileOffset), U32Of(entriesOffset));
      ok := WriteHeaderAtStart();
    }

    /** The first half of `finish_write`: the appended entries as one block at the cursor, when there are any. */
    method WriteEntryArray(es: seq<SCAEntry>) returns (ok: bool)
      requires ForWrite() && fileOffset <= |data|
      modifies this`data, this`fileOffset, this`failed
      ensures ok ==>
        && data == (if |es| > 0 then Overwrite(old(data), old(fileOffset), EncodeEntries(es)) else old(data))
        && fileOffset == old(fileOffset) + ENTRY_SIZE * |es|
        && ForWrite()
      ensures !ok ==> failed
    {
      if |es| > 0 {
        var n := WriteBytes(EncodeEntries(es));
        if n != |es| * ENTRY_SIZE {
          return false;
        }
      }
      return true;
    }

    /** The second half of `finish_write`: seek to 0, reset the cursor and write the header record there. */
    method WriteHeaderAtStart() returns (ok: bool)
      requires ForWrite()
      modifies this`data, this`fileOffset, this`failed
      ensures ok ==>
        && data == Overwrite(old(data), 0, EncodeHeader(header.Image()))
        && fileOffset == HEADER_SIZE && !failed
      ensures !ok ==> failed
    {
      var positioned := SeekToPosition(0);
      if !positioned {
        return false;
      }
      fileOffset := 0;
      var n := WriteBytes(EncodeHeader(header.Image()));
      if n != HEADER_SIZE {
        return false;
      }
      return true;
    }

    /**
     * `~SCAFile`: an archive still open for writing is finished first; then
     * the file is closed. The source asks whether the installed archive is
     * open for writing; the only archive ever deleted while open is the
     * installed one, so the question is asked of this archive here.
     */
    method Close()
      requires Valid()
      modifies this, header
      ensures !open
      ensures !old(ForWrite()) ==> data == old(data) && header.Image() == old(header.Image())
      ensures old(ForWrite()) && !failed ==>
        data == FinishedImage(old(data), old(fileOffset), Written(old(writeEntries)), old(header.version))
    {
      if !open {
        return;
      }
      if ForWrite() {
        var finished := FinishWrite();
      }
      open := false;
    }
  }

  /** `SCAFile::open_for_read`: the installed archive when it can be read from. */
  predicate OpenForRead(archive: SCAFile?)
    reads archive
  {
    archive != null && archive.ForRead()
  }

  /** `SCAFile::open_for_write`: the installed archive when it can be written to. */
  predicate OpenForWrite(archive: SCAFile?)
    reads archive
  {
    archive != null && archive.ForWrite()
  }
}
