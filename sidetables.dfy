/**
 * The side tables of a stored nmethod, written between its metadata and
 * its code by `SCAFile::store_nmethod` and read back by `load_nmethod`
 * (SCArchive.cpp): the debug information (`write_debug_info` /
 * `read_debug_info`), the compressed dependencies, the oop maps
 * (`write_oop_maps` / `read_oop_maps`), the exception handler table and
 * the implicit null-check table. Each is one or two `int` counts followed
 * by raw bytes the archive copies without interpreting them.
 *
 * The byte sizes of HotSpot types that are not part of this model
 * (`CodeOffsets`, `PcDesc`, `OopMap`, and the `size_in_bytes` of the two
 * tables as a function of their length) are given as a `Sizes` value.
 */
module SideTables {
  import opened Bytes
  import opened FileImage
  import Archive
  import Artifacts

  /** `sizeof(CodeOffsets)`, `sizeof(PcDesc)`, `sizeof(OopMap)` and the tables' `size_in_bytes()` by length. */
  datatype Sizes = Sizes(codeOffsets: nat, pcDesc: nat, oopMap: nat,
                         handlerTable: int -> nat, nullCheckTable: int -> nat)
  {
    /** A table of length 0 occupies no bytes. */
    predicate Valid()
    {
      handlerTable(0) == 0 && nullCheckTable(0) == 0
    }
  }

  /**
   * What `write_debug_info` copies out of the `DebugInformationRecorder`:
   * the bytes of its stream and `pcs_length` `PcDesc` records.
   */
  datatype DebugInfo = DebugInfo(data: seq<byte>, pcsLength: i32, pcs: seq<byte>)
  {
    /** As a recorder holds it: an `int` stream size and `pcs_length` whole records. */
    predicate Valid(sz: Sizes)
    {
      |data| < 0x8000_0000 && 0 <= pcsLength && |pcs| == pcsLength * sz.pcDesc
    }

    /** Every part goes through one `write_bytes`, which moves fewer than 2^32 bytes. */
    predicate Fits()
    {
      |pcs| < U32_MODULUS
    }
  }

  /** One oop map: the raw bytes of the `OopMap` object, then its `data_size` bytes of data. */
  datatype OopMap = OopMap(header: seq<byte>, data: seq<byte>)
  {
    predicate Valid(sz: Sizes)
    {
      |header| == sz.oopMap && |data| < 0x8000_0000
    }

    predicate Fits()
    {
      |header| < U32_MODULUS
    }
  }

  /** A table stored as its `int` length and its `size_in_bytes()` bytes. */
  datatype Table = Table(length: i32, bytes: seq<byte>)
  {
    predicate Valid(size: int -> nat)
    {
      0 <= length && |bytes| == size(length)
    }

    predicate Fits()
    {
      |bytes| < U32_MODULUS
    }
  }

  /** Everything between the metadata and the code of a stored nmethod. */
  datatype SideTables = SideTables(debug: DebugInfo, dependencies: seq<byte>, oopMaps: seq<OopMap>,
                                   handlers: Table, nullChecks: Table)
  {
    predicate Valid(sz: Sizes)
    {
      && debug.Valid(sz)
      && |dependencies| < 0x8000_0000
      && |oopMaps| < 0x8000_0000 && (forall i :: 0 <= i < |oopMaps| ==> oopMaps[i].Valid(sz))
      && handlers.Valid(sz.handlerTable) && nullChecks.Valid(sz.nullCheckTable)
    }

    predicate Fits()
    {
      && debug.Fits()
      && (forall i :: 0 <= i < |oopMaps| ==> oopMaps[i].Fits())
      && handlers.Fits() && nullChecks.Fits()
    }
  }

  // ---------------------------------------------------------------------
  // Layouts.

  /** `data_size`, `pcs_length`, the stream's bytes, the `PcDesc` records. */
  function DebugLayout(g: DebugInfo): seq<byte>
    requires |g.data| < 0x8000_0000
  {
    I32Bytes(|g.data|) + I32Bytes(g.pcsLength) + g.data + g.pcs
  }

  /** `dependencies_size`, then the dependencies' content bytes. */
  function DepsLayout(deps: seq<byte>): seq<byte>
    requires |deps| < 0x8000_0000
  {
    I32Bytes(|deps|) + deps
  }

  /** One oop map: `data_size`, the `OopMap` object, its data. */
  function OopMapLayout(m: OopMap): seq<byte>
    requires |m.data| < 0x8000_0000
  {
    I32Bytes(|m.data|) + m.header + m.data
  }

  predicate DataFits(ms: seq<OopMap>)
  {
    forall i :: 0 <= i < |ms| ==> |ms[i].data| < 0x8000_0000
  }

  function OopMapListLayout(ms: seq<OopMap>): seq<byte>
    requires DataFits(ms)
  {
    if ms == [] then [] else OopMapLayout(ms[0]) + OopMapListLayout(ms[1..])
  }

  /** `om_count` in the four bytes of an `int`, then each map. */
  function OopMapsLayout(ms: seq<OopMap>): seq<byte>
    requires |ms| < 0x8000_0000 && DataFits(ms)
  {
    I32Bytes(|ms|) + OopMapListLayout(ms)
  }

  function TableLayout(t: Table): seq<byte>
  {
    I32Bytes(t.length) + t.bytes
  }

  /** The exception handler table, then the implicit null-check table. */
  function HandlerTablesLayout(h: Table, n: Table): seq<byte>
  {
    TableLayout(h) + TableLayout(n)
  }

  function MapsAndTablesLayout(ms: seq<OopMap>, h: Table, n: Table): seq<byte>
    requires |ms| < 0x8000_0000 && DataFits(ms)
  {
    OopMapsLayout(ms) + HandlerTablesLayout(h, n)
  }

  /** The side tables in the order `store_nmethod` writes them. */
  function SideTablesLayout(t: SideTables): seq<byte>
    requires |t.debug.data| < 0x8000_0000 && |t.dependencies| < 0x8000_0000
    requires |t.oopMaps| < 0x8000_0000 && DataFits(t.oopMaps)
  {
    DebugLayout(t.debug) + (DepsLayout(t.dependencies) + MapsAndTablesLayout(t.oopMaps, t.handlers, t.nullChecks))
  }

  // ---------------------------------------------------------------------
  // Reading. Every size read is converted to the reader's `size_t` before
  // the read, so a negative size asks for more bytes than any read gives.
  // None of these readers refuses anything: each either reads or is short.

  /** `read_debug_info` from the front of `s`. */
  function DecodeDebug(s: seq<byte>, sz: Sizes): (r: Decoded<DebugInfo>)
    ensures r.Decoded? ==> r.used <= |s|
    ensures r.Decoded? || r.Short?
  {
    if |s| < 8 then Short
    else
      var len := DecodeI32(s[4..8]);
      var n, m := U64Of(DecodeI32(s[..4])), U64Of(len * sz.pcDesc);
      if n >= U32_MODULUS || |s| < 8 + n then Short
      else if m >= U32_MODULUS || |s| < 8 + n + m then Short
      else Decoded(DebugInfo(s[8..8 + n], len, s[8 + n..8 + n + m]), 8 + n + m)
  }

  /** The dependencies from the front of `s`: the size, and as many bytes when it is not 0. */
  function DecodeDeps(s: seq<byte>): (r: Decoded<seq<byte>>)
    ensures r.Decoded? ==> r.used <= |s|
    ensures r.Decoded? || r.Short?
  {
    if |s| < 4 then Short
    else
      var n := U64Of(DecodeI32(s[..4]));
      if n >= U32_MODULUS || |s| < 4 + n then Short
      else Decoded(s[4..4 + n], 4 + n)
  }

  /** One oop map of `read_oop_maps`: `data_size`, the `OopMap` object, the data. */
  function DecodeOopMap(s: seq<byte>, sz: Sizes): (r: Decoded<OopMap>)
    ensures r.Decoded? ==> r.used <= |s|
    ensures r.Decoded? || r.Short?
  {
    if |s| < 4 then Short
    else
      var h, n := sz.oopMap, U64Of(DecodeI32(s[..4]));
      if h >= U32_MODULUS || |s| < 4 + h then Short
      else if n >= U32_MODULUS || |s| < 4 + h + n then Short
      else Decoded(OopMap(s[4..4 + h], s[4 + h..4 + h + n]), 4 + h + n)
  }

  function DecodeOopMapList(s: seq<byte>, sz: Sizes, n: nat): (r: Decoded<seq<OopMap>>)
    ensures r.Decoded? ==> r.used <= |s| && |r.value| == n
    ensures r.Decoded? || r.Short?
    decreases n, 1
  {
    if n == 0 then Decoded([], 0) else OopMapThenMaps(s, sz, n)
  }

  /** One map from the front of `s`, then the `n - 1` after it. */
  function OopMapThenMaps(s: seq<byte>, sz: Sizes, n: nat): (r: Decoded<seq<OopMap>>)
    requires n > 0
    ensures r.Decoded? ==> r.used <= |s| && |r.value| == n
    ensures r.Decoded? || r.Short?
    decreases n, 0
  {
    var r := DecodeOopMap(s, sz);
    if r.Decoded? then Prepend([r.value], r.used, DecodeOopMapList(s[r.used..], sz, n - 1)) else r.Fail()
  }

  /**
   * `read_oop_maps`: `om_count` is read into the low half of a `size_t`
   * and the loop runs `(int)om_count` times, so a count of 2^31 or more
   * reads no map.
   */
  function DecodeOopMaps(s: seq<byte>, sz: Sizes): (r: Decoded<seq<OopMap>>)
    ensures r.Decoded? ==> r.used <= |s|
    ensures r.Decoded? || r.Short?
  {
    if |s| < 4 then Short
    else
      var count := DecodeLE(s[..4]);
      After(4, DecodeOopMapList(s[4..], sz, if count < 0x8000_0000 then count else 0))
  }

  /**
   * A table from the front of `s`: the length, then `size(length)` bytes
   * when the length is positive. A length of 0 or less leaves the table
   * empty.
   */
  function DecodeTable(s: seq<byte>, size: int -> nat): (r: Decoded<Table>)
    ensures r.Decoded? ==> r.used <= |s|
    ensures r.Decoded? || r.Short?
  {
    if |s| < 4 then Short
    else
      var len := DecodeI32(s[..4]);
      if len <= 0 then Decoded(Table(0, []), 4)
      else
        var n := size(len);
        if n >= U32_MODULUS || |s| < 4 + n then Short
        else Decoded(Table(len, s[4..4 + n]), 4 + n)
  }

  /** The exception handler table, then the implicit null-check table. */
  function DecodeHandlerTables(s: seq<byte>, sz: Sizes): (r: Decoded<(Table, Table)>)
    ensures r.Decoded? ==> r.used <= |s|
    ensures r.Decoded? || r.Short?
  {
    var e := DecodeTable(s, sz.handlerTable);
    if !e.Decoded? then Short else
    var f := DecodeTable(s[e.used..], sz.nullCheckTable);
    if !f.Decoded? then Short
    else Decoded((e.value, f.value), e.used + f.used)
  }

  /** The oop maps, then the two tables. */
  function DecodeMapsAndTables(s: seq<byte>, sz: Sizes): (r: Decoded<(seq<OopMap>, Table, Table)>)
    ensures r.Decoded? ==> r.used <= |s|
    ensures r.Decoded? || r.Short?
  {
    var c := DecodeOopMaps(s, sz);
    if !c.Decoded? then Short else
    var t := DecodeHandlerTables(s[c.used..], sz);
    if !t.Decoded? then Short
    else Decoded((c.value, t.value.0, t.value.1), c.used + t.used)
  }

  /** The side tables in the order `load_nmethod` reads them; the first short read decides. */
  function DecodeSideTables(s: seq<byte>, sz: Sizes): (r: Decoded<SideTables>)
    ensures r.Decoded? ==> r.used <= |s|
    ensures r.Decoded? || r.Short?
  {
    var a := DecodeDebug(s, sz);
    if !a.Decoded? then Short else
    var s1 := s[a.used..];
    var b := DecodeDeps(s1);
    if !b.Decoded? then Short else
    var m := DecodeMapsAndTables(s1[b.used..], sz);
    if !m.Decoded? then Short
    else Decoded(SideTables(a.value, b.value, m.value.0, m.value.1, m.value.2), a.used + b.used + m.used)
  }

  // ---------------------------------------------------------------------
  // Round trips: each reader gives back what its writer wrote, whatever
  // follows it.

  /** The debug information read from bytes whose fields are those of `g`. */
  lemma DebugFromFields(s: seq<byte>, g: DebugInfo, sz: Sizes)
    requires g.Valid(sz) && g.Fits()
    requires var n, m := |g.data|, |g.pcs|;
      && 8 + n + m <= |s| && DecodeI32(s[..4]) == n && DecodeI32(s[4..8]) == g.pcsLength
      && s[8..8 + n] == g.data && s[8 + n..8 + n + m] == g.pcs
    ensures DecodeDebug(s, sz) == Decoded(g, 8 + |g.data| + |g.pcs|)
  {
    U64OfSmall(|g.data|);
    U64OfSmall(|g.pcs|);
    DebugAfterCounts(s, sz, s[..4], s[4..8], g.pcsLength, |g.data|, |g.pcs|);
  }

  lemma DebugRoundTrip(g: DebugInfo, t: seq<byte>, sz: Sizes)
    requires g.Valid(sz) && g.Fits()
    ensures DecodeDebug(DebugLayout(g) + t, sz) == Decoded(g, |DebugLayout(g)|)
  {
    var a, b := I32Bytes(|g.data|), I32Bytes(g.pcsLength);
    var s := DebugLayout(g) + t;
    FieldsOf(a + b, g.data, g.pcs, t);
    assert s[..4] == s[..8][..4] == a;
    assert s[4..8] == s[..8][4..] == b;
    I32RoundTrip(|g.data|);
    I32RoundTrip(g.pcsLength);
    DebugFromFields(s, g, sz);
  }

  lemma DepsRoundTrip(deps: seq<byte>, t: seq<byte>)
    requires |deps| < 0x8000_0000
    ensures DecodeDeps(DepsLayout(deps) + t) == Decoded(deps, |DepsLayout(deps)|)
  {
    I32RoundTrip(|deps|);
    Fields3Of(I32Bytes(|deps|), deps, t);
  }

  lemma OopMapRoundTrip(m: OopMap, t: seq<byte>, sz: Sizes)
    requires m.Valid(sz) && m.Fits()
    ensures DecodeOopMap(OopMapLayout(m) + t, sz) == Decoded(m, |OopMapLayout(m)|)
  {
    I32RoundTrip(|m.data|);
    FieldsOf(I32Bytes(|m.data|), m.header, m.data, t);
  }

  lemma {:induction false} OopMapListRoundTrip(ms: seq<OopMap>, t: seq<byte>, sz: Sizes)
    requires forall i :: 0 <= i < |ms| ==> ms[i].Valid(sz) && ms[i].Fits()
    ensures DataFits(ms)
    ensures DecodeOopMapList(OopMapListLayout(ms) + t, sz, |ms|) == Decoded(ms, |OopMapListLayout(ms)|)
    decreases |ms|
  {
    if ms != [] {
      var head, tail := OopMapLayout(ms[0]), OopMapListLayout(ms[1..]);
      AppendAssoc(head, tail, t);
      OopMapRoundTrip(ms[0], tail + t, sz);
      OopMapListRoundTrip(ms[1..], t, sz);
      assert (head + (tail + t))[|head|..] == tail + t;
      assert [ms[0]] + ms[1..] == ms;
    }
  }

  lemma OopMapsRoundTrip(ms: seq<OopMap>, t: seq<byte>, sz: Sizes)
    requires |ms| < 0x8000_0000 && forall i :: 0 <= i < |ms| ==> ms[i].Valid(sz) && ms[i].Fits()
    ensures DataFits(ms)
    ensures DecodeOopMaps(OopMapsLayout(ms) + t, sz) == Decoded(ms, |OopMapsLayout(ms)|)
  {
    OopMapListRoundTrip(ms, t, sz);
    var c, body := I32Bytes(|ms|), OopMapListLayout(ms);
    DecodeEncodeLE(|ms|, 4);
    Fields3Of(c, body, t);
    OopMapsFromParts(c + body + t, sz, body + t, ms, |body|);
  }

  lemma OopMapsFromParts(s: seq<byte>, sz: Sizes, s1: seq<byte>, ms: seq<OopMap>, used: nat)
    requires |s| >= 4 && DecodeLE(s[..4]) == |ms| < 0x8000_0000 && s[4..] == s1
    requires DecodeOopMapList(s1, sz, |ms|) == Decoded(ms, used)
    ensures DecodeOopMaps(s, sz) == Decoded(ms, 4 + used)
  {
  }

  lemma TableRoundTrip(tb: Table, t: seq<byte>, size: int -> nat)
    requires tb.Valid(size) && tb.Fits() && size(0) == 0
    ensures DecodeTable(TableLayout(tb) + t, size) == Decoded(tb, |TableLayout(tb)|)
  {
    I32RoundTrip(tb.length);
    Fields3Of(I32Bytes(tb.length), tb.bytes, t);
  }

  lemma HandlerTablesFromParts(s: seq<byte>, sz: Sizes, s1: seq<byte>, e: Table, f: Table, le: nat, lf: nat)
    requires DecodeTable(s, sz.handlerTable) == Decoded(e, le) && le <= |s| && s[le..] == s1
    requires DecodeTable(s1, sz.nullCheckTable) == Decoded(f, lf)
    ensures DecodeHandlerTables(s, sz) == Decoded((e, f), le + lf)
  {
  }

  lemma MapsAndTablesFromParts(s: seq<byte>, sz: Sizes, s1: seq<byte>, ms: seq<OopMap>, e: Table, f: Table,
                               lc: nat, lt: nat)
    requires DecodeOopMaps(s, sz) == Decoded(ms, lc) && lc <= |s| && s[lc..] == s1
    requires DecodeHandlerTables(s1, sz) == Decoded((e, f), lt)
    ensures DecodeMapsAndTables(s, sz) == Decoded((ms, e, f), lc + lt)
  {
  }

  /** The side tables from what each of their readers gives on what the previous one left. */
  lemma SideTablesFromParts(s: seq<byte>, sz: Sizes, tables: SideTables, s1: seq<byte>, s2: seq<byte>,
                            la: nat, lb: nat, lm: nat)
    requires DecodeDebug(s, sz) == Decoded(tables.debug, la) && la <= |s| && s[la..] == s1
    requires DecodeDeps(s1) == Decoded(tables.dependencies, lb) && lb <= |s1| && s1[lb..] == s2
    requires DecodeMapsAndTables(s2, sz) == Decoded((tables.oopMaps, tables.handlers, tables.nullChecks), lm)
    ensures DecodeSideTables(s, sz) == Decoded(tables, la + lb + lm)
  {
  }

  lemma HandlerTablesRoundTrip(h: Table, n: Table, t: seq<byte>, sz: Sizes)
    requires sz.Valid() && h.Valid(sz.handlerTable) && h.Fits() && n.Valid(sz.nullCheckTable) && n.Fits()
    ensures DecodeHandlerTables(HandlerTablesLayout(h, n) + t, sz) == Decoded((h, n), |HandlerTablesLayout(h, n)|)
  {
    var e, f := TableLayout(h), TableLayout(n);
    AppendAssoc(e, f, t);
    TableRoundTrip(h, f + t, sz.handlerTable);
    TableRoundTrip(n, t, sz.nullCheckTable);
    HandlerTablesFromParts(e + (f + t), sz, f + t, h, n, |e|, |f|);
  }

  lemma MapsAndTablesRoundTrip(ms: seq<OopMap>, h: Table, n: Table, t: seq<byte>, sz: Sizes)
    requires sz.Valid() && h.Valid(sz.handlerTable) && h.Fits() && n.Valid(sz.nullCheckTable) && n.Fits()
    requires |ms| < 0x8000_0000 && forall i :: 0 <= i < |ms| ==> ms[i].Valid(sz) && ms[i].Fits()
    ensures DataFits(ms)
    ensures DecodeMapsAndTables(MapsAndTablesLayout(ms, h, n) + t, sz) == Decoded((ms, h, n), |MapsAndTablesLayout(ms, h, n)|)
  {
    OopMapsRoundTrip(ms, [], sz);
    var c, r := OopMapsLayout(ms), HandlerTablesLayout(h, n);
    AppendAssoc(c, r, t);
    OopMapsRoundTrip(ms, r + t, sz);
    HandlerTablesRoundTrip(h, n, t, sz);
    MapsAndTablesFromParts(c + (r + t), sz, r + t, ms, h, n, |c|, |r|);
  }

  /** `load_nmethod` reads back the side tables `store_nmethod` wrote. */
  lemma SideTablesRoundTrip(tables: SideTables, t: seq<byte>, sz: Sizes)
    requires sz.Valid() && tables.Valid(sz) && tables.Fits()
    ensures DataFits(tables.oopMaps)
    ensures DecodeSideTables(SideTablesLayout(tables) + t, sz) == Decoded(tables, |SideTablesLayout(tables)|)
  {
    MapsAndTablesRoundTrip(tables.oopMaps, tables.handlers, tables.nullChecks, t, sz);
    var a, b := DebugLayout(tables.debug), DepsLayout(tables.dependencies);
    var m := MapsAndTablesLayout(tables.oopMaps, tables.handlers, tables.nullChecks);
    DebugRoundTrip(tables.debug, (b + m) + t, sz);
    DepsRoundTrip(tables.dependencies, m + t);
    SideTablesOfParts(tables, a, b, m, t, sz);
  }

  /** The side tables read back from the three layouts in a row, each read back on its own. */
  lemma SideTablesOfParts(tables: SideTables, a: seq<byte>, b: seq<byte>, m: seq<byte>, t: seq<byte>, sz: Sizes)
    requires DecodeDebug(a + ((b + m) + t), sz) == Decoded(tables.debug, |a|)
    requires DecodeDeps(b + (m + t)) == Decoded(tables.dependencies, |b|)
    requires DecodeMapsAndTables(m + t, sz) == Decoded((tables.oopMaps, tables.handlers, tables.nullChecks), |m|)
    ensures DecodeSideTables(a + (b + m) + t, sz) == Decoded(tables, |a + (b + m)|)
  {
    var r := b + m;
    AppendAssoc(a, r, t);
    AppendAssoc(b, m, t);
    assert (a + (r + t))[|a|..] == r + t;
    assert (b + (m + t))[|b|..] == m + t;
    SideTablesFromParts(a + (r + t), sz, tables, r + t, m + t, |a|, |b|, |m|);
  }

  // ---------------------------------------------------------------------
  // Writing. Each writer stops at the first `write_bytes` that does not
  // write everything; a writer that succeeds has written its layout, and
  // every part it wrote was smaller than one `write_bytes` can move.

  /** `write_debug_info`. */
  method WriteDebugInfo(archive: Archive.SCAFile, g: DebugInfo) returns (ok: bool)
    requires archive.ForWrite() && archive.fileOffset <= |archive.data| && |g.data| < 0x8000_0000
    modifies archive`data, archive`fileOffset, archive`failed
    ensures ok ==>
      && archive.data == Overwrite(old(archive.data), old(archive.fileOffset), DebugLayout(g))
      && archive.fileOffset == old(archive.fileOffset) + |DebugLayout(g)|
      && archive.ForWrite() && archive.fileOffset <= |archive.data|
      && g.Fits()
    ensures !ok ==> archive.failed
  {
    ghost var d0, o0 := archive.data, archive.fileOffset;
    var a, b := I32Bytes(|g.data|), I32Bytes(g.pcsLength);
    ok := archive.WriteAll(a);
    if ok {
      ok := Artifacts.Append(archive, b, d0, o0, a);
      if ok {
        ok := Artifacts.Append(archive, g.data, d0, o0, a + b);
        if ok {
          ok := Artifacts.Append(archive, g.pcs, d0, o0, a + b + g.data);
        }
      }
    }
  }

  /** The dependencies: `dependencies_size`, then the content bytes. */
  method WriteDeps(archive: Archive.SCAFile, deps: seq<byte>) returns (ok: bool)
    requires archive.ForWrite() && archive.fileOffset <= |archive.data| && |deps| < 0x8000_0000
    modifies archive`data, archive`fileOffset, archive`failed
    ensures ok ==>
      && archive.data == Overwrite(old(archive.data), old(archive.fileOffset), DepsLayout(deps))
      && archive.fileOffset == old(archive.fileOffset) + |DepsLayout(deps)|
      && archive.ForWrite() && archive.fileOffset <= |archive.data|
    ensures !ok ==> archive.failed
  {
    ghost var d0, o0 := archive.data, archive.fileOffset;
    var a := I32Bytes(|deps|);
    ok := archive.WriteAll(a);
    if ok {
      ok := Artifacts.Append(archive, deps, d0, o0, a);
    }
  }

  /** One map of `write_oop_maps`. */
  method WriteOopMap(archive: Archive.SCAFile, m: OopMap) returns (ok: bool)
    requires archive.ForWrite() && archive.fileOffset <= |archive.data| && |m.data| < 0x8000_0000
    modifies archive`data, archive`fileOffset, archive`failed
    ensures ok ==>
      && archive.data == Overwrite(old(archive.data), old(archive.fileOffset), OopMapLayout(m))
      && archive.fileOffset == old(archive.fileOffset) + |OopMapLayout(m)|
      && archive.ForWrite() && archive.fileOffset <= |archive.data|
      && m.Fits()
    ensures !ok ==> archive.failed
  {
    ghost var d0, o0 := archive.data, archive.fileOffset;
    var a := I32Bytes(|m.data|);
    ok := archive.WriteAll(a);
    if ok {
      ok := Artifacts.Append(archive, m.header, d0, o0, a);
      if ok {
        ok := Artifacts.Append(archive, m.data, d0, o0, a + m.header);
      }
    }
  }

  lemma {:induction false} OopMapListLayoutAppend(a: seq<OopMap>, b: seq<OopMap>)
    requires DataFits(a) && DataFits(b)
    ensures DataFits(a + b)
    ensures OopMapListLayout(a + b) == OopMapListLayout(a) + OopMapListLayout(b)
  {
    DataFitsAppend(a, b);
    if a == [] {
      assert a + b == b;
    } else {
      var ab := a + b;
      assert ab[0] == a[0];
      assert ab[1..] == a[1..] + b;
      OopMapListLayoutAppend(a[1..], b);
      AppendAssoc(OopMapLayout(a[0]), OopMapListLayout(a[1..]), OopMapListLayout(b));
    }
  }

  lemma DataFitsAppend(a: seq<OopMap>, b: seq<OopMap>)
    requires DataFits(a) && DataFits(b)
    ensures DataFits(a + b)
  {
    forall i | 0 <= i < |a + b|
      ensures |(a + b)[i].data| < 0x8000_0000
    {
      if i >= |a| {
        assert (a + b)[i] == b[i - |a|];
      }
    }
  }

  /** The layout of the first `i + 1` maps: that of the first `i`, then map `i`. */
  lemma OopMapListSnoc(ms: seq<OopMap>, i: nat)
    requires i < |ms| && DataFits(ms)
    ensures DataFits(ms[..i]) && DataFits(ms[..i + 1])
    ensures OopMapListLayout(ms[..i + 1]) == OopMapListLayout(ms[..i]) + OopMapLayout(ms[i])
  {
    assert ms[..i + 1] == ms[..i] + [ms[i]];
    OopMapListLayoutAppend(ms[..i], [ms[i]]);
    assert OopMapListLayout([ms[i]]) == OopMapLayout(ms[i]) + OopMapListLayout([]);
  }

  /** One map written after the bytes `w` already written from `o0`. */
  method AppendOopMap(archive: Archive.SCAFile, m: OopMap, ghost d0: seq<byte>, ghost o0: nat, ghost w: seq<byte>)
    returns (ok: bool)
    requires archive.ForWrite() && archive.fileOffset <= |archive.data| && |m.data| < 0x8000_0000
    requires archive.data == Overwrite(d0, o0, w) && archive.fileOffset == o0 + |w|
    modifies archive`data, archive`fileOffset, archive`failed
    ensures ok ==>
      && archive.ForWrite() && archive.fileOffset <= |archive.data| && m.Fits()
      && archive.data == Overwrite(d0, o0, w + OopMapLayout(m)) && archive.fileOffset == o0 + |w + OopMapLayout(m)|
    ensures !ok ==> archive.failed
  {
    ok := WriteOopMap(archive, m);
    OverwriteAppend(d0, o0, w, OopMapLayout(m));
  }

  /** `write_oop_maps`: the count, then each map in order. */
  method WriteOopMaps(archive: Archive.SCAFile, ms: seq<OopMap>) returns (ok: bool)
    requires archive.ForWrite() && archive.fileOffset <= |archive.data|
    requires |ms| < 0x8000_0000 && DataFits(ms)
    modifies archive`data, archive`fileOffset, archive`failed
    ensures ok ==>
      && archive.data == Overwrite(old(archive.data), old(archive.fileOffset), OopMapsLayout(ms))
      && archive.fileOffset == old(archive.fileOffset) + |OopMapsLayout(ms)|
      && archive.ForWrite() && archive.fileOffset <= |archive.data|
      && forall i :: 0 <= i < |ms| ==> ms[i].Fits()
    ensures !ok ==> archive.failed
  {
    ghost var d0, o0 := archive.data, archive.fileOffset;
    var c := I32Bytes(|ms|);
    ok := archive.WriteAll(c);
    if !ok {
      return;
    }
    ghost var w := c;
    var i := 0;
    while i < |ms|
      invariant 0 <= i <= |ms| && DataFits(ms[..i])
      invariant w == c + OopMapListLayout(ms[..i])
      invariant archive.ForWrite() && archive.fileOffset <= |archive.data|
      invariant archive.data == Overwrite(d0, o0, w) && archive.fileOffset == o0 + |w|
      invariant forall j :: 0 <= j < i ==> ms[j].Fits()
    {
      ok := AppendOopMap(archive, ms[i], d0, o0, w);
      if !ok {
        return;
      }
      OopMapListSnoc(ms, i);
      AppendAssoc(c, OopMapListLayout(ms[..i]), OopMapLayout(ms[i]));
      w := w + OopMapLayout(ms[i]);
      i := i + 1;
    }
    assert ms[..i] == ms;
    ok := true;
  }

  /** A table: its length, then its `size_in_bytes()` bytes. */
  method WriteTable(archive: Archive.SCAFile, tb: Table) returns (ok: bool)
    requires archive.ForWrite() && archive.fileOffset <= |archive.data|
    modifies archive`data, archive`fileOffset, archive`failed
    ensures ok ==>
      && archive.data == Overwrite(old(archive.data), old(archive.fileOffset), TableLayout(tb))
      && archive.fileOffset == old(archive.fileOffset) + |TableLayout(tb)|
      && archive.ForWrite() && archive.fileOffset <= |archive.data|
      && tb.Fits()
    ensures !ok ==> archive.failed
  {
    ghost var d0, o0 := archive.data, archive.fileOffset;
    var a := I32Bytes(tb.length);
    ok := archive.WriteAll(a);
    if ok {
      ok := Artifacts.Append(archive, tb.bytes, d0, o0, a);
    }
  }

  method WriteHandlerTables(archive: Archive.SCAFile, h: Table, n: Table) returns (ok: bool)
    requires archive.ForWrite() && archive.fileOffset <= |archive.data|
    modifies archive`data, archive`fileOffset, archive`failed
    ensures ok ==>
      && archive.data == Overwrite(old(archive.data), old(archive.fileOffset), HandlerTablesLayout(h, n))
      && archive.fileOffset == old(archive.fileOffset) + |HandlerTablesLayout(h, n)|
      && archive.ForWrite() && archive.fileOffset <= |archive.data|
      && h.Fits() && n.Fits()
    ensures !ok ==> archive.failed
  {
    ghost var d0, o0 := archive.data, archive.fileOffset;
    ok := WriteTable(archive, h);
    if !ok {
      return;
    }
    ok := WriteTable(archive, n);
    if ok {
      OverwriteAppend(d0, o0, TableLayout(h), TableLayout(n));
    }
  }

  method WriteMapsAndTables(archive: Archive.SCAFile, ms: seq<OopMap>, h: Table, n: Table) returns (ok: bool)
    requires archive.ForWrite() && archive.fileOffset <= |archive.data|
    requires |ms| < 0x8000_0000 && DataFits(ms)
    modifies archive`data, archive`fileOffset, archive`failed
    ensures ok ==>
      && archive.data == Overwrite(old(archive.data), old(archive.fileOffset), MapsAndTablesLayout(ms, h, n))
      && archive.fileOffset == old(archive.fileOffset) + |MapsAndTablesLayout(ms, h, n)|
      && archive.ForWrite() && archive.fileOffset <= |archive.data|
      && (forall i :: 0 <= i < |ms| ==> ms[i].Fits()) && h.Fits() && n.Fits()
    ensures !ok ==> archive.failed
  {
    ghost var d0, o0 := archive.data, archive.fileOffset;
    ok := WriteOopMaps(archive, ms);
    if !ok {
      return;
    }
    ok := WriteHandlerTables(archive, h, n);
    if ok {
      OverwriteAppend(d0, o0, OopMapsLayout(ms), HandlerTablesLayout(h, n));
    }
  }

  /** The side tables in the order `store_nmethod` writes them. */
  method WriteSideTables(archive: Archive.SCAFile, t: SideTables) returns (ok: bool)
    requires archive.ForWrite() && archive.fileOffset <= |archive.data|
    requires |t.debug.data| < 0x8000_0000 && |t.dependencies| < 0x8000_0000
    requires |t.oopMaps| < 0x8000_0000 && DataFits(t.oopMaps)
    modifies archive`data, archive`fileOffset, archive`failed
    ensures ok ==>
      && archive.data == Overwrite(old(archive.data), old(archive.fileOffset), SideTablesLayout(t))
      && archive.fileOffset == old(archive.fileOffset) + |SideTablesLayout(t)|
      && archive.ForWrite() && archive.fileOffset <= |archive.data|
      && t.Fits()
    ensures !ok ==> archive.failed
  {
    ghost var d0, o0 := archive.data, archive.fileOffset;
    ghost var a, b := DebugLayout(t.debug), DepsLayout(t.dependencies);
    ghost var m := MapsAndTablesLayout(t.oopMaps, t.handlers, t.nullChecks);
    ok := WriteDebugInfo(archive, t.debug);
    if !ok {
      return;
    }
    ok := WriteDeps(archive, t.dependencies);
    if !ok {
      return;
    }
    OverwriteAppend(d0, o0, a, b);
    ok := WriteMapsAndTables(archive, t.oopMaps, t.handlers, t.nullChecks);
    if !ok {
      return;
    }
    OverwriteAppend(d0, o0, a + b, m);
    AppendAssoc(a, b, m);
    assert SideTablesLayout(t) == a + b + m;
  }

  // ---------------------------------------------------------------------
  // Reading from the archive. A short read fails the archive; nothing
  // else stops these readers.

  /** `read_debug_info`. */
  method ReadDebugInfo(archive: Archive.SCAFile, sz: Sizes) returns (r: Decoded<DebugInfo>)
    requires archive.ForRead()
    modifies archive`fileOffset, archive`failed
    ensures r == DecodeDebug(Rest(archive.data, old(archive.fileOffset)), sz)
    ensures r.Decoded? ==> archive.ForRead() && archive.fileOffset == old(archive.fileOffset) + r.used
    ensures !r.Decoded? ==> archive.failed
  {
    ghost var d, o0 := archive.data, archive.fileOffset;
    ghost var s := Rest(d, o0);
    TakeAtRest(d, o0, 4);
    var ok, a := archive.ReadExactly(4);
    if !ok {
      return Short;
    }
    ghost var o1 := archive.fileOffset;
    ghost var s1 := Rest(d, o1);
    TakeAtRest(d, o1, 4);
    var b;
    ok, b := archive.ReadExactly(4);
    if !ok {
      return Short;
    }
    ghost var o2 := archive.fileOffset;
    ghost var s2 := Rest(d, o2);
    var len := DecodeI32(b);
    var n, m := U64Of(DecodeI32(a)), U64Of(len * sz.pcDesc);
    TakeAtRest(d, o2, n);
    var data;
    ok, data := archive.ReadExactly(n);
    if !ok {
      DebugFromReads(s, s1, s2, [], sz, a, b, [], [], len, n, m);
      return Short;
    }
    ghost var o3 := archive.fileOffset;
    ghost var s3 := Rest(d, o3);
    TakeAtRest(d, o3, m);
    var pcs;
    ok, pcs := archive.ReadExactly(m);
    DebugFromReads(s, s1, s2, s3, sz, a, b, data, pcs, len, n, m);
    if !ok {
      return Short;
    }
    r := Decoded(DebugInfo(data, len, pcs), 8 + n + m);
  }

  /** `DecodeDebug` in terms of the four reads of `read_debug_info`, each on what the previous one left. */
  lemma DebugFromReads(s: seq<byte>, s1: seq<byte>, s2: seq<byte>, s3: seq<byte>, sz: Sizes, a: seq<byte>,
                       b: seq<byte>, data: seq<byte>, pcs: seq<byte>, len: int, n: nat, m: nat)
    requires |s| >= 8 && a == s[..4] && s1 == s[4..] && b == s1[..4] && s2 == s1[4..] && len == DecodeI32(b)
    requires n == U64Of(DecodeI32(a)) && m == U64Of(len * sz.pcDesc)
    ensures n >= U32_MODULUS || n > |s2| ==> DecodeDebug(s, sz) == Short
    ensures n < U32_MODULUS && n <= |s2| && s3 == s2[n..] && (m >= U32_MODULUS || m > |s3|) ==>
      DecodeDebug(s, sz) == Short
    ensures (&& n < U32_MODULUS && n <= |s2| && s3 == s2[n..] && m < U32_MODULUS && m <= |s3|
             && data == s2[..n] && pcs == s3[..m]) ==>
      DecodeDebug(s, sz) == Decoded(DebugInfo(data, len, pcs), 8 + n + m)
  {
    assert b == s[4..8];
    DebugAfterCounts(s, sz, a, b, len, n, m);
    if n < U32_MODULUS && n <= |s2| && s3 == s2[n..] && m < U32_MODULUS && m <= |s3| {
      assert s2 == s[8..];
      assert s2[..n] == s[8..8 + n];
      assert s3[..m] == s[8 + n..8 + n + m];
    }
  }

  /** What `DecodeDebug` makes of `s` once its two counts are known. */
  lemma DebugAfterCounts(s: seq<byte>, sz: Sizes, a: seq<byte>, b: seq<byte>, len: int, n: nat, m: nat)
    requires |s| >= 8 && a == s[..4] && b == s[4..8] && len == DecodeI32(b)
    requires n == U64Of(DecodeI32(a)) && m == U64Of(len * sz.pcDesc)
    ensures n >= U32_MODULUS || |s| < 8 + n ==> DecodeDebug(s, sz) == Short
    ensures n < U32_MODULUS && 8 + n <= |s| && (m >= U32_MODULUS || |s| < 8 + n + m) ==> DecodeDebug(s, sz) == Short
    ensures n < U32_MODULUS && m < U32_MODULUS && 8 + n + m <= |s| ==>
      DecodeDebug(s, sz) == Decoded(DebugInfo(s[8..8 + n], len, s[8 + n..8 + n + m]), 8 + n + m)
  {
  }

  /** The dependencies of `load_nmethod`. */
  method ReadDeps(archive: Archive.SCAFile) returns (r: Decoded<seq<byte>>)
    requires archive.ForRead()
    modifies archive`fileOffset, archive`failed
    ensures r == DecodeDeps(Rest(archive.data, old(archive.fileOffset)))
    ensures r.Decoded? ==> archive.ForRead() && archive.fileOffset == old(archive.fileOffset) + r.used
    ensures !r.Decoded? ==> archive.failed
  {
    ghost var d, o := archive.data, archive.fileOffset;
    ghost var s := Rest(d, o);
    TakeAtRest(d, o, 4);
    var ok, a := archive.ReadExactly(4);
    if !ok {
      return Short;
    }
    var n := U64Of(DecodeI32(a));
    TakeAtRest(d, o + 4, n);
    var deps;
    ok, deps := archive.ReadExactly(n);
    if !ok {
      return Short;
    }
    assert a == s[..4] && deps == s[4..4 + n];
    r := Decoded(deps, 4 + n);
  }

  /** What `DecodeOopMap` makes of `s` once its count is known. */
  lemma OopMapAfterCount(s: seq<byte>, sz: Sizes, a: seq<byte>, n: nat)
    requires |s| >= 4 && a == s[..4] && n == U64Of(DecodeI32(a))
    ensures sz.oopMap >= U32_MODULUS || |s| < 4 + sz.oopMap ==> DecodeOopMap(s, sz) == Short
    ensures sz.oopMap < U32_MODULUS && 4 + sz.oopMap <= |s| && (n >= U32_MODULUS || |s| < 4 + sz.oopMap + n) ==>
      DecodeOopMap(s, sz) == Short
    ensures sz.oopMap < U32_MODULUS && n < U32_MODULUS && 4 + sz.oopMap + n <= |s| ==>
      DecodeOopMap(s, sz) == Decoded(OopMap(s[4..4 + sz.oopMap], s[4 + sz.oopMap..4 + sz.oopMap + n]), 4 + sz.oopMap + n)
  {
  }

  /** One map of `read_oop_maps`. */
  method ReadOopMap(archive: Archive.SCAFile, sz: Sizes) returns (r: Decoded<OopMap>)
    requires archive.ForRead()
    modifies archive`fileOffset, archive`failed
    ensures r == DecodeOopMap(Rest(archive.data, old(archive.fileOffset)), sz)
    ensures r.Decoded? ==> archive.ForRead() && archive.fileOffset == old(archive.fileOffset) + r.used
    ensures !r.Decoded? ==> archive.failed
  {
    ghost var d, o0 := archive.data, archive.fileOffset;
    ghost var s := Rest(d, o0);
    TakeAtRest(d, o0, 4);
    var ok, a := archive.ReadExactly(4);
    if !ok {
      return Short;
    }
    ghost var o1 := archive.fileOffset;
    ghost var s1 := Rest(d, o1);
    var h, n := sz.oopMap, U64Of(DecodeI32(a));
    TakeAtRest(d, o1, h);
    var header;
    ok, header := archive.ReadExactly(h);
    if !ok {
      OopMapFromReads(s, s1, [], sz, a, [], [], n);
      return Short;
    }
    ghost var o2 := archive.fileOffset;
    ghost var s2 := Rest(d, o2);
    TakeAtRest(d, o2, n);
    var data;
    ok, data := archive.ReadExactly(n);
    OopMapFromReads(s, s1, s2, sz, a, header, data, n);
    if !ok {
      return Short;
    }
    r := Decoded(OopMap(header, data), 4 + h + n);
  }

  /** `DecodeOopMap` in terms of the three reads of one map, each on what the previous one left. */
  lemma OopMapFromReads(s: seq<byte>, s1: seq<byte>, s2: seq<byte>, sz: Sizes, a: seq<byte>,
                        header: seq<byte>, data: seq<byte>, n: nat)
    requires |s| >= 4 && a == s[..4] && s1 == s[4..] && n == U64Of(DecodeI32(a))
    ensures sz.oopMap >= U32_MODULUS || sz.oopMap > |s1| ==> DecodeOopMap(s, sz) == Short
    ensures sz.oopMap < U32_MODULUS && sz.oopMap <= |s1| && s2 == s1[sz.oopMap..] && (n >= U32_MODULUS || n > |s2|) ==>
      DecodeOopMap(s, sz) == Short
    ensures (&& sz.oopMap < U32_MODULUS && sz.oopMap <= |s1| && s2 == s1[sz.oopMap..] && n < U32_MODULUS && n <= |s2|
             && header == s1[..sz.oopMap] && data == s2[..n]) ==>
      DecodeOopMap(s, sz) == Decoded(OopMap(header, data), 4 + sz.oopMap + n)
  {
    var h := sz.oopMap;
    OopMapAfterCount(s, sz, a, n);
    if h < U32_MODULUS && h <= |s1| && s2 == s1[h..] && n < U32_MODULUS && n <= |s2| {
      assert s1[..h] == s[4..4 + h];
      assert s2[..n] == s[4 + h..4 + h + n];
    }
  }

  /** Reading the first of the maps still to read from `s`. */
  lemma DecodeOopMapListStep(s: seq<byte>, sz: Sizes, n: nat, r: Decoded<OopMap>)
    requires n > 0 && r == DecodeOopMap(s, sz)
    ensures r.Decoded? ==> DecodeOopMapList(s, sz, n) == Prepend([r.value], r.used, DecodeOopMapList(s[r.used..], sz, n - 1))
    ensures !r.Decoded? ==> DecodeOopMapList(s, sz, n) == Short
  {
  }

  /** What reading one more map does to the maps read so far. */
  lemma NextOopMap(rest: seq<byte>, rest': seq<byte>, sz: Sizes, k: nat, maps: seq<OopMap>, used: nat,
                   maps': seq<OopMap>, used': nat, whole: Decoded<seq<OopMap>>, x: Decoded<OopMap>)
    requires k > 0 && x == DecodeOopMap(rest, sz)
    requires whole == Prepend(maps, used, DecodeOopMapList(rest, sz, k))
    requires x.Decoded? ==> rest' == rest[x.used..] && maps' == maps + [x.value] && used' == used + x.used
    ensures x.Decoded? ==> whole == Prepend(maps', used', DecodeOopMapList(rest', sz, k - 1))
    ensures !x.Decoded? ==> whole == Short
  {
    DecodeOopMapListStep(rest, sz, k, x);
    if x.Decoded? {
      PrependPrepend(maps, used, [x.value], x.used, DecodeOopMapList(rest[x.used..], sz, k - 1));
    }
  }

  /**
   * One turn of the loop of `read_oop_maps`: read the next map and add it
   * to those read so far, whose decoding `whole` then continues on what is
   * left.
   */
  method ReadNextOopMap(archive: Archive.SCAFile, sz: Sizes, k: nat, maps: seq<OopMap>, used: nat,
                        ghost whole: Decoded<seq<OopMap>>, ghost d: seq<byte>)
    returns (ok: bool, maps': seq<OopMap>, used': nat)
    requires k > 0 && archive.ForRead() && archive.data == d
    requires whole == Prepend(maps, used, DecodeOopMapList(Rest(d, archive.fileOffset), sz, k))
    modifies archive`fileOffset, archive`failed
    ensures ok ==> archive.ForRead() && archive.fileOffset - old(archive.fileOffset) == used' - used
    ensures ok ==> whole == Prepend(maps', used', DecodeOopMapList(Rest(d, archive.fileOffset), sz, k - 1))
    ensures !ok ==> whole == Short && archive.failed
  {
    ghost var o := archive.fileOffset;
    ghost var rest := Rest(d, o);
    var x := ReadOopMap(archive, sz);
    if !x.Decoded? {
      NextOopMap(rest, [], sz, k, maps, used, maps, used, whole, x);
      return false, maps, used;
    }
    ok, maps', used' := true, maps + [x.value], used + x.used;
    RestRest(d, o, x.used);
    NextOopMap(rest, Rest(d, archive.fileOffset), sz, k, maps, used, maps', used', whole, x);
  }

  /** The maps of `read_oop_maps` after the count: `n` of them, in order. */
  method ReadOopMapList(archive: Archive.SCAFile, sz: Sizes, n: nat) returns (r: Decoded<seq<OopMap>>)
    requires archive.ForRead()
    modifies archive`fileOffset, archive`failed
    ensures r == DecodeOopMapList(Rest(archive.data, old(archive.fileOffset)), sz, n)
    ensures r.Decoded? ==> archive.ForRead() && archive.fileOffset == old(archive.fileOffset) + r.used
    ensures !r.Decoded? ==> archive.failed
  {
    ghost var d, o0 := archive.data, archive.fileOffset;
    ghost var whole := DecodeOopMapList(Rest(d, o0), sz, n);
    var used: nat := 0;
    PrependNothing(whole);
    var maps: seq<OopMap> := [];
    var i := 0;
    while i < n
      invariant 0 <= i <= n && archive.data == d
      invariant archive.ForRead() && archive.fileOffset == o0 + used
      invariant whole == Prepend(maps, used, DecodeOopMapList(Rest(d, archive.fileOffset), sz, n - i))
    {
      var ok;
      ok, maps, used := ReadNextOopMap(archive, sz, n - i, maps, used, whole, d);
      if !ok {
        return Short;
      }
      i := i + 1;
    }
    assert maps + [] == maps;
    r := Decoded(maps, used);
  }

  /** `read_oop_maps`: the count, then the maps. */
  method ReadOopMaps(archive: Archive.SCAFile, sz: Sizes) returns (r: Decoded<seq<OopMap>>)
    requires archive.ForRead()
    modifies archive`fileOffset, archive`failed
    ensures r == DecodeOopMaps(Rest(archive.data, old(archive.fileOffset)), sz)
    ensures r.Decoded? ==> archive.ForRead() && archive.fileOffset == old(archive.fileOffset) + r.used
    ensures !r.Decoded? ==> archive.failed
  {
    ghost var d, o := archive.data, archive.fileOffset;
    ghost var s := Rest(d, o);
    TakeAtRest(d, o, 4);
    var ok, a := archive.ReadExactly(4);
    if !ok {
      return Short;
    }
    var count := DecodeLE(a);
    assert a == s[..4];
    var maps := ReadOopMapList(archive, sz, if count < 0x8000_0000 then count else 0);
    r := After(4, maps);
  }

  /** A table of `load_nmethod`: the length, then its bytes when the length is positive. */
  method ReadTable(archive: Archive.SCAFile, size: int -> nat) returns (r: Decoded<Table>)
    requires archive.ForRead()
    modifies archive`fileOffset, archive`failed
    ensures r == DecodeTable(Rest(archive.data, old(archive.fileOffset)), size)
    ensures r.Decoded? ==> archive.ForRead() && archive.fileOffset == old(archive.fileOffset) + r.used
    ensures !r.Decoded? ==> archive.failed
  {
    ghost var d, o := archive.data, archive.fileOffset;
    ghost var s := Rest(d, o);
    TakeAtRest(d, o, 4);
    var ok, a := archive.ReadExactly(4);
    if !ok {
      return Short;
    }
    var len := DecodeI32(a);
    assert a == s[..4];
    if len <= 0 {
      return Decoded(Table(0, []), 4);
    }
    var n := size(len);
    TakeAtRest(d, o + 4, n);
    var bytes;
    ok, bytes := archive.ReadExactly(n);
    if !ok {
      return Short;
    }
    assert bytes == s[4..4 + n];
    r := Decoded(Table(len, bytes), 4 + n);
  }

  /** `DecodeHandlerTables` in terms of what each table reader returned. */
  lemma HandlerTablesSteps(s: seq<byte>, sz: Sizes, s1: seq<byte>, e: Decoded<Table>, f: Decoded<Table>)
    requires e == DecodeTable(s, sz.handlerTable)
    requires e.Decoded? ==> s1 == s[e.used..] && f == DecodeTable(s1, sz.nullCheckTable)
    ensures DecodeHandlerTables(s, sz) ==
      if e.Decoded? && f.Decoded? then Decoded((e.value, f.value), e.used + f.used) else Short
  {
  }

  /** The exception handler table and the implicit null-check table of `load_nmethod`. */
  method ReadHandlerTables(archive: Archive.SCAFile, sz: Sizes) returns (r: Decoded<(Table, Table)>)
    requires archive.ForRead()
    modifies archive`fileOffset, archive`failed
    ensures r == DecodeHandlerTables(Rest(archive.data, old(archive.fileOffset)), sz)
    ensures r.Decoded? ==> archive.ForRead() && archive.fileOffset == old(archive.fileOffset) + r.used
    ensures !r.Decoded? ==> archive.failed
  {
    ghost var d, o := archive.data, archive.fileOffset;
    ghost var s1: seq<byte> := [];
    var e := ReadTable(archive, sz.handlerTable);
    if !e.Decoded? {
      HandlerTablesSteps(Rest(d, o), sz, s1, e, Short);
      return Short;
    }
    RestRest(d, o, e.used);
    s1 := Rest(d, archive.fileOffset);
    var f := ReadTable(archive, sz.nullCheckTable);
    HandlerTablesSteps(Rest(d, o), sz, s1, e, f);
    if !f.Decoded? {
      return Short;
    }
    r := Decoded((e.value, f.value), e.used + f.used);
  }

  lemma MapsAndTablesSteps(s: seq<byte>, sz: Sizes, s1: seq<byte>, c: Decoded<seq<OopMap>>,
                           t: Decoded<(Table, Table)>)
    requires c == DecodeOopMaps(s, sz)
    requires c.Decoded? ==> s1 == s[c.used..] && t == DecodeHandlerTables(s1, sz)
    ensures DecodeMapsAndTables(s, sz) ==
      if c.Decoded? && t.Decoded? then Decoded((c.value, t.value.0, t.value.1), c.used + t.used) else Short
  {
  }

  /** The oop maps and the two tables of `load_nmethod`. */
  method ReadMapsAndTables(archive: Archive.SCAFile, sz: Sizes) returns (r: Decoded<(seq<OopMap>, Table, Table)>)
    requires archive.ForRead()
    modifies archive`fileOffset, archive`failed
    ensures r == DecodeMapsAndTables(Rest(archive.data, old(archive.fileOffset)), sz)
    ensures r.Decoded? ==> archive.ForRead() && archive.fileOffset == old(archive.fileOffset) + r.used
    ensures !r.Decoded? ==> archive.failed
  {
    ghost var d, o := archive.data, archive.fileOffset;
    ghost var s1: seq<byte> := [];
    var c := ReadOopMaps(archive, sz);
    if !c.Decoded? {
      MapsAndTablesSteps(Rest(d, o), sz, s1, c, Short);
      return Short;
    }
    RestRest(d, o, c.used);
    s1 := Rest(d, archive.fileOffset);
    var t := ReadHandlerTables(archive, sz);
    MapsAndTablesSteps(Rest(d, o), sz, s1, c, t);
    if !t.Decoded? {
      return Short;
    }
    r := Decoded((c.value, t.value.0, t.value.1), c.used + t.used);
  }

  lemma SideTablesSteps(s: seq<byte>, sz: Sizes, s1: seq<byte>, s2: seq<byte>, a: Decoded<DebugInfo>,
                        b: Decoded<seq<byte>>, m: Decoded<(seq<OopMap>, Table, Table)>)
    requires a == DecodeDebug(s, sz)
    requires a.Decoded? ==> s1 == s[a.used..] && b == DecodeDeps(s1)
    requires a.Decoded? && b.Decoded? ==> s2 == s1[b.used..] && m == DecodeMapsAndTables(s2, sz)
    ensures DecodeSideTables(s, sz) ==
      if a.Decoded? && b.Decoded? && m.Decoded?
      then Decoded(SideTables(a.value, b.value, m.value.0, m.value.1, m.value.2), a.used + b.used + m.used)
      else Short
  {
  }

  /** The side tables in the order `load_nmethod` reads them. */
  method ReadSideTables(archive: Archive.SCAFile, sz: Sizes) returns (r: Decoded<SideTables>)
    requires archive.ForRead()
    modifies archive`fileOffset, archive`failed
    ensures r == DecodeSideTables(Rest(archive.data, old(archive.fileOffset)), sz)
    ensures r.Decoded? ==> archive.ForRead() && archive.fileOffset == old(archive.fileOffset) + r.used
    ensures !r.Decoded? ==> archive.failed
  {
    ghost var d, o := archive.data, archive.fileOffset;
    ghost var s1, s2: seq<byte> := [], [];
    var a := ReadDebugInfo(archive, sz);
    if !a.Decoded? {
      SideTablesSteps(Rest(d, o), sz, s1, s2, a, Short, Short);
      return Short;
    }
    RestRest(d, o, a.used);
    ghost var o1 := archive.fileOffset;
    s1 := Rest(d, o1);
    var b := ReadDeps(archive);
    if !b.Decoded? {
      SideTablesSteps(Rest(d, o), sz, s1, s2, a, b, Short);
      return Short;
    }
    RestRest(d, o1, b.used);
    s2 := Rest(d, archive.fileOffset);
    var m := ReadMapsAndTables(archive, sz);
    SideTablesSteps(Rest(d, o), sz, s1, s2, a, b, m);
    if !m.Decoded? {
      return Short;
    }
    r := Decoded(SideTables(a.value, b.value, m.value.0, m.value.1, m.value.2), a.used + b.used + m.used);
  }
}
