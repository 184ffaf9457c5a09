/**
 * The code block of a stored blob or nmethod: `SCAFile::write_code` and
 * `SCAFile::read_code` (SCArchive.cpp). For each of the `SECT_LIMIT`
 * sections of the `CodeBuffer`, in order, the block holds the section's
 * size as a `size_t` and, when the section is not empty, its original
 * start address and its bytes.
 *
 * `CodeBuffer`/`CodeSection` are replaced by `Section` values: the reader
 * returns the sections it read instead of filling a buffer, and is given
 * the capacity of each section.
 */
module CodeSections {
  import opened Bytes
  import opened FileImage
  import Archive

  /** `CodeBuffer::SECT_LIMIT`: consts, insts, stubs. */
  const SECT_LIMIT: nat := 3

  /** One code section: where it started in the compiling process, and its bytes. */
  datatype Section = Section(start: u64, code: seq<byte>)
  {
    /** The size fits the `size_t` it is written as. */
    predicate Valid() { |code| < U64_MODULUS }

    /**
     * What a reader with room for `cap` bytes accepts and gives back
     * unchanged: the size fits the capacity and the `unsigned int` read,
     * and an empty section records no start (the reader cannot see one).
     */
    predicate Fits(cap: nat)
    {
      && |code| <= cap && |code| < U32_MODULUS
      && (|code| == 0 ==> start == 0)
    }
  }

  predicate AllValid(ss: seq<Section>)
  {
    forall i :: 0 <= i < |ss| ==> ss[i].Valid()
  }

  /** Each of the sections fits the capacity at the same position, one capacity per section. */
  predicate AllFit(ss: seq<Section>, caps: seq<nat>)
  {
    |ss| == |caps| && forall i :: 0 <= i < |ss| ==> ss[i].Fits(caps[i])
  }

  /** The bytes `write_code` emits for one section. */
  function SectionLayout(sec: Section): (r: seq<byte>)
    requires sec.Valid()
    ensures |r| == if |sec.code| == 0 then 8 else 16 + |sec.code|
  {
    if |sec.code| == 0 then U64Bytes(0) else U64Bytes(|sec.code|) + U64Bytes(sec.start) + sec.code
  }

  /** The bytes `write_code` emits for the sections, in order. */
  function CodeLayout(ss: seq<Section>): seq<byte>
    requires AllValid(ss)
  {
    if ss == [] then [] else SectionLayout(ss[0]) + CodeLayout(ss[1..])
  }

  /** The `code_size` `write_code` reports: the sizes of all sections added up. */
  function CodeSize(ss: seq<Section>): nat
  {
    if ss == [] then 0 else |ss[0].code| + CodeSize(ss[1..])
  }

  lemma {:induction false} CodeLayoutAppend(a: seq<Section>, b: seq<Section>)
    requires AllValid(a) && AllValid(b)
    ensures AllValid(a + b)
    ensures CodeLayout(a + b) == CodeLayout(a) + CodeLayout(b)
    ensures CodeSize(a + b) == CodeSize(a) + CodeSize(b)
  {
    if a == [] {
      assert a + b == b;
    } else {
      assert (a + b)[1..] == a[1..] + b;
      CodeLayoutAppend(a[1..], b);
    }
  }

  /** The layout of the first `i + 1` sections: that of the first `i`, then section `i`. */
  lemma CodeLayoutSnoc(ss: seq<Section>, i: nat)
    requires i < |ss| && AllValid(ss)
    ensures AllValid(ss[..i]) && AllValid(ss[..i + 1])
    ensures CodeLayout(ss[..i + 1]) == CodeLayout(ss[..i]) + SectionLayout(ss[i])
    ensures CodeSize(ss[..i + 1]) == CodeSize(ss[..i]) + |ss[i].code|
  {
    assert ss[..i + 1] == ss[..i] + [ss[i]];
    CodeLayoutAppend(ss[..i], [ss[i]]);
    assert CodeLayout([ss[i]]) == SectionLayout(ss[i]) + CodeLayout([]);
  }

  /** One section as `read_code` reads it from the front of `s`: size, capacity check, then start and bytes. */
  function DecodeSection(s: seq<byte>, cap: nat): (r: Decoded<Section>)
    ensures r.Decoded? ==> r.used <= |s|
    ensures !r.Crash?
  {
    if |s| < 8 then Short
    else
      var size := DecodeLE(s[..8]);
      if size > cap then Refused
      else if size == 0 then Decoded(Section(0, []), 8)
      else if size >= U32_MODULUS || |s| < 16 + size then Short
      else Decoded(Section(DecodeU64(s[8..16]), s[16..16 + size]), 16 + size)
  }

  /** The sections as `read_code` reads them from the front of `s`, one per capacity. */
  function DecodeSections(s: seq<byte>, caps: seq<nat>): (r: Decoded<seq<Section>>)
    ensures r.Decoded? ==> |r.value| == |caps| && r.used <= |s|
    ensures !r.Crash?
    decreases |caps|
  {
    if caps == [] then Decoded([], 0)
    else
      var r := DecodeSection(s, caps[0]);
      if r.Decoded? then Prepend([r.value], r.used, DecodeSections(s[r.used..], caps[1..])) else r.Fail()
  }

  lemma AllTail(ss: seq<Section>, caps: seq<nat>)
    requires ss != [] && AllValid(ss) && AllFit(ss, caps)
    ensures AllValid(ss[1..]) && AllFit(ss[1..], caps[1..])
  {
  }

  lemma AllCons(sec: Section, ss: seq<Section>, caps: seq<nat>)
    requires caps != [] && sec.Valid() && sec.Fits(caps[0]) && AllValid(ss) && AllFit(ss, caps[1..])
    ensures AllValid([sec] + ss) && AllFit([sec] + ss, caps)
  {
  }

  /** A section that fits is read back as written, whatever follows it. */
  lemma SectionRoundTrip(sec: Section, t: seq<byte>, cap: nat)
    requires sec.Valid() && sec.Fits(cap)
    ensures DecodeSection(SectionLayout(sec) + t, cap) == Decoded(sec, |SectionLayout(sec)|)
  {
    U64RoundTrip(|sec.code|);
    if |sec.code| > 0 {
      U64RoundTrip(sec.start);
      FieldsOf(U64Bytes(|sec.code|), U64Bytes(sec.start), sec.code, t);
    }
  }

  /** `read_code` reads back what `write_code` wrote, whatever follows it. */
  lemma {:induction false} CodeRoundTrip(ss: seq<Section>, caps: seq<nat>, t: seq<byte>)
    requires AllValid(ss) && AllFit(ss, caps)
    ensures DecodeSections(CodeLayout(ss) + t, caps) == Decoded(ss, |CodeLayout(ss)|)
    decreases |ss|
  {
    if ss != [] {
      var head, tail := SectionLayout(ss[0]), CodeLayout(ss[1..]);
      AppendAssoc(head, tail, t);
      SectionRoundTrip(ss[0], tail + t, caps[0]);
      AllTail(ss, caps);
      CodeRoundTrip(ss[1..], caps[1..], t);
      DecodeSectionsCons(head, tail + t, ss[0], caps);
      assert CodeLayout(ss) == head + tail;
      assert [ss[0]] + ss[1..] == ss;
      calc {
        DecodeSections(CodeLayout(ss) + t, caps);
        DecodeSections(head + (tail + t), caps);
        Prepend([ss[0]], |head|, DecodeSections(tail + t, caps[1..]));
        Prepend([ss[0]], |head|, Decoded(ss[1..], |tail|));
      }
    }
  }

  /** A section read from the front of `head + rest` that consumes exactly `head`. */
  lemma DecodeSectionsCons(head: seq<byte>, rest: seq<byte>, x: Section, caps: seq<nat>)
    requires caps != [] && DecodeSection(head + rest, caps[0]) == Decoded(x, |head|)
    ensures DecodeSections(head + rest, caps) == Prepend([x], |head|, DecodeSections(rest, caps[1..]))
  {
  }

  /**
   * Everything `read_code` accepts is a code block: the bytes it consumed
   * are the layout of the sections it returns, and each fits its capacity.
   */
  lemma {:induction false} DecodedSectionsAreLayout(s: seq<byte>, caps: seq<nat>)
    requires DecodeSections(s, caps).Decoded?
    ensures var p := DecodeSections(s, caps);
      AllValid(p.value) && AllFit(p.value, caps) && s[..p.used] == CodeLayout(p.value)
    decreases |caps|
  {
    if caps != [] {
      var r := DecodeSection(s, caps[0]);
      DecodedSectionIsLayout(s, caps[0]);
      var q := DecodeSections(s[r.used..], caps[1..]);
      DecodedSectionsAreLayout(s[r.used..], caps[1..]);
      AllCons(r.value, q.value, caps);
      var vs := [r.value] + q.value;
      assert vs[0] == r.value && vs[1..] == q.value;
      TakeRest(s, r.used, q.used);
    }
  }

  /** Bytes that decode to a section start with that section's layout. */
  lemma DecodedSectionIsLayout(s: seq<byte>, cap: nat)
    requires DecodeSection(s, cap).Decoded?
    ensures var p := DecodeSection(s, cap);
      && p.value.Valid() && p.value.Fits(cap) && s[..p.used] == SectionLayout(p.value)
  {
    U64BytesOfDecode(s[..8]);
    if DecodeLE(s[..8]) > 0 {
      U64BytesOfDecode(s[8..16]);
      TakeParts(s, 8, 16);
      TakeParts(s, 16, 16 + DecodeLE(s[..8]));
    }
  }

  /** Reading the first of the sections still to read from `s`. */
  lemma DecodeSectionsStep(s: seq<byte>, caps: seq<nat>, r: Decoded<Section>)
    requires caps != [] && r == DecodeSection(s, caps[0])
    ensures r.Decoded? ==> DecodeSections(s, caps) == Prepend([r.value], r.used, DecodeSections(s[r.used..], caps[1..]))
    ensures !r.Decoded? ==> DecodeSections(s, caps) == r.Fail()
  {
  }

  /** One section of `write_code`: size, then (when not empty) start and bytes. */
  method WriteSection(archive: Archive.SCAFile, sec: Section) returns (ok: bool)
    requires archive.ForWrite() && archive.fileOffset <= |archive.data| && sec.Valid()
    modifies archive`data, archive`fileOffset, archive`failed
    ensures ok ==>
      && archive.data == Overwrite(old(archive.data), old(archive.fileOffset), SectionLayout(sec))
      && archive.fileOffset == old(archive.fileOffset) + |SectionLayout(sec)|
      && archive.ForWrite() && archive.fileOffset <= |archive.data|
    ensures !ok ==> archive.failed
  {
    ghost var d0, o0 := archive.data, archive.fileOffset;
    ok := archive.WriteAll(U64Bytes(|sec.code|));
    if !ok || |sec.code| == 0 {
      return;
    }
    ok := archive.WriteAll(U64Bytes(sec.start));
    if !ok {
      return;
    }
    ok := archive.WriteAll(sec.code);
    if !ok {
      return;
    }
    OverwriteAppend(d0, o0, U64Bytes(|sec.code|), U64Bytes(sec.start));
    OverwriteAppend(d0, o0, U64Bytes(|sec.code|) + U64Bytes(sec.start), sec.code);
    assert SectionLayout(sec) == U64Bytes(|sec.code|) + U64Bytes(sec.start) + sec.code;
  }

  /** `write_code`: every section in order; `codeSize` is their total size. */
  method WriteCode(archive: Archive.SCAFile, ss: seq<Section>) returns (ok: bool, codeSize: nat)
    requires archive.ForWrite() && archive.fileOffset <= |archive.data|
    requires |ss| == SECT_LIMIT && AllValid(ss)
    modifies archive`data, archive`fileOffset, archive`failed
    ensures ok ==>
      && archive.data == Overwrite(old(archive.data), old(archive.fileOffset), CodeLayout(ss))
      && archive.fileOffset == old(archive.fileOffset) + |CodeLayout(ss)|
      && archive.ForWrite() && archive.fileOffset <= |archive.data|
      && codeSize == CodeSize(ss)
    ensures !ok ==> archive.failed
  {
    ghost var d0, o0 := archive.data, archive.fileOffset;
    codeSize := 0;
    var i := 0;
    while i < SECT_LIMIT
      invariant 0 <= i <= SECT_LIMIT
      invariant archive.ForWrite() && archive.fileOffset <= |archive.data|
      invariant archive.data == Overwrite(d0, o0, CodeLayout(ss[..i]))
      invariant archive.fileOffset == o0 + |CodeLayout(ss[..i])|
      invariant codeSize == CodeSize(ss[..i])
    {
      ghost var d1 := archive.data;
      ok := WriteSection(archive, ss[i]);
      if !ok {
        return;
      }
      codeSize := codeSize + |ss[i].code|;
      CodeLayoutSnoc(ss, i);
      OverwriteAppend(d0, o0, CodeLayout(ss[..i]), SectionLayout(ss[i]));
      i := i + 1;
    }
    assert ss[..SECT_LIMIT] == ss;
    ok := true;
  }

  /** One section of `read_code`. */
  method ReadSection(archive: Archive.SCAFile, cap: nat) returns (r: Decoded<Section>)
    requires archive.ForRead()
    modifies archive`fileOffset, archive`failed
    ensures r == DecodeSection(Rest(archive.data, old(archive.fileOffset)), cap)
    ensures r.Decoded? ==> archive.ForRead() && archive.fileOffset == old(archive.fileOffset) + r.used
    ensures r.Short? ==> archive.failed
    ensures r.Refused? ==> archive.ForRead()
  {
    ghost var d, o := archive.data, archive.fileOffset;
    ghost var s := Rest(d, o);
    TakeAtRest(d, o, 8);
    var ok, w := archive.ReadExactly(8);
    if !ok {
      return Short;
    }
    var size := DecodeLE(w);
    if size > cap {
      return Refused;
    }
    if size == 0 {
      return Decoded(Section(0, []), 8);
    }
    TakeAtRest(d, o + 8, 8);
    var a;
    ok, a := archive.ReadExactly(8);
    if !ok {
      return Short;
    }
    TakeAtRest(d, o + 16, size);
    var code;
    ok, code := archive.ReadExactly(size);
    if !ok {
      return Short;
    }
    assert a == s[8..16] && code == s[16..16 + size];
    r := Decoded(Section(DecodeU64(a), code), 16 + size);
  }

  /**
   * `read_code`: every section in order, each against its capacity. A
   * section too large for its capacity makes it return false without
   * marking the archive failed; a short read marks it failed.
   */
  method ReadCode(archive: Archive.SCAFile, caps: seq<nat>) returns (ok: bool, ss: seq<Section>)
    requires archive.ForRead() && |caps| == SECT_LIMIT
    modifies archive`fileOffset, archive`failed
    ensures var p := DecodeSections(Rest(archive.data, old(archive.fileOffset)), caps);
      && ok == p.Decoded?
      && (ok ==> ss == p.value && archive.ForRead() && archive.fileOffset == old(archive.fileOffset) + p.used)
      && (p.Short? ==> archive.failed)
      && (p.Refused? ==> archive.ForRead())
  {
    ghost var d, o0 := archive.data, archive.fileOffset;
    ghost var whole := DecodeSections(Rest(d, o0), caps);
    ghost var used: nat, rest, todo := 0, Rest(d, o0), caps;
    PrependNothing(whole);
    ss := [];
    var i := 0;
    while i < SECT_LIMIT
      invariant 0 <= i <= SECT_LIMIT && archive.data == d
      invariant archive.ForRead() && archive.fileOffset == o0 + used
      invariant rest == Rest(d, o0 + used) && todo == caps[i..]
      invariant whole == Prepend(ss, used, DecodeSections(rest, todo))
    {
      var r := ReadSection(archive, caps[i]);
      DecodeSectionsStep(rest, todo, r);
      if !r.Decoded? {
        return false, [];
      }
      PrependPrepend(ss, used, [r.value], r.used, DecodeSections(rest[r.used..], todo[1..]));
      RestRest(d, o0 + used, r.used);
      ss, used, rest, todo := ss + [r.value], used + r.used, rest[r.used..], todo[1..];
      i := i + 1;
    }
    assert ss + [] == ss;
    ok := true;
  }
}
