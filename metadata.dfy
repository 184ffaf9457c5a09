/**
 * The metadata block of a stored nmethod: `SCAFile::write_metadata` and
 * `SCAFile::read_metadata` (SCArchive.cpp). The block holds the number of
 * metadata entries of the `OopRecorder` as an `int`, then one record per
 * entry: the kind `-1` for an entry that is not real or not a `Method*`,
 * or the kind `1`, the lengths of the holder's class name, the method
 * name and the signature as three `int`s, and the text
 * `holder ' ' name ' ' signature NUL`.
 *
 * The reader skips records of a negative kind, reads nothing more for a
 * kind other than `1`, and looks a `Method*` record up by its three
 * names. The lookups (`SymbolTable::probe`,
 * `SystemDictionary::find_instance_or_array_klass`,
 * `InstanceKlass::find_method`) are given as a `Resolver`; what
 * `oop_recorder->find_index` records is returned as the sequence of the
 * methods found.
 */
module Metadata {
  import opened Bytes
  import opened Wrappers
  import opened FileImage
  import Archive

  /** The kind of a `Method*` record. */
  const METHOD_KIND: i32 := 1
  /** The kind written for an entry with no data. */
  const NO_DATA: i32 := -1
  /** The separator between the names of a `Method*` record. */
  const SPACE: byte := 0x20
  /** `Symbol::max_length()`: no symbol is longer. */
  const MAX_SYMBOL_LENGTH: nat := 0xFFFF

  /** A class as `find_instance_or_array_klass` finds it. */
  type KlassId = nat
  /** A `Method*` as `find_method` finds it. */
  type MethodId = nat

  /** One metadata entry of the `OopRecorder`, as `write_metadata` sees it. */
  datatype Item =
    | NotReal                                                          // `!is_real(m)`
    | MethodItem(holder: seq<byte>, name: seq<byte>, signature: seq<byte>)  // a `Method*`, by its symbols
    | Unsupported                                                      // any other metadata
  {
    /** The names are symbols, so none is longer than a symbol can be. */
    predicate Valid()
    {
      MethodItem? ==>
        |holder| <= MAX_SYMBOL_LENGTH && |name| <= MAX_SYMBOL_LENGTH && |signature| <= MAX_SYMBOL_LENGTH
    }
  }

  /** The entries fit the `int` count and are all valid. */
  predicate AllValid(ms: seq<Item>)
  {
    |ms| < 0x8000_0000 && forall i :: 0 <= i < |ms| ==> ms[i].Valid()
  }

  // ---------------------------------------------------------------------
  // Writing.

  /** The text of a `Method*` record: `holder ' ' name ' ' signature NUL`. */
  function MethodText(holder: seq<byte>, name: seq<byte>, signature: seq<byte>): (r: seq<byte>)
    ensures |r| == |holder| + |name| + |signature| + 3
  {
    holder + [SPACE] + name + [SPACE] + signature + [0]
  }

  /** The bytes `write_metadata` emits for one entry. */
  function ItemLayout(m: Item): (r: seq<byte>)
    requires m.Valid()
    ensures |r| == if m.MethodItem? then 16 + |m.holder| + |m.name| + |m.signature| + 3 else 4
  {
    match m
    case MethodItem(h, n, g) =>
      I32Bytes(METHOD_KIND) + I32Bytes(|h|) + I32Bytes(|n|) + I32Bytes(|g|) + MethodText(h, n, g)
    case _ => I32Bytes(NO_DATA)
  }

  /** The bytes `write_metadata` emits for the entries, in order. */
  function ItemsLayout(ms: seq<Item>): seq<byte>
    requires forall i :: 0 <= i < |ms| ==> ms[i].Valid()
  {
    if ms == [] then [] else ItemLayout(ms[0]) + ItemsLayout(ms[1..])
  }

  /** The whole block: the count, then the records. */
  function MetadataLayout(ms: seq<Item>): seq<byte>
    requires AllValid(ms)
  {
    I32Bytes(|ms|) + ItemsLayout(ms)
  }

  // ---------------------------------------------------------------------
  // Looking a method up.

  /** The lookups `read_metadata` makes in the running VM. */
  datatype Resolver = Resolver(
    symbols: set<seq<byte>>,                               // the symbols `SymbolTable::probe` finds
    classes: map<seq<byte>, KlassId>,                      // the classes the compiled method's loader finds
    methods: map<(KlassId, seq<byte>, seq<byte>), MethodId>) // `find_method` of each class, by name and signature
  {
    /** `SymbolTable::probe` returns a symbol. */
    predicate Probe(s: seq<byte>) { s in symbols }

    /** `SystemDictionary::find_instance_or_array_klass`. */
    function FindClass(s: seq<byte>): Option<KlassId> { if s in classes then Some(classes[s]) else None }

    /** `InstanceKlass::find_method`. */
    function FindMethod(k: KlassId, n: seq<byte>, g: seq<byte>): Option<MethodId>
    {
      if (k, n, g) in methods then Some(methods[(k, n, g)]) else None
    }
  }

  /** What the lookup of one `Method*` record ends in. */
  datatype Resolution =
    | Recorded(m: Option<MethodId>) // `find_index(m)`; `m` may be null
    | Rejected                      // `read_metadata` returns false
    | NullDereference               // `find_method` called on a null class

  /**
   * The lookup of `read_metadata`, with the null check on the class made
   * before `find_method` is called on it: the method is recorded exactly
   * when the three symbols exist and the class is found.
   */
  function Resolve(res: Resolver, holder: seq<byte>, name: seq<byte>, signature: seq<byte>): (r: Resolution)
    ensures r.Recorded? <==>
      res.Probe(holder) && res.Probe(name) && res.Probe(signature) && res.FindClass(holder).Some?
    ensures r.Recorded? ==> r.m == res.FindMethod(res.FindClass(holder).value, name, signature)
    ensures !r.NullDereference?
  {
    if !res.Probe(holder) then Rejected
    else
      var k := res.FindClass(holder);
      if !res.Probe(name) || !res.Probe(signature) then Rejected
      else if k.None? then Rejected
      else Recorded(res.FindMethod(k.value, name, signature))
  }

  /**
   * The lookup as written: `InstanceKlass::cast(k)->find_method` comes
   * before the test of `k`, so a class that is not found is dereferenced.
   */
  function ResolveAsWritten(res: Resolver, holder: seq<byte>, name: seq<byte>, signature: seq<byte>): Resolution
  {
    if !res.Probe(holder) then Rejected
    else
      var k := res.FindClass(holder);
      if !res.Probe(name) || !res.Probe(signature) then Rejected
      else if k.None? then NullDereference
      else Recorded(res.FindMethod(k.value, name, signature))
  }

  /**
   * A record whose symbols all exist but whose class the loader does not
   * find: as written the reader dereferences the null class, while with
   * the check first it returns false; on every other record the two agree.
   */
  lemma MissingClassAsWritten(res: Resolver, holder: seq<byte>, name: seq<byte>, signature: seq<byte>)
    ensures var w, c := ResolveAsWritten(res, holder, name, signature), Resolve(res, holder, name, signature);
      && (w.NullDereference? <==>
            res.Probe(holder) && res.Probe(name) && res.Probe(signature) && res.FindClass(holder).None?)
      && (w.NullDereference? ==> c.Rejected?)
      && (!w.NullDereference? ==> w == c)
  {
  }

  /** The entry is no `Method*`, or one the lookup records. */
  predicate Resolvable(res: Resolver, m: Item)
  {
    m.MethodItem? ==> Resolve(res, m.holder, m.name, m.signature).Recorded?
  }

  predicate AllResolvable(res: Resolver, ms: seq<Item>)
  {
    forall i :: 0 <= i < |ms| ==> Resolvable(res, ms[i])
  }

  /** What `find_index` records for the entries, in order: one method per `Method*` entry. */
  function Methods(res: Resolver, ms: seq<Item>): (r: seq<Option<MethodId>>)
    requires AllResolvable(res, ms)
  {
    if ms == [] then []
    else
      var m := ms[0];
      (if m.MethodItem? then [Resolve(res, m.holder, m.name, m.signature).m] else []) + Methods(res, ms[1..])
  }

  // ---------------------------------------------------------------------
  // Reading.

  /**
   * The text of a `Method*` record with lengths `h`, `n` and `g`, read
   * from the front of `s`. The total is computed as an `int` and read as
   * a `size_t`; a negative length, or a total that wrapped around, makes
   * the reader index its buffer outside its bounds.
   */
  function DecodeMethodText(s: seq<byte>, h: i32, n: i32, g: i32, res: Resolver): (r: Decoded<seq<Option<MethodId>>>)
    ensures r.Decoded? ==> r.used <= |s| && |r.value| == 1
  {
    var total := Int32Of(h + 1 + n + 1 + g + 1);
    var size := U64Of(total);
    if size != 0 && (size >= U32_MODULUS || |s| < size) then Short
    else if h < 0 || n < 0 || g < 0 || total != h + n + g + 3 then Crash
    else
      match Resolve(res, s[..h], s[h + 1..h + 1 + n], s[h + n + 2..h + n + 2 + g])
      case Recorded(m) => Decoded([m], total)
      case Rejected => Refused
      case NullDereference => Crash
  }

  /** One record as `read_metadata` reads it from the front of `s`. */
  function DecodeItem(s: seq<byte>, res: Resolver): (r: Decoded<seq<Option<MethodId>>>)
    ensures r.Decoded? ==> r.used <= |s|
  {
    if |s| < 4 then Short
    else if DecodeI32(s[..4]) != METHOD_KIND then Decoded([], 4)
    else if |s| < 16 then Short
    else After(16, DecodeMethodText(s[16..], DecodeI32(s[4..8]), DecodeI32(s[8..12]), DecodeI32(s[12..16]), res))
  }

  /** `n` records, in order, from the front of `s`. */
  function DecodeItems(s: seq<byte>, res: Resolver, n: nat): (r: Decoded<seq<Option<MethodId>>>)
    ensures r.Decoded? ==> r.used <= |s|
    decreases n, 1
  {
    if n == 0 then Decoded([], 0) else ItemThenItems(s, res, n)
  }

  /** One record from the front of `s`, then the `n - 1` after it. */
  function ItemThenItems(s: seq<byte>, res: Resolver, n: nat): (r: Decoded<seq<Option<MethodId>>>)
    requires n > 0
    ensures r.Decoded? ==> r.used <= |s|
    decreases n, 0
  {
    var r := DecodeItem(s, res);
    if r.Decoded? then Prepend(r.value, r.used, DecodeItems(s[r.used..], res, n - 1))
    else r.Fail()
  }

  /** The block as `read_metadata` reads it: a count that is not positive means no records. */
  function DecodeMetadata(s: seq<byte>, res: Resolver): (r: Decoded<seq<Option<MethodId>>>)
    ensures r.Decoded? ==> r.used <= |s|
  {
    if |s| < 4 then Short
    else
      var count := DecodeI32(s[..4]);
      if count <= 0 then Decoded([], 4)
      else After(4, DecodeItems(s[4..], res, count))
  }

  // ---------------------------------------------------------------------
  // Round trip.

  /** The text of a record gives back the three names it was made of. */
  lemma MethodTextParts(h: seq<byte>, n: seq<byte>, g: seq<byte>, t: seq<byte>)
    ensures var s := MethodText(h, n, g) + t;
      s[..|h|] == h && s[|h| + 1..|h| + 1 + |n|] == n && s[|h| + |n| + 2..|h| + |n| + 2 + |g|] == g
  {
    var s := MethodText(h, n, g) + t;
    assert s == h + ([SPACE] + n + [SPACE] + g + [0] + t);
    assert s[|h| + 1..] == n + ([SPACE] + g + [0] + t);
    assert s[|h| + |n| + 2..] == g + ([0] + t);
  }

  /** The text of a `Method*` record, read back with its own lengths. */
  lemma MethodTextRoundTrip(h: seq<byte>, n: seq<byte>, g: seq<byte>, t: seq<byte>, res: Resolver)
    requires |h| <= MAX_SYMBOL_LENGTH && |n| <= MAX_SYMBOL_LENGTH && |g| <= MAX_SYMBOL_LENGTH
    ensures var r, c := DecodeMethodText(MethodText(h, n, g) + t, |h|, |n|, |g|, res), Resolve(res, h, n, g);
      && (c.Recorded? ==> r == Decoded([c.m], |MethodText(h, n, g)|))
      && (c.Rejected? ==> r == Refused)
  {
    MethodTextParts(h, n, g, t);
    Int32OfSmall(|h| + 1 + |n| + 1 + |g| + 1);
  }

  /** A `Method*` record made of the kind `a`, the lengths `b`, `c` and `e` and the text, read by position. */
  lemma MethodRecordFields(a: seq<byte>, b: seq<byte>, c: seq<byte>, e: seq<byte>, text: seq<byte>, t: seq<byte>,
                           res: Resolver)
    requires |a| == 4 && |b| == 4 && |c| == 4 && |e| == 4 && DecodeI32(a) == METHOD_KIND
    ensures DecodeItem(a + b + c + e + text + t, res)
            == After(16, DecodeMethodText(text + t, DecodeI32(b), DecodeI32(c), DecodeI32(e), res))
  {
    Fields4Of(a, b, c, e, text + t);
    AppendAssoc(a + b + c + e, text, t);
  }

  /** A `Method*` record, read back: the method the lookup records, or a refusal. */
  lemma MethodItemRoundTrip(h: seq<byte>, n: seq<byte>, g: seq<byte>, t: seq<byte>, res: Resolver)
    requires MethodItem(h, n, g).Valid()
    ensures var r, c := DecodeItem(ItemLayout(MethodItem(h, n, g)) + t, res), Resolve(res, h, n, g);
      && (c.Recorded? ==> r == Decoded([c.m], |ItemLayout(MethodItem(h, n, g))|))
      && (c.Rejected? ==> r == Refused)
  {
    I32RoundTrip(METHOD_KIND);
    I32RoundTrip(|h|);
    I32RoundTrip(|n|);
    I32RoundTrip(|g|);
    MethodRecordFields(I32Bytes(METHOD_KIND), I32Bytes(|h|), I32Bytes(|n|), I32Bytes(|g|), MethodText(h, n, g), t, res);
    MethodTextRoundTrip(h, n, g, t, res);
  }

  /** One record, read back: its method when the lookup records it, a refusal when not. */
  lemma ItemRoundTrip(m: Item, t: seq<byte>, res: Resolver)
    requires m.Valid()
    ensures var r := DecodeItem(ItemLayout(m) + t, res);
      && (Resolvable(res, m) ==> r == Decoded(Methods(res, [m]), |ItemLayout(m)|))
      && (!Resolvable(res, m) ==> r == Refused)
  {
    if m.MethodItem? {
      var h, n, g := m.holder, m.name, m.signature;
      assert m == MethodItem(h, n, g);
      MethodItemRoundTrip(h, n, g, t, res);
      if Resolvable(res, m) {
        assert Methods(res, [m]) == [Resolve(res, h, n, g).m] + Methods(res, []);
        assert Methods(res, [m]) == [Resolve(res, h, n, g).m];
      }
    } else {
      I32RoundTrip(NO_DATA);
      assert (ItemLayout(m) + t)[..4] == I32Bytes(NO_DATA);
      assert Methods(res, [m]) == [] + Methods(res, []) == [];
    }
  }

  /** Reading a record that the lookup records, then the rest. */
  lemma DecodeItemsCons(head: seq<byte>, tail: seq<byte>, t: seq<byte>, x: seq<Option<MethodId>>, res: Resolver, n: nat)
    requires n > 0 && DecodeItem(head + (tail + t), res) == Decoded(x, |head|)
    ensures DecodeItems(head + tail + t, res, n) == Prepend(x, |head|, DecodeItems(tail + t, res, n - 1))
  {
    AppendAssoc(head, tail, t);
    assert (head + (tail + t))[|head|..] == tail + t;
    assert DecodeItems(head + tail + t, res, n) == ItemThenItems(head + tail + t, res, n);
  }

  /** The methods of the entries: those of the first, then those of the others. */
  lemma MethodsCons(res: Resolver, ms: seq<Item>)
    requires ms != [] && AllResolvable(res, ms)
    ensures AllResolvable(res, [ms[0]]) && AllResolvable(res, ms[1..])
    ensures Methods(res, ms) == Methods(res, [ms[0]]) + Methods(res, ms[1..])
  {
    var m := ms[0];
    var first := if m.MethodItem? then [Resolve(res, m.holder, m.name, m.signature).m] else [];
    assert forall i :: 0 <= i < |ms[1..]| ==> ms[1..][i] == ms[i + 1];
    assert [m][1..] == [];
    assert Methods(res, [m]) == first + Methods(res, []) == first;
    assert Methods(res, ms) == first + Methods(res, ms[1..]);
  }

  /**
   * The records of the entries, followed by `t`, read back: their methods
   * when every lookup records one, a refusal at the first one that does not.
   */
  predicate ItemsReadBack(ms: seq<Item>, t: seq<byte>, res: Resolver)
    requires forall i :: 0 <= i < |ms| ==> ms[i].Valid()
  {
    var r := DecodeItems(ItemsLayout(ms) + t, res, |ms|);
    && (AllResolvable(res, ms) ==> r == Decoded(Methods(res, ms), |ItemsLayout(ms)|))
    && (!AllResolvable(res, ms) ==> r == Refused)
  }

  lemma {:induction false} ItemsRoundTrip(ms: seq<Item>, t: seq<byte>, res: Resolver)
    requires forall i :: 0 <= i < |ms| ==> ms[i].Valid()
    ensures ItemsReadBack(ms, t, res)
  {
    if ms == [] {
      assert ItemsLayout(ms) + t == t;
    } else {
      ItemsRoundTrip(ms[1..], t, res);
      if Resolvable(res, ms[0]) {
        ItemsRoundTripRecorded(ms, t, res);
      } else {
        ItemsRoundTripRefused(ms, t, res);
      }
    }
  }

  /** The inductive step of `ItemsRoundTrip` when the first entry's lookup succeeds. */
  lemma ItemsRoundTripRecorded(ms: seq<Item>, t: seq<byte>, res: Resolver)
    requires ms != [] && (forall i :: 0 <= i < |ms| ==> ms[i].Valid()) && Resolvable(res, ms[0])
    requires ItemsReadBack(ms[1..], t, res)
    ensures ItemsReadBack(ms, t, res)
  {
    var head, tail := ItemLayout(ms[0]), ItemsLayout(ms[1..]);
    assert ItemsLayout(ms) == head + tail;
    ItemRoundTrip(ms[0], tail + t, res);
    var x := Methods(res, [ms[0]]);
    DecodeItemsCons(head, tail, t, x, res, |ms|);
    if AllResolvable(res, ms) {
      MethodsCons(res, ms);
    } else {
      var i :| 0 <= i < |ms| && !Resolvable(res, ms[i]);
      assert ms[1..][i - 1] == ms[i];
    }
  }

  /** The inductive step of `ItemsRoundTrip` when the first entry's lookup fails. */
  lemma ItemsRoundTripRefused(ms: seq<Item>, t: seq<byte>, res: Resolver)
    requires ms != [] && (forall i :: 0 <= i < |ms| ==> ms[i].Valid()) && !Resolvable(res, ms[0])
    ensures ItemsReadBack(ms, t, res)
  {
    var head, tail := ItemLayout(ms[0]), ItemsLayout(ms[1..]);
    assert ItemsLayout(ms) == head + tail;
    ItemRoundTrip(ms[0], tail + t, res);
    AppendAssoc(head, tail, t);
    assert DecodeItem(ItemsLayout(ms) + t, res) == Refused;
  }

  /**
   * The block `write_metadata` emits, read back by `read_metadata`: what
   * `find_index` records is one method per `Method*` entry, in order, when
   * every lookup succeeds; otherwise the reader returns false.
   */
  lemma MetadataRoundTrip(ms: seq<Item>, t: seq<byte>, res: Resolver)
    requires AllValid(ms)
    ensures var r := DecodeMetadata(MetadataLayout(ms) + t, res);
      && (AllResolvable(res, ms) ==> r == Decoded(Methods(res, ms), |MetadataLayout(ms)|))
      && (!AllResolvable(res, ms) ==> r == Refused)
  {
    var c, body := I32Bytes(|ms|), ItemsLayout(ms);
    I32RoundTrip(|ms|);
    Fields3Of(c, body, t);
    AppendAssoc(c, body, t);
    assert (c + body + t)[4..] == body + t;
    ItemsRoundTrip(ms, t, res);
    if ms == [] {
      assert Methods(res, ms) == [];
    }
  }

  // ---------------------------------------------------------------------
  // The archive methods.

  /** `Symbol::as_C_string(dest + at, size)`: the symbol's bytes and a NUL from position `at`. */
  method CopySymbol(dest: array<byte>, at: nat, sym: seq<byte>)
    requires at + |sym| < dest.Length
    modifies dest
    ensures forall i :: 0 <= i < dest.Length ==>
      dest[i] == if at <= i < at + |sym| then sym[i - at] else if i == at + |sym| then 0 else old(dest[i])
  {
    var j := 0;
    while j < |sym|
      invariant 0 <= j <= |sym|
      invariant forall i :: 0 <= i < dest.Length ==>
        dest[i] == if at <= i < at + j then sym[i - at] else old(dest[i])
    {
      dest[at + j] := sym[j];
      j := j + 1;
    }
    dest[at + |sym|] := 0;
  }

  /**
   * The text of a `Method*` record as `write_metadata` builds it in place:
   * each name copied as a C string, the NUL after the holder and after the
   * name overwritten by a space, and a final NUL.
   */
  method BuildMethodText(holder: seq<byte>, name: seq<byte>, signature: seq<byte>) returns (dest: array<byte>)
    ensures fresh(dest) && dest[..] == MethodText(holder, name, signature)
  {
    var total := |holder| + 1 + |name| + 1 + |signature| + 1;
    dest := new byte[total];
    CopySymbol(dest, 0, holder);
    dest[|holder|] := SPACE;
    var pos := |holder| + 1;
    CopySymbol(dest, pos, name);
    pos := pos + |name|;
    dest[pos] := SPACE;
    pos := pos + 1;
    CopySymbol(dest, pos, signature);
    dest[total - 1] := 0;
    ghost var text := MethodText(holder, name, signature);
    forall i | 0 <= i < total
      ensures dest[i] == text[i]
    {
      MethodTextAt(holder, name, signature, i);
    }
  }

  /** Byte `i` of the text of a `Method*` record. */
  lemma MethodTextAt(h: seq<byte>, n: seq<byte>, g: seq<byte>, i: nat)
    requires i < |h| + |n| + |g| + 3
    ensures MethodText(h, n, g)[i] ==
      if i < |h| then h[i]
      else if i == |h| then SPACE
      else if i < |h| + 1 + |n| then n[i - |h| - 1]
      else if i == |h| + 1 + |n| then SPACE
      else if i < |h| + 2 + |n| + |g| then g[i - |h| - |n| - 2]
      else 0
  {
  }

  /** One record of `write_metadata`. */
  method WriteItem(archive: Archive.SCAFile, m: Item) returns (ok: bool)
    requires archive.ForWrite() && archive.fileOffset <= |archive.data| && m.Valid()
    modifies archive`data, archive`fileOffset, archive`failed
    ensures ok ==>
      && archive.data == Overwrite(old(archive.data), old(archive.fileOffset), ItemLayout(m))
      && archive.fileOffset == old(archive.fileOffset) + |ItemLayout(m)|
      && archive.ForWrite() && archive.fileOffset <= |archive.data|
    ensures !ok ==> archive.failed
  {
    if !m.MethodItem? {
      ok := archive.WriteAll(I32Bytes(NO_DATA));
      return;
    }
    ghost var d0, o0 := archive.data, archive.fileOffset;
    var h, n, g := m.holder, m.name, m.signature;
    var dest := BuildMethodText(h, n, g);
    var a, b, c, e := I32Bytes(METHOD_KIND), I32Bytes(|h|), I32Bytes(|n|), I32Bytes(|g|);
    ok := archive.WriteAll(a);
    if !ok {
      return;
    }
    ok := archive.WriteAll(b);
    if !ok {
      return;
    }
    OverwriteAppend(d0, o0, a, b);
    ok := archive.WriteAll(c);
    if !ok {
      return;
    }
    OverwriteAppend(d0, o0, a + b, c);
    ok := archive.WriteAll(e);
    if !ok {
      return;
    }
    OverwriteAppend(d0, o0, a + b + c, e);
    ok := archive.WriteAll(dest[..]);
    if !ok {
      return;
    }
    OverwriteAppend(d0, o0, a + b + c + e, dest[..]);
  }

  lemma {:induction false} ItemsLayoutAppend(a: seq<Item>, b: seq<Item>)
    requires forall i :: 0 <= i < |a| ==> a[i].Valid()
    requires forall i :: 0 <= i < |b| ==> b[i].Valid()
    ensures forall i :: 0 <= i < |a + b| ==> (a + b)[i].Valid()
    ensures ItemsLayout(a + b) == ItemsLayout(a) + ItemsLayout(b)
  {
    if a == [] {
      assert a + b == b;
    } else {
      assert (a + b)[1..] == a[1..] + b;
      ItemsLayoutAppend(a[1..], b);
      AppendAssoc(ItemLayout(a[0]), ItemsLayout(a[1..]), ItemsLayout(b));
    }
  }

  /** The records of the first `i + 1` entries: those of the first `i`, then entry `i`'s. */
  lemma ItemsLayoutSnoc(ms: seq<Item>, i: nat)
    requires i < |ms| && forall k :: 0 <= k < |ms| ==> ms[k].Valid()
    ensures ItemsLayout(ms[..i + 1]) == ItemsLayout(ms[..i]) + ItemLayout(ms[i])
  {
    assert ms[..i + 1] == ms[..i] + [ms[i]];
    ItemsLayoutAppend(ms[..i], [ms[i]]);
    assert ItemsLayout([ms[i]]) == ItemLayout(ms[i]) + ItemsLayout([]);
  }

  /** `write_metadata`: the count, then one record per entry in order. */
  method WriteMetadata(archive: Archive.SCAFile, ms: seq<Item>) returns (ok: bool)
    requires archive.ForWrite() && archive.fileOffset <= |archive.data| && AllValid(ms)
    modifies archive`data, archive`fileOffset, archive`failed
    ensures ok ==>
      && archive.data == Overwrite(old(archive.data), old(archive.fileOffset), MetadataLayout(ms))
      && archive.fileOffset == old(archive.fileOffset) + |MetadataLayout(ms)|
      && archive.ForWrite() && archive.fileOffset <= |archive.data|
    ensures !ok ==> archive.failed
  {
    ghost var d0, o0 := archive.data, archive.fileOffset;
    var count := I32Bytes(|ms|);
    ok := archive.WriteAll(count);
    if !ok {
      return;
    }
    var i := 0;
    while i < |ms|
      invariant 0 <= i <= |ms|
      invariant archive.ForWrite() && archive.fileOffset <= |archive.data|
      invariant archive.data == Overwrite(d0, o0, count + ItemsLayout(ms[..i]))
      invariant archive.fileOffset == o0 + |count + ItemsLayout(ms[..i])|
    {
      ok := WriteItem(archive, ms[i]);
      if !ok {
        return;
      }
      ItemsLayoutSnoc(ms, i);
      OverwriteAppend(d0, o0, count + ItemsLayout(ms[..i]), ItemLayout(ms[i]));
      AppendAssoc(count, ItemsLayout(ms[..i]), ItemLayout(ms[i]));
      i := i + 1;
    }
    assert ms[..i] == ms;
    ok := true;
  }

  /** The text of a `Method*` record of `read_metadata`, then the lookup of its names. */
  method ReadMethodText(archive: Archive.SCAFile, h: i32, n: i32, g: i32, res: Resolver)
    returns (r: Decoded<seq<Option<MethodId>>>)
    requires archive.ForRead()
    modifies archive`fileOffset, archive`failed
    ensures r == DecodeMethodText(Rest(archive.data, old(archive.fileOffset)), h, n, g, res)
    ensures r.Decoded? ==> archive.ForRead() && archive.fileOffset == old(archive.fileOffset) + r.used
    ensures r.Short? ==> archive.failed
    ensures r.Refused? ==> archive.ForRead()
  {
    ghost var d, o := archive.data, archive.fileOffset;
    var total := Int32Of(h + 1 + n + 1 + g + 1);
    var size := U64Of(total);
    TakeAtRest(d, o, size);
    var ok, dest := archive.ReadExactly(size);
    if !ok {
      return Short;
    }
    if h < 0 || n < 0 || g < 0 || total != h + n + g + 3 {
      return Crash;
    }
    ghost var s := Rest(d, o);
    assert dest == s[..size];
    var holder, name, signature := dest[..h], dest[h + 1..h + 1 + n], dest[h + n + 2..h + n + 2 + g];
    assert holder == s[..h] && name == s[h + 1..h + 1 + n] && signature == s[h + n + 2..h + n + 2 + g];
    if !res.Probe(holder) {
      return Refused;
    }
    var k := res.FindClass(holder);
    var nameFound, signatureFound := res.Probe(name), res.Probe(signature);
    if !nameFound || !signatureFound {
      return Refused;
    }
    if k.None? {
      return Refused;
    }
    var m := res.FindMethod(k.value, name, signature);
    r := Decoded([m], total);
  }

  /** One record of `read_metadata`. */
  method ReadItem(archive: Archive.SCAFile, res: Resolver) returns (r: Decoded<seq<Option<MethodId>>>)
    requires archive.ForRead()
    modifies archive`fileOffset, archive`failed
    ensures r == DecodeItem(Rest(archive.data, old(archive.fileOffset)), res)
    ensures r.Decoded? ==> archive.ForRead() && archive.fileOffset == old(archive.fileOffset) + r.used
    ensures r.Short? ==> archive.failed
    ensures r.Refused? ==> archive.ForRead()
  {
    ghost var d, o := archive.data, archive.fileOffset;
    ghost var s := Rest(d, o);
    TakeAtRest(d, o, 4);
    var ok, kb := archive.ReadExactly(4);
    if !ok {
      return Short;
    }
    if DecodeI32(kb) != METHOD_KIND {
      // A negative kind is not supported yet; other kinds carry nothing.
      return Decoded([], 4);
    }
    TakeAtRest(d, o + 4, 4);
    var hb;
    ok, hb := archive.ReadExactly(4);
    if !ok {
      return Short;
    }
    TakeAtRest(d, o + 8, 4);
    var nb;
    ok, nb := archive.ReadExactly(4);
    if !ok {
      return Short;
    }
    TakeAtRest(d, o + 12, 4);
    var gb;
    ok, gb := archive.ReadExactly(4);
    if !ok {
      return Short;
    }
    assert hb == s[4..8] && nb == s[8..12] && gb == s[12..16];
    ghost var rest := Rest(archive.data, archive.fileOffset);
    assert rest == s[16..];
    var text := ReadMethodText(archive, DecodeI32(hb), DecodeI32(nb), DecodeI32(gb), res);
    r := After(16, text);
  }

  /**
   * One more record read: if `whole` is what is read from the records
   * `acc` already read (taking `used` bytes) and the `n` still to read
   * from `rest`, the rest of the image after `used` bytes, then it is also
   * what is read after the next record `x`.
   */
  lemma DecodeItemsStep(d: seq<byte>, o0: nat, used: nat, rest: seq<byte>, whole: Decoded<seq<Option<MethodId>>>,
                        acc: seq<Option<MethodId>>, res: Resolver, n: nat, x: Decoded<seq<Option<MethodId>>>)
    requires n > 0 && rest == Rest(d, o0 + used) && x == DecodeItem(rest, res)
    requires whole == Prepend(acc, used, DecodeItems(rest, res, n))
    ensures x.Decoded? ==>
      && rest[x.used..] == Rest(d, o0 + (used + x.used))
      && whole == Prepend(acc + x.value, used + x.used, DecodeItems(rest[x.used..], res, n - 1))
    ensures !x.Decoded? ==> whole == x.Fail()
  {
    if x.Decoded? {
      var next := DecodeItems(rest[x.used..], res, n - 1);
      assert DecodeItems(rest, res, n) == ItemThenItems(rest, res, n) == Prepend(x.value, x.used, next);
      RestRest(d, o0 + used, x.used);
      PrependPrepend(acc, used, x.value, x.used, next);
    } else {
      assert DecodeItems(rest, res, n) == ItemThenItems(rest, res, n) == x.Fail();
    }
  }

  /**
   * The next record of `read_metadata`: if `whole` is what is read from
   * the records `acc` already read (taking `used` bytes) and the `left`
   * still to read from `rest`, it is also what is read after this one.
   */
  method ReadNextItem(archive: Archive.SCAFile, res: Resolver, left: nat, ghost o0: nat, ghost used: nat,
                      ghost rest: seq<byte>, ghost whole: Decoded<seq<Option<MethodId>>>,
                      ghost acc: seq<Option<MethodId>>)
    returns (x: Decoded<seq<Option<MethodId>>>)
    requires archive.ForRead() && left > 0 && archive.fileOffset == o0 + used
    requires rest == Rest(archive.data, o0 + used)
    requires whole == Prepend(acc, used, DecodeItems(rest, res, left))
    modifies archive`fileOffset, archive`failed
    ensures x.Decoded? ==>
      && archive.ForRead() && archive.fileOffset == o0 + (used + x.used)
      && x.used <= |rest| && rest[x.used..] == Rest(archive.data, o0 + (used + x.used))
      && whole == Prepend(acc + x.value, used + x.used, DecodeItems(rest[x.used..], res, left - 1))
    ensures !x.Decoded? ==> whole == x.Fail()
    ensures x.Short? ==> archive.failed
    ensures x.Refused? ==> archive.ForRead()
  {
    x := ReadItem(archive, res);
    DecodeItemsStep(archive.data, o0, used, rest, whole, acc, res, left, x);
  }

  /** `count` records of `read_metadata`, each looked up in turn. */
  method ReadItems(archive: Archive.SCAFile, res: Resolver, count: nat) returns (r: Decoded<seq<Option<MethodId>>>)
    requires archive.ForRead()
    modifies archive`fileOffset, archive`failed
    ensures r == DecodeItems(Rest(archive.data, old(archive.fileOffset)), res, count)
    ensures r.Decoded? ==> archive.ForRead() && archive.fileOffset == old(archive.fileOffset) + r.used
    ensures r.Short? ==> archive.failed
    ensures r.Refused? ==> archive.ForRead()
  {
    ghost var d, o0 := archive.data, archive.fileOffset;
    ghost var whole := DecodeItems(Rest(d, o0), res, count);
    ghost var rest := Rest(d, o0);
    PrependNothing(whole);
    var found: seq<Option<MethodId>>, used: nat := [], 0;
    var left := count;
    while left > 0
      invariant archive.data == d
      invariant archive.ForRead() && archive.fileOffset == o0 + used
      invariant rest == Rest(d, o0 + used)
      invariant whole == Prepend(found, used, DecodeItems(rest, res, left))
    {
      var x := ReadNextItem(archive, res, left, o0, used, rest, whole, found);
      if !x.Decoded? {
        return x.Fail();
      }
      found, used, rest, left := found + x.value, used + x.used, rest[x.used..], left - 1;
    }
    assert found + [] == found;
    r := Decoded(found, used);
  }

  /**
   * `read_metadata`: the count, then that many records; what
   * `find_index` records is returned.
   */
  method ReadMetadata(archive: Archive.SCAFile, res: Resolver) returns (r: Decoded<seq<Option<MethodId>>>)
    requires archive.ForRead()
    modifies archive`fileOffset, archive`failed
    ensures r == DecodeMetadata(Rest(archive.data, old(archive.fileOffset)), res)
    ensures r.Decoded? ==> archive.ForRead() && archive.fileOffset == old(archive.fileOffset) + r.used
    ensures r.Short? ==> archive.failed
    ensures r.Refused? ==> archive.ForRead()
  {
    ghost var d, o := archive.data, archive.fileOffset;
    ghost var s := Rest(d, o);
    TakeAtRest(d, o, 4);
    var ok, cb := archive.ReadExactly(4);
    if !ok {
      return Short;
    }
    var count := DecodeI32(cb);
    if count <= 0 {
      return Decoded([], 4);
    }
    ghost var rest := Rest(archive.data, archive.fileOffset);
    assert rest == s[4..];
    var items := ReadItems(archive, res, count);
    assert items == DecodeItems(rest, res, count);
    r := After(4, items);
  }
}
