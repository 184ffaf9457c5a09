/**
 * Bytes as the archive stores them: fixed-width little-endian integers
 * (the archive is written with the host's native byte order; the model
 * fixes it to little-endian, the order of x86_64 and aarch64), the C
 * integer conversions the archive code relies on, and NUL-terminated
 * C strings with `strncmp`.
 */
module Bytes {

  type byte = x: int | 0 <= x < 0x100
  type u16 = x: int | 0 <= x < 0x1_0000
  type u32 = x: int | 0 <= x < 0x1_0000_0000
  type u64 = x: int | 0 <= x < 0x1_0000_0000_0000_0000
  type i32 = x: int | -0x8000_0000 <= x < 0x8000_0000

  const U32_MODULUS: int := 0x1_0000_0000
  const U64_MODULUS: int := 0x1_0000_0000_0000_0000

  /** Byte widths of the C types the archive writes. */
  const INT_SIZE: nat := 4
  const SIZE_T_SIZE: nat := 8

  function Zeros(n: nat): (r: seq<byte>)
    ensures |r| == n
    ensures forall i :: 0 <= i < n ==> r[i] == 0
  {
    seq(n, _ => 0)
  }

  function Pow256(n: nat): (r: nat)
    ensures r > 0
  {
    if n == 0 then 1 else 256 * Pow256(n - 1)
  }

  /** The `n` low-order bytes of `x`, least significant first. */
  function EncodeLE(x: nat, n: nat): (r: seq<byte>)
    ensures |r| == n
  {
    if n == 0 then [] else [x % 256] + EncodeLE(x / 256, n - 1)
  }

  /** The unsigned number whose little-endian bytes are `s`. */
  function DecodeLE(s: seq<byte>): nat
  {
    if |s| == 0 then 0 else s[0] + 256 * DecodeLE(s[1..])
  }

  /** `n` bytes hold numbers below `256^n`. */
  lemma {:induction false} DecodeLEBound(s: seq<byte>)
    ensures DecodeLE(s) < Pow256(|s|)
  {
    if |s| > 0 {
      DecodeLEBound(s[1..]);
    }
  }

  /** The `unsigned int` stored in four bytes. */
  function DecodeU32(s: seq<byte>): u32
    requires |s| == 4
  {
    DecodeLEBound(s);
    DecodeLE(s)
  }

  /** The `size_t` stored in eight bytes. */
  function DecodeU64(s: seq<byte>): u64
    requires |s| == 8
  {
    DecodeLEBound(s);
    DecodeLE(s)
  }

  lemma {:induction false} DecodeEncodeLE(x: nat, n: nat)
    requires x < Pow256(n)
    ensures DecodeLE(EncodeLE(x, n)) == x
  {
    if n > 0 {
      var e := EncodeLE(x, n);
      assert e[1..] == EncodeLE(x / 256, n - 1);
      DecodeEncodeLE(x / 256, n - 1);
    }
  }

  lemma {:induction false} EncodeDecodeLE(s: seq<byte>)
    ensures EncodeLE(DecodeLE(s), |s|) == s
  {
    if |s| > 0 {
      var d := DecodeLE(s[1..]);
      var v := s[0] + 256 * d;
      assert v % 256 == s[0] && v / 256 == d;
      EncodeDecodeLE(s[1..]);
    }
  }

  function U16Bytes(x: u16): (r: seq<byte>)
    ensures |r| == 2
  {
    EncodeLE(x, 2)
  }

  function U32Bytes(x: u32): (r: seq<byte>)
    ensures |r| == 4
  {
    EncodeLE(x, 4)
  }

  function U64Bytes(x: u64): (r: seq<byte>)
    ensures |r| == 8
  {
    EncodeLE(x, 8)
  }

  /** Numbers laid out one after another, each in `w` little-endian bytes. */
  function EncodeEach(xs: seq<nat>, w: nat): (r: seq<byte>)
    ensures |r| == w * |xs|
  {
    if xs == [] then [] else EncodeLE(xs[0], w) + EncodeEach(xs[1..], w)
  }

  /** The `n` numbers held in consecutive `w`-byte little-endian fields of `s`. */
  function DecodeEach(s: seq<byte>, w: nat, n: nat): (r: seq<nat>)
    requires |s| == w * n
    ensures |r| == n
    ensures forall i :: 0 <= i < n ==> r[i] < Pow256(w)
  {
    if n == 0 then []
    else
      DecodeLEBound(s[..w]);
      [DecodeLE(s[..w])] + DecodeEach(s[w..], w, n - 1)
  }

  /** Fields written by `EncodeEach` read back as the numbers written. */
  lemma {:induction false} EachRoundTrip(xs: seq<nat>, w: nat)
    requires forall i :: 0 <= i < |xs| ==> xs[i] < Pow256(w)
    ensures DecodeEach(EncodeEach(xs, w), w, |xs|) == xs
  {
    if xs != [] {
      var head, tail := EncodeLE(xs[0], w), EncodeEach(xs[1..], w);
      DecodeEncodeLE(xs[0], w);
      EachRoundTrip(xs[1..], w);
      assert (head + tail)[..w] == head && (head + tail)[w..] == tail;
      assert [xs[0]] + xs[1..] == xs;
    }
  }

  /** A C `int` in two's complement. */
  function I32Bytes(x: i32): (r: seq<byte>)
    ensures |r| == 4
  {
    EncodeLE(if x < 0 then x + U32_MODULUS else x, 4)
  }

  /** The C conversion of an unsigned value to a 32-bit `int`: keep the low 32 bits, reinterpret the sign bit. */
  function Int32Of(v: int): (r: i32)
    ensures r % U32_MODULUS == v % U32_MODULUS
  {
    var w := v % U32_MODULUS;
    if w < 0x8000_0000 then w else w - U32_MODULUS
  }

  lemma Int32OfSmall(v: int)
    requires 0 <= v < 0x8000_0000
    ensures Int32Of(v) == v
  {
  }

  function U32Of(v: int): u32 { v % U32_MODULUS }

  function U64Of(v: int): u64 { v % U64_MODULUS }

  lemma U64OfSmall(v: int)
    requires 0 <= v < U64_MODULUS
    ensures U64Of(v) == v
  {
  }

  function DecodeI32(s: seq<byte>): i32
    requires |s| == 4
  {
    Int32Of(DecodeLE(s))
  }

  lemma U16RoundTrip(x: u16)
    ensures DecodeLE(U16Bytes(x)) == x
  {
    DecodeEncodeLE(x, 2);
  }

  lemma U32RoundTrip(x: u32)
    ensures DecodeLE(U32Bytes(x)) == x
  {
    DecodeEncodeLE(x, 4);
  }

  lemma U64RoundTrip(x: u64)
    ensures DecodeLE(U64Bytes(x)) == x
  {
    DecodeEncodeLE(x, 8);
  }

  lemma I32RoundTrip(x: i32)
    ensures DecodeI32(I32Bytes(x)) == x
  {
    DecodeEncodeLE(if x < 0 then x + U32_MODULUS else x, 4);
  }

  /** Every four bytes are the encoding of the `int` they decode to. */
  lemma I32BytesOfDecode(s: seq<byte>)
    requires |s| == 4
    ensures I32Bytes(DecodeI32(s)) == s
  {
    var v := DecodeLE(s);
    DecodeLEBound(s);
    assert v < Pow256(4) == U32_MODULUS;
    EncodeDecodeLE(s);
  }

  /** Every eight bytes are the encoding of the `size_t` they decode to. */
  lemma U64BytesOfDecode(s: seq<byte>)
    requires |s| == 8
    ensures DecodeLE(s) < U64_MODULUS && U64Bytes(DecodeLE(s)) == s
  {
    DecodeLEBound(s);
    assert Pow256(8) == U64_MODULUS;
    EncodeDecodeLE(s);
  }

  /** Every two bytes are the encoding of the `u16` they decode to. */
  lemma U16BytesOfDecode(s: seq<byte>)
    requires |s| == 2
    ensures DecodeLE(s) < 0x1_0000 && U16Bytes(DecodeLE(s)) == s
  {
    DecodeLEBound(s);
    assert Pow256(2) == 0x1_0000;
    EncodeDecodeLE(s);
  }

  /** Byte `i` of a C string held in `s`; positions past its end read as NUL. */
  function At(s: seq<byte>, i: nat): byte
  {
    if i < |s| then s[i] else 0
  }

  predicate NoNul(s: seq<byte>)
  {
    forall i :: 0 <= i < |s| ==> s[i] != 0
  }

  /** `strncmp(a, b, k) == 0`, scanning from position `i`. */
  function StrNEqFrom(a: seq<byte>, b: seq<byte>, i: nat, k: nat): bool
    decreases k - i
  {
    if i >= k then true
    else if At(a, i) != At(b, i) then false
    else if At(a, i) == 0 then true
    else StrNEqFrom(a, b, i + 1, k)
  }

  function StrNEq(a: seq<byte>, b: seq<byte>, k: nat): bool
  {
    StrNEqFrom(a, b, 0, k)
  }

  lemma {:induction false} StrNEqFromPrefix(name: seq<byte>, saved: seq<byte>, i: nat)
    requires NoNul(name) && NoNul(saved) && i <= |saved| && i <= |name|
    requires name[..i] == saved[..i]
    ensures StrNEqFrom(name + [0], saved + [0], i, |saved|)
            <==> |saved| <= |name| && name[..|saved|] == saved
    decreases |saved| - i
  {
    var a, b := name + [0], saved + [0];
    if i < |saved| {
      if i < |name| {
        assert At(a, i) == name[i] && At(b, i) == saved[i] && name[i] != 0;
        if name[i] == saved[i] {
          assert name[..i + 1] == name[..i] + [name[i]];
          assert saved[..i + 1] == saved[..i] + [saved[i]];
          StrNEqFromPrefix(name, saved, i + 1);
        } else if |saved| <= |name| {
          assert name[..|saved|][i] != saved[i];
        }
      } else {
        assert At(a, i) == 0 && At(b, i) == saved[i] && saved[i] != 0;
      }
    }
  }

  /**
   * The name check of the loaders: `strncmp(name, saved, |saved|)` on two
   * NUL-free names accepts exactly when the saved name is a prefix of the
   * requested one (so a longer requested name also passes).
   */
  lemma NameCheck(name: seq<byte>, saved: seq<byte>)
    requires NoNul(name) && NoNul(saved)
    ensures StrNEq(name + [0], saved + [0], |saved|)
            <==> |saved| <= |name| && name[..|saved|] == saved
  {
    StrNEqFromPrefix(name, saved, 0);
  }

  // Sequence facts the layouts are read back with.

  /** The fields of a record `a + b + c` followed by `t`, read back by position. */
  lemma Fields3Of<T>(a: seq<T>, b: seq<T>, t: seq<T>)
    ensures var s := a + b + t;
      s[..|a|] == a && s[|a|..|a| + |b|] == b && s[|a| + |b|..] == t
  {
    var s := a + b + t;
    assert s[..|a|] == a;
    assert s[|a|..|a| + |b|] == b;
  }

  lemma FieldsOf<T>(a: seq<T>, b: seq<T>, c: seq<T>, t: seq<T>)
    ensures var s := a + b + c + t;
      && s[..|a|] == a && s[|a|..|a| + |b|] == b && s[|a| + |b|..|a| + |b| + |c|] == c
      && s[|a| + |b| + |c|..] == t
  {
    var s := a + b + c + t;
    assert s[..|a|] == a;
    assert s[|a|..|a| + |b|] == b;
  }

  /** The first `j` elements: the first `i`, then those from `i` to `j`. */
  lemma TakeParts<T>(s: seq<T>, i: nat, j: nat)
    requires i <= j <= |s|
    ensures s[..j] == s[..i] + s[i..j]
  {
  }

  /** The first `u + v` elements: the first `u`, then the first `v` of what follows. */
  lemma TakeRest<T>(s: seq<T>, u: nat, v: nat)
    requires u + v <= |s|
    ensures s[..u + v] == s[..u] + s[u..][..v]
  {
    assert s[u..][..v] == s[u..u + v];
  }

  /** A slice that lies within `a` of `a + b`. */
  lemma SliceOfFront<T>(a: seq<T>, b: seq<T>, i: nat, j: nat)
    requires i <= j <= |a|
    ensures (a + b)[i..j] == a[i..j]
  {
  }

  /** A slice that lies within `b` of `a + b`. */
  lemma SliceOfBack<T>(a: seq<T>, b: seq<T>, i: nat, j: nat)
    requires i <= j <= |b|
    ensures (a + b)[|a| + i..|a| + j] == b[i..j]
  {
  }

  /** The fields of a record `a + b + c + e` followed by `t`, read back by position. */
  lemma Fields4Of<T>(a: seq<T>, b: seq<T>, c: seq<T>, e: seq<T>, t: seq<T>)
    ensures var s := a + b + c + e + t;
      var i, j, k := |a|, |a| + |b|, |a| + |b| + |c|;
      && s[..i] == a && s[i..j] == b && s[j..k] == c && s[k..k + |e|] == e && s[k + |e|..] == t
  {
    var s := a + b + c + e + t;
    FieldsOf(a, b, c, e + t);
    AppendAssoc(a + b + c, e, t);
    SliceOfFront(e, t, 0, |e|);
    assert s[|a| + |b| + |c|..] == e + t;
    assert s[|a| + |b| + |c|..][..|e|] == s[|a| + |b| + |c|..|a| + |b| + |c| + |e|];
  }

  lemma AppendAssoc<T>(a: seq<T>, b: seq<T>, c: seq<T>)
    ensures a + b + c == a + (b + c)
  {
  }
}
