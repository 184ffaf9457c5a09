/**
 * The archive file as a byte image with a cursor: the specification of
 * `SCAFile::read_bytes`, `write_bytes`, `seek_to_position` and
 * `align_write` (SCArchive.cpp). The operating system's file calls are
 * replaced by the in-memory image `data`; a write fails when it would
 * run past `limit` (the space the file system grants), a read fails when
 * it would run past the end of the image, and a seek fails when the
 * position does not survive the `(long)` cast that `lseek` receives.
 *
 * The class `Archive.SCAFile` implements these steps; every one of its
 * I/O methods ensures that its new state is the step given here.
 */
module FileImage {
  import opened Bytes
  import opened Wrappers

  /** `lseek(fd, (long)pos, SEEK_SET)` fails from here on: the cast makes the position negative. */
  const SEEK_LIMIT: nat := 0x8000_0000_0000_0000

  /** The alignment `align_write` restores: `sizeof(size_t)`. */
  const ALIGNMENT: nat := 8

  /** The file contents after writing `b` at position `o` (a gap before `o` reads as zeros). */
  function Overwrite(d: seq<byte>, o: nat, b: seq<byte>): seq<byte>
  {
    var head := if o <= |d| then d[..o] else d + Zeros(o - |d|);
    var tail := if o + |b| <= |d| then d[o + |b|..] else [];
    head + b + tail
  }

  function Max(a: nat, b: nat): nat { if a < b then b else a }

  /** What `Overwrite` leaves at every position. */
  lemma OverwriteIndex(d: seq<byte>, o: nat, b: seq<byte>)
    ensures |Overwrite(d, o, b)| == Max(|d|, o + |b|)
    ensures forall i :: 0 <= i < |Overwrite(d, o, b)| ==>
      Overwrite(d, o, b)[i] == (if o <= i < o + |b| then b[i - o] else if i < |d| then d[i] else 0)
  {
  }

  /** Two writes at consecutive positions are one write of the concatenation. */
  lemma OverwriteAppend(d: seq<byte>, o: nat, a: seq<byte>, b: seq<byte>)
    ensures Overwrite(Overwrite(d, o, a), o + |a|, b) == Overwrite(d, o, a + b)
  {
    var m := Overwrite(d, o, a);
    OverwriteIndex(d, o, a);
    OverwriteIndex(m, o + |a|, b);
    OverwriteIndex(d, o, a + b);
    var l := Overwrite(m, o + |a|, b);
    var r := Overwrite(d, o, a + b);
    assert |l| == |r|;
    forall i | 0 <= i < |l| ensures l[i] == r[i] {
      if o <= i < o + |a| {
        assert (a + b)[i - o] == a[i - o];
      } else if o + |a| <= i < o + |a| + |b| {
        assert (a + b)[i - o] == b[i - o - |a|];
      }
    }
  }

  /** A write leaves the bytes outside its range where they were. */
  lemma OverwriteKeeps(d: seq<byte>, o: nat, b: seq<byte>, p: nat, n: nat)
    requires o + |b| <= p && p + n <= |d|
    ensures p + n <= |Overwrite(d, o, b)| && Overwrite(d, o, b)[p..p + n] == d[p..p + n]
  {
    OverwriteIndex(d, o, b);
  }

  /** A block written at `o` survives a later write that ends at or before `o`. */
  lemma OverwriteBelow(d: seq<byte>, o: nat, b: seq<byte>, h: seq<byte>)
    requires |h| <= o
    ensures o + |b| <= |Overwrite(Overwrite(d, o, b), 0, h)|
    ensures Overwrite(Overwrite(d, o, b), 0, h)[o..o + |b|] == b
  {
    OverwriteSlice(d, o, b);
    OverwriteKeeps(Overwrite(d, o, b), 0, h, o, |b|);
  }

  /** Writing nothing inside the data changes nothing. */
  lemma OverwriteEmpty(d: seq<byte>, o: nat)
    requires o <= |d|
    ensures Overwrite(d, o, []) == d
  {
  }

  /** The bytes just written can be read back where they were written. */
  lemma OverwriteSlice(d: seq<byte>, o: nat, b: seq<byte>)
    ensures o + |b| <= |Overwrite(d, o, b)|
    ensures Overwrite(d, o, b)[o..o + |b|] == b
    ensures o <= |d| ==> Overwrite(d, o, b)[..o] == d[..o]
  {
    OverwriteIndex(d, o, b);
  }

  /** A block written after some padding can be read back past the padding. */
  lemma OverwritePadded(d: seq<byte>, o: nat, pad: seq<byte>, b: seq<byte>)
    ensures o + |pad| + |b| <= |Overwrite(d, o, pad + b)|
    ensures Overwrite(d, o, pad + b)[o + |pad|..o + |pad| + |b|] == b
  {
    OverwriteSlice(d, o, pad + b);
    var w := Overwrite(d, o, pad + b);
    assert w[o + |pad|..o + |pad| + |b|] == w[o..o + |pad + b|][|pad|..];
    assert (pad + b)[|pad|..] == b;
  }

  /** `OverwritePadded` for a write known to be the padding and then the block. */
  lemma PaddedAt(d: seq<byte>, o: nat, pad: seq<byte>, block: seq<byte>, written: seq<byte>)
    requires written == pad + block
    ensures o + |pad| + |block| <= |Overwrite(d, o, written)|
    ensures Overwrite(d, o, written)[o + |pad|..o + |pad| + |block|] == block
  {
    OverwritePadded(d, o, pad, block);
  }

  /** Bytes that start with `front` are `front` and what follows it. */
  lemma SplitFront(s: seq<byte>, front: seq<byte>)
    requires |front| <= |s| && s[..|front|] == front
    ensures s == front + s[|front|..]
  {
    assert s == s[..|front|] + s[|front|..];
  }

  /** A front made of two parts: each part at its place. */
  lemma FrontParts(s: seq<byte>, a: seq<byte>, c: seq<byte>)
    requires |a + c| <= |s| && s[..|a + c|] == a + c
    ensures |a| <= |s| && s[..|a|] == a
    ensures |a| + |c| <= |s| && s[|a|..][..|c|] == c
  {
    assert s[..|a|] == (a + c)[..|a|];
    assert s[|a|..][..|c|] == (a + c)[|a|..];
  }

  /** Part of a block found at `p` in the data, read straight from the data. */
  lemma SliceWithin(d: seq<byte>, p: nat, block: seq<byte>, i: nat, j: nat)
    requires p + |block| <= |d| && d[p..p + |block|] == block && i <= j <= |block|
    ensures d[p + i..p + j] == block[i..j]
  {
    forall k | 0 <= k < j - i
      ensures d[p + i..p + j][k] == block[i..j][k]
    {
      assert d[p + i + k] == d[p..p + |block|][i + k];
    }
  }

  /** The state of `SCAFile` that its I/O touches. `open` is `_fd >= 0`. */
  datatype Cursor = Cursor(data: seq<byte>, limit: nat, offset: nat, open: bool, forRead: bool, failed: bool)
  {
    /** `SCAFile::for_read` */
    predicate ForRead() { open && forRead && !failed }

    /** `SCAFile::for_write` */
    predicate ForWrite() { open && !forRead && !failed }
  }

  /** The cursor after a transfer, the bytes obtained (reads only) and the count returned. */
  datatype Transfer = Transfer(after: Cursor, bytes: seq<byte>, count: nat)

  /**
   * `read_bytes`: zero bytes change nothing; a short read sets the sticky
   * failed flag and returns 0. `::read` receives the count cast to
   * `unsigned int`, so a request of 2^32 bytes or more is always short.
   */
  function ReadStep(c: Cursor, n: nat): (r: Transfer)
    requires c.ForRead()
  {
    if n == 0 then Transfer(c, [], 0)
    else if n >= U32_MODULUS || c.offset + n > |c.data| then Transfer(c.(failed := true), [], 0)
    else Transfer(c.(offset := c.offset + n), c.data[c.offset..c.offset + n], n)
  }

  /** `write_bytes`: the same shape as `read_bytes`, bounded by `limit` instead of the end of the data. */
  function WriteStep(c: Cursor, b: seq<byte>): (r: Transfer)
    requires c.ForWrite()
  {
    if |b| == 0 then Transfer(c, [], 0)
    else if |b| >= U32_MODULUS || c.offset + |b| > c.limit then Transfer(c.(failed := true), [], 0)
    else Transfer(c.(data := Overwrite(c.data, c.offset, b), offset := c.offset + |b|), [], |b|)
  }

  /** `seek_to_position`: no-op when already there, otherwise move or fail and set the failed flag. */
  function SeekStep(c: Cursor, pos: nat): (r: (Cursor, bool))
  {
    if pos == c.offset then (c, true)
    else if pos >= SEEK_LIMIT then (c.(failed := true), false)
    else (c.(offset := pos), true)
  }

  /** `sizeof(size_t) - (_file_offset & (sizeof(size_t) - 1))`: never 0, so an aligned offset pads by 8. */
  function AlignPadding(offset: nat): nat
  {
    ALIGNMENT - offset % ALIGNMENT
  }

  /** `align_write`: pad with zeros; succeed when all padding bytes were written. */
  function AlignStep(c: Cursor): (r: (Cursor, bool))
    requires c.ForWrite()
  {
    var pad := AlignPadding(c.offset);
    var t := WriteStep(c, Zeros(pad));
    (t.after, t.count == pad)
  }

  /**
   * Properties of `align_write`: on success it wrote between 1 and 8 zero
   * bytes, the cursor is a multiple of 8, and an already aligned cursor
   * advanced by a full 8; on failure the archive is marked failed.
   */
  lemma AlignWriteProperties(c: Cursor)
    requires c.ForWrite()
    ensures var (after, ok) := AlignStep(c);
      && (ok ==> && after.offset % ALIGNMENT == 0
                 && 1 <= after.offset - c.offset <= ALIGNMENT
                 && (c.offset % ALIGNMENT == 0 ==> after.offset == c.offset + ALIGNMENT)
                 && after.data == Overwrite(c.data, c.offset, Zeros(after.offset - c.offset)))
      && (!ok ==> after.failed && after.data == c.data && after.offset == c.offset)
  {
  }

  /** A failed cursor is refused by both gates, and no step clears the flag. */
  lemma FailureIsSticky(c: Cursor, pos: nat)
    requires c.failed
    ensures !c.ForRead() && !c.ForWrite()
    ensures SeekStep(c, pos).0.failed
  {
  }

  /** A short read or write leaves an archive that neither gate admits any more. */
  lemma ShortTransferDisables(c: Cursor, n: nat, b: seq<byte>)
    ensures c.ForRead() && n > 0 && (n >= U32_MODULUS || c.offset + n > |c.data|) ==>
      ReadStep(c, n).count == 0 && !ReadStep(c, n).after.ForRead() && !ReadStep(c, n).after.ForWrite()
    ensures c.ForWrite() && |b| > 0 && (|b| >= U32_MODULUS || c.offset + |b| > c.limit) ==>
      WriteStep(c, b).count == 0 && !WriteStep(c, b).after.ForRead() && !WriteStep(c, b).after.ForWrite()
  {
  }

  /**
   * What a read of `n` bytes at position `o` delivers: all of them, or
   * nothing when the `unsigned int` cast truncates `n` or the bytes run out.
   */
  function TakeAt(d: seq<byte>, o: nat, n: nat): (r: Option<seq<byte>>)
    ensures r.Some? ==> |r.value| == n
    ensures n > 0 && r.Some? ==> o + n <= |d| && r.value == d[o..o + n]
  {
    if n == 0 then Some([]) else if n >= U32_MODULUS || o + n > |d| then None else Some(d[o..o + n])
  }

  /**
   * What a reader makes of the bytes in front of it: a value and how many
   * bytes it consumed; a short read (which marks the archive failed); a
   * refusal (the reader returns false and leaves the archive usable); or a
   * crash (a `fatal`, a null dereference or an overrun buffer).
   */
  datatype Decoded<T> = Decoded(value: T, used: nat) | Short | Refused | Crash
  {
    /** The same failure, from a reader of another type. */
    function Fail<U>(): (r: Decoded<U>)
      requires !Decoded?
      ensures r.Short? == Short? && r.Refused? == Refused? && r.Crash? == Crash?
    {
      if Short? then Short else if Refused? then Refused else Crash
    }
  }

  /** A value decoded behind `k` bytes already consumed; failures pass through. */
  function After<T>(k: nat, p: Decoded<T>): (r: Decoded<T>)
    ensures r.Decoded? == p.Decoded? && (r.Decoded? ==> r.value == p.value && r.used == k + p.used)
    ensures !r.Decoded? ==> r == p
  {
    if p.Decoded? then Decoded(p.value, k + p.used) else p
  }

  /** A decoded tail behind `acc` (which took `used` bytes); failures pass through. */
  function Prepend<T>(acc: seq<T>, used: nat, p: Decoded<seq<T>>): Decoded<seq<T>>
  {
    if p.Decoded? then Decoded(acc + p.value, used + p.used) else p
  }

  lemma PrependNothing<T>(p: Decoded<seq<T>>)
    ensures Prepend([], 0, p) == p
  {
    if p.Decoded? {
      assert [] + p.value == p.value;
    }
  }

  lemma PrependPrepend<T>(a: seq<T>, x: nat, b: seq<T>, y: nat, p: Decoded<seq<T>>)
    ensures Prepend(a, x, Prepend(b, y, p)) == Prepend(a + b, x + y, p)
  {
    if p.Decoded? {
      assert a + (b + p.value) == a + b + p.value;
    }
  }

  /** The bytes from position `o` to the end (none when `o` is past the end). */
  function Rest(d: seq<byte>, o: nat): (r: seq<byte>)
    ensures |r| == if o <= |d| then |d| - o else 0
  {
    if o <= |d| then d[o..] else []
  }

  /** Skipping `n` more bytes of what is left. */
  lemma RestRest(d: seq<byte>, o: nat, n: nat)
    requires n <= |Rest(d, o)|
    ensures Rest(d, o + n) == Rest(d, o)[n..]
  {
    if o <= |d| {
      assert d[o..][n..] == d[o + n..];
    }
  }

  /** What `TakeAt` finds at `o` is what the front of `Rest(d, o)` holds, and what follows it. */
  lemma TakeAtRest(d: seq<byte>, o: nat, n: nat)
    ensures var p := TakeAt(d, o, n);
      && (p.Some? <==> n == 0 || (n < U32_MODULUS && n <= |Rest(d, o)|))
      && (p.Some? ==> p.value == Rest(d, o)[..n] && Rest(d, o + n) == Rest(d, o)[n..])
  {
    if o + n <= |d| {
      assert d[o..][..n] == d[o..o + n];
      assert d[o..][n..] == d[o + n..];
    }
  }

  /** `read_bytes` delivers exactly what `TakeAt` says, and advances over it. */
  lemma ReadStepTakes(c: Cursor, n: nat)
    requires c.ForRead()
    ensures var t := ReadStep(c, n);
      var p := TakeAt(c.data, c.offset, n);
      && (t.count == n <==> p.Some?)
      && (p.Some? ==> t.bytes == p.value && t.after == c.(offset := c.offset + n))
      && (p.None? ==> t.after.failed)
  {
  }

  // ---------------------------------------------------------------------
  // The failure branches as SCArchive.cpp writes them. Lines 247, 279 and
  // 296 call `failed()`, the const accessor, where `set_failed()` was
  // meant: the flag is read and dropped, and the archive stays usable.

  function ReadStepAsWritten(c: Cursor, n: nat): (r: Transfer)
    requires c.ForRead()
  {
    if n == 0 then Transfer(c, [], 0)
    else if n >= U32_MODULUS || c.offset + n > |c.data| then Transfer(c, [], 0)
    else Transfer(c.(offset := c.offset + n), c.data[c.offset..c.offset + n], n)
  }

  function WriteStepAsWritten(c: Cursor, b: seq<byte>): (r: Transfer)
    requires c.ForWrite()
  {
    if |b| == 0 then Transfer(c, [], 0)
    else if |b| >= U32_MODULUS || c.offset + |b| > c.limit then Transfer(c, [], 0)
    else Transfer(c.(data := Overwrite(c.data, c.offset, b), offset := c.offset + |b|), [], |b|)
  }

  function SeekStepAsWritten(c: Cursor, pos: nat): (r: (Cursor, bool))
  {
    if pos == c.offset then (c, true)
    else if pos >= SEEK_LIMIT then (c, false)
    else (c.(offset := pos), true)
  }

  /**
   * As written, a short read returns 0 but `for_read()` still holds
   * afterwards: the next `load_*` call goes on reading the broken archive.
   */
  lemma ShortReadAsWrittenKeepsArchiveOpen()
    ensures var c := Cursor([1, 2, 3], 0, 2, true, true, false);
      && c.ForRead()
      && ReadStepAsWritten(c, 4).count == 0
      && ReadStepAsWritten(c, 4).after.ForRead()
      && !ReadStep(c, 4).after.ForRead()
  {
  }

  /** As written, a failed write or seek leaves `for_write()` true as well. */
  lemma FailuresAsWrittenKeepArchiveWritable(c: Cursor, b: seq<byte>, pos: nat)
    requires c.ForWrite()
    ensures WriteStepAsWritten(c, b).after.ForWrite()
    ensures SeekStepAsWritten(c, pos).0.ForWrite()
  {
  }
}
