/** Sizes and small helpers shared by every part of the model. */
module Basics {

  // Sizes fixed by the driver (src/shjpeg_jpu.h and src/shjpeg_softhelper.h).
  const RELOAD_SIZE: nat := 65536
  const LINEBUFFER_PITCH: nat := 4096
  const LINEBUFFER_HEIGHT: nat := 1024
  const LINEBUFFER_SIZE_Y: nat := LINEBUFFER_PITCH * LINEBUFFER_HEIGHT
  const LINEBUFFER_SIZE: nat := LINEBUFFER_SIZE_Y * 2
  const CONV_CHUNK_SIZE: nat := 4

  // The two bytes of an end-of-image marker.
  const FF: bv8 := 0xFF
  const EOI: bv8 := 0xD9

  /** Byte `i` of `s`, or 0 outside of it. */
  function At(s: seq<bv8>, i: int): bv8 {
    if 0 <= i < |s| then s[i] else 0
  }

  lemma SliceAt(s: seq<bv8>, base: nat, n: nat, slice: seq<bv8>, i: int)
    requires base + n <= |s| && slice == s[base..base + n] && 0 <= i < n
    ensures At(slice, i) == At(s, base + i)
  {
    assert slice[i] == s[base + i];
  }

  function Min(a: int, b: int): int {
    if a < b then a else b
  }

  const U32: int := 0x1_0000_0000

  function Sum(sizes: seq<nat>): nat {
    if sizes == [] then 0 else sizes[0] + Sum(sizes[1..])
  }

  /**
   * The offset of row `y` in a buffer whose rows are `pitch` bytes apart: what a row
   * pointer reaches by being advanced `y` times, which is y * pitch (RowAtIsProduct).
   */
  function RowAt(y: nat, pitch: nat): nat {
    if y == 0 then 0 else RowAt(y - 1, pitch) + pitch
  }

  lemma {:induction false} RowAtIsProduct(y: nat, pitch: nat)
    ensures RowAt(y, pitch) == y * pitch
  {
    if y > 0 {
      RowAtIsProduct(y - 1, pitch);
      assert y * pitch == (y - 1) * pitch + pitch;
    }
  }

  /** Row `r` ends before row `y` starts. */
  lemma {:induction false} RowBelow(r: nat, y: nat, pitch: nat)
    requires r < y
    ensures RowAt(r, pitch) + pitch == RowAt(r + 1, pitch) <= RowAt(y, pitch)
  {
    if r + 1 < y {
      RowBelow(r, y - 1, pitch);
    }
  }

  lemma {:induction false} WiderRows(y: nat, pitch: nat, wider: nat)
    requires pitch <= wider
    ensures RowAt(y, pitch) <= RowAt(y, wider)
  {
    if y > 0 {
      WiderRows(y - 1, pitch, wider);
    }
  }

  lemma {:induction false} RowAtSum(a: nat, b: nat, pitch: nat)
    ensures RowAt(a + b, pitch) == RowAt(a, pitch) + RowAt(b, pitch)
  {
    if b > 0 {
      RowAtSum(a, b - 1, pitch);
    }
  }

  /** The concatenation of a sequence of byte strings. */
  function Concat(parts: seq<seq<bv8>>): seq<bv8> {
    if parts == [] then [] else parts[0] + Concat(parts[1..])
  }

  lemma {:induction false} ConcatSnoc(parts: seq<seq<bv8>>, last: seq<bv8>)
    ensures Concat(parts + [last]) == Concat(parts) + last
  {
    if parts == [] {
      assert parts + [last] == [last];
      assert Concat([last][1..]) == [];
    } else {
      ConcatSnoc(parts[1..], last);
      assert (parts + [last])[1..] == parts[1..] + [last];
    }
  }

  lemma ConcatAssoc(a: seq<bv8>, b: seq<bv8>, c: seq<bv8>)
    ensures (a + b) + c == a + (b + c)
  {
  }

  /** The C library's memcpy between two different buffers. */
  method MemCpy(dst: array<bv8>, d: nat, src: array<bv8>, s: nat, n: nat)
    requires dst != src
    requires d + n <= dst.Length && s + n <= src.Length
    modifies dst
    ensures dst[..d] == old(dst[..d])
    ensures dst[d..d + n] == src[s..s + n]
    ensures dst[d + n..] == old(dst[d + n..])
  {
    forall i | 0 <= i < n {
      dst[d + i] := src[s + i];
    }
  }

  /** The driver's malloc followed by a memcpy into the new buffer's first `n` bytes. */
  method CopyOut(src: array<bv8>, s: nat, n: nat, size: nat) returns (copy: array<bv8>)
    requires s + n <= src.Length && n <= size
    ensures fresh(copy) && copy.Length == size && copy[..n] == src[s..s + n]
  {
    copy := new bv8[size];
    MemCpy(copy, 0, src, s, n);
  }
}
