/** Byte buffers as the frame sees them: a pixel buffer or palette is a sequence
    of bytes, and a NULL pointer is `None`. */
module Buffers {

  /** An `unsigned char`. */
  type byte = x: int | 0 <= x < 256

  type Buffer = seq<byte>

  /** A pointer that may be NULL. */
  datatype Option<+T> = None | Some(value: T)

  /** A pointer that can be read for `size` bytes: nothing is read when
      `size` is not positive, and then the pointer may be NULL. */
  predicate Covers(p: Option<Buffer>, size: int) {
    size <= 0 || (p.Some? && size <= |p.value|)
  }

  /** The `i`-th run of `size` consecutive bytes of `s`: pixel `i` of a packed
      buffer of `size`-byte pixels, or row `i` of a packed image whose rows are
      `size` bytes long. */
  function Chunk(s: Buffer, size: nat, i: nat): (c: Buffer)
    requires i * size + size <= |s|
    ensures |c| == size
  {
    s[i * size..i * size + size]
  }

  /** `memmove(s + dst, s + src, len)`: the `len` bytes at `src` are copied to
      `dst` as if through a temporary buffer, so the two ranges may overlap. */
  function MemMove(s: Buffer, dst: nat, src: nat, len: nat): (r: Buffer)
    requires dst + len <= |s| && src + len <= |s|
    ensures |r| == |s|
    ensures r[..dst] == s[..dst]
    ensures r[dst..dst + len] == s[src..src + len]
    ensures r[dst + len..] == s[dst + len..]
    ensures forall i | 0 <= i < |s| && !(dst <= i < dst + len) :: r[i] == s[i]
  {
    s[..dst] + s[src..src + len] + s[dst + len..]
  }
}
