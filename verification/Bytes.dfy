/** Bytes, fixed-width words and their big-endian encoding on the wire. */
module Bytes {

  datatype Option<T> = None | Some(value: T)

  type byte = x: int | 0 <= x < 0x100
  type uint16 = x: int | 0 <= x < 0x1_0000
  type uint32 = x: int | 0 <= x < 0x1_0000_0000

  /** TPM_DIGEST, TPM_NONCE and TPM_SECRET values: twenty bytes. */
  type Digest = s: seq<byte> | |s| == 20 witness [0,0,0,0,0, 0,0,0,0,0, 0,0,0,0,0, 0,0,0,0,0]

  const ZERO_DIGEST: Digest := [0,0,0,0,0, 0,0,0,0,0, 0,0,0,0,0, 0,0,0,0,0]

  /** SHA-1, on whose outcome nothing here depends but its length. */
  type Hash = seq<byte> -> Digest

  /** Return codes that are the client's own rather than the TPM's. */
  const ERR_HMAC_FAIL: uint32 := 0x8000_1001
  const ERR_NULL_ARG: uint32 := 0x8000_1002
  const ERR_BAD_ARG: uint32 := 0x8000_1003
  const ERR_BAD_FILE: uint32 := 0x8000_1007
  const ERR_BUFFER: uint32 := 0x8000_100a
  const ERR_STRUCTURE: uint32 := 0x8000_100b
  const ERR_NOT_FOUND: uint32 := 0x8000_100c

  /** Bit i of w, counted from the lowest. */
  predicate Bit(w: nat, i: nat) {
    if i == 0 then w % 2 == 1 else Bit(w / 2, i - 1)
  }

  function BE16(v: uint16): (s: seq<byte>)
    ensures |s| == 2
  {
    [v / 0x100, v % 0x100]
  }

  function BE32(v: uint32): (s: seq<byte>)
    ensures |s| == 4
  {
    [v / 0x100 / 0x100 / 0x100, v / 0x100 / 0x100 % 0x100, v / 0x100 % 0x100, v % 0x100]
  }

  function Load16(s: seq<byte>, off: nat): uint16
    requires off + 2 <= |s|
  {
    var hi: int, lo: int := s[off], s[off + 1];
    hi * 0x100 + lo
  }

  function Load32(s: seq<byte>, off: nat): uint32
    requires off + 4 <= |s|
  {
    var b3: int, b2: int, b1: int, b0: int := s[off], s[off + 1], s[off + 2], s[off + 3];
    ((b3 * 0x100 + b2) * 0x100 + b1) * 0x100 + b0
  }

  /** A word read back from where it was written. */
  lemma Load32At(s: seq<byte>, off: nat, v: uint32)
    requires At(s, off, BE32(v))
    ensures Load32(s, off) == v
  {
  }

  lemma Load16At(s: seq<byte>, off: nat, v: uint16)
    requires At(s, off, BE16(v))
    ensures Load16(s, off) == v
  {
  }

  /** Words as a little-endian host keeps them in memory and in its own files. */
  function LE32(v: uint32): (s: seq<byte>)
    ensures |s| == 4
  {
    [v % 0x100, v / 0x100 % 0x100, v / 0x100 / 0x100 % 0x100, v / 0x100 / 0x100 / 0x100]
  }

  function LoadLE32(s: seq<byte>, off: nat): uint32
    requires off + 4 <= |s|
  {
    var b3: int, b2: int, b1: int, b0: int := s[off + 3], s[off + 2], s[off + 1], s[off];
    ((b3 * 0x100 + b2) * 0x100 + b1) * 0x100 + b0
  }

  lemma LoadLE32At(s: seq<byte>, off: nat, v: uint32)
    requires At(s, off, LE32(v))
    ensures LoadLE32(s, off) == v
  {
  }

  /** The encoding of words is injective. */
  lemma BE32Injective(v: uint32, w: uint32)
    requires BE32(v) == BE32(w)
    ensures v == w
  {
  }

  /** Whatever stands in a buffer is the encoding of the word read from there. */
  lemma WordAt(s: seq<byte>, off: nat)
    requires off + 4 <= |s|
    ensures At(s, off, BE32(Load32(s, off)))
  {
    var b3: int, b2: int, b1: int, b0: int := s[off], s[off + 1], s[off + 2], s[off + 3];
    var h2 := b3 * 0x100 + b2;
    var h1 := h2 * 0x100 + b1;
    DivByte(b3, b2);
    DivByte(h2, b1);
    DivByte(h1, b0);
    assert BE32(Load32(s, off)) == [b3, b2, b1, b0];
  }

  lemma HalfWordAt(s: seq<byte>, off: nat)
    requires off + 2 <= |s|
    ensures At(s, off, BE16(Load16(s, off)))
  {
  }

  lemma DivByte(h: nat, b: byte)
    ensures (h * 0x100 + b) % 0x100 == b && (h * 0x100 + b) / 0x100 == h
  {
  }

  /** Data that a 32-bit length can describe, and the data behind its length. */
  type Blob = s: seq<byte> | |s| < 0x1_0000_0000

  function Sized(b: Blob): seq<byte> {
    BE32(|b|) + b
  }

  lemma SizedAt(buf: seq<byte>, at: nat, b: Blob)
    requires at + 4 + |b| <= |buf| && buf[at..at + 4 + |b|] == Sized(b)
    ensures Load32(buf, at) == |b| && buf[at + 4..at + 4 + |b|] == b
  {
  }

  /** memcpy into a buffer. */
  method Copy(dst: array<byte>, at: nat, src: seq<byte>)
    requires at + |src| <= dst.Length
    modifies dst
    ensures forall i :: 0 <= i < dst.Length ==> dst[i] == if at <= i < at + |src| then src[i - at] else old(dst[i])
  {
    forall k | 0 <= k < |src| {
      dst[at + k] := src[k];
    }
  }

  function Elements<T>(s: seq<T>): set<T> {
    set x | x in s
  }

  lemma ElementsHas<T>(s: seq<T>, i: nat)
    requires i < |s|
    ensures s[i] in Elements(s)
  {
  }

  lemma ElementsAppend<T>(s: seq<T>, x: T)
    ensures Elements(s + [x]) == Elements(s) + {x}
  {
  }

  /** `part` stands at `pos` in s. */
  predicate At<T(==)>(s: seq<T>, pos: nat, part: seq<T>) {
    pos + |part| <= |s| && s[pos..pos + |part|] == part
  }

  lemma AtSplit<T>(s: seq<T>, pos: nat, a: seq<T>, b: seq<T>)
    ensures At(s, pos, a + b) <==> At(s, pos, a) && At(s, pos + |a|, b)
  {
    if pos + |a| + |b| <= |s| {
      var ab := s[pos..pos + |a| + |b|];
      assert ab == s[pos..pos + |a|] + s[pos + |a|..pos + |a| + |b|];
      if ab == a + b {
        SplitConcat(s[pos..pos + |a|], s[pos + |a|..pos + |a| + |b|], a, b);
      }
    }
  }

  lemma AtNothing<T>(s: seq<T>, pos: nat)
    ensures At(s, pos, []) <==> pos <= |s|
  {
  }

  lemma AtFront<T>(a: seq<T>, b: seq<T>, c: seq<T>)
    ensures At(a + (b + c), 0, a + b)
  {
  }

  /** Concatenations with prefixes of one length split in only one way. */
  lemma SplitConcat<T>(a: seq<T>, b: seq<T>, c: seq<T>, d: seq<T>)
    requires |a| == |c| && a + b == c + d
    ensures a == c && b == d
  {
    assert a == (a + b)[..|a|] && b == (a + b)[|a|..];
    assert c == (c + d)[..|c|] && d == (c + d)[|c|..];
  }
}
