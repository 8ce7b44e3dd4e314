/** How a new authorization value is encrypted for the TPM: XORed with a digest, or by AES in the
    TPM's counter mode. */
module AuthEncryption {
  import opened Bytes

  type Block = s: seq<byte> | |s| == 16 witness [0,0,0,0, 0,0,0,0, 0,0,0,0, 0,0,0,0]

  /** AES encryption of one block under a 128-bit key. */
  type Aes = (Block, Block) -> Block

  function Power(n: nat): nat {
    if n == 0 then 1 else 2 * Power(n - 1)
  }

  /** The exclusive or of the n lowest bits. */
  function XorBits(a: nat, b: nat, n: nat): (r: nat)
    ensures r < Power(n)
  {
    if n == 0 then 0 else (a % 2 + b % 2) % 2 + 2 * XorBits(a / 2, b / 2, n - 1)
  }

  function Xor(a: byte, b: byte): byte {
    assert Power(8) == 0x100;
    XorBits(a, b, 8)
  }

  lemma XorBitsStep(a: nat, b: nat, n: nat)
    requires n > 0
    ensures XorBits(a, b, n) % 2 == (a % 2 + b % 2) % 2 && XorBits(a, b, n) / 2 == XorBits(a / 2, b / 2, n - 1)
  {
  }

  lemma {:induction false} XorBitsCancel(a: nat, b: nat, n: nat)
    requires a < Power(n)
    ensures XorBits(XorBits(a, b, n), b, n) == a
  {
    hide XorBits;
    if n > 0 {
      XorBitsStep(a, b, n);
      XorBitsStep(XorBits(a, b, n), b, n);
      XorBitsCancel(a / 2, b / 2, n - 1);
    }
  }

  lemma {:induction false} XorBitsBit(a: nat, b: nat, n: nat, i: nat)
    requires i < n
    ensures Bit(XorBits(a, b, n), i) <==> (Bit(a, i) <==> !Bit(b, i))
  {
    hide XorBits;
    XorBitsStep(a, b, n);
    if i > 0 {
      XorBitsBit(a / 2, b / 2, n - 1, i - 1);
    }
  }

  /** Each of the eight bits of one byte is set exactly if it is set in one of the two others. */
  predicate XorOf(r: byte, a: byte, b: byte) {
    forall i: nat :: i < 8 ==> (Bit(r, i) <==> (Bit(a, i) <==> !Bit(b, i)))
  }

  lemma XorIsBitwise(a: byte, b: byte)
    ensures XorOf(Xor(a, b), a, b)
  {
    hide XorBits, Bit;
    forall i: nat | i < 8 ensures Bit(Xor(a, b), i) <==> (Bit(a, i) <==> !Bit(b, i)) {
      XorBitsBit(a, b, 8, i);
    }
  }

  lemma {:induction false} XorBitsSymmetric(a: nat, b: nat, n: nat)
    ensures XorBits(a, b, n) == XorBits(b, a, n)
  {
    if n > 0 {
      XorBitsSymmetric(a / 2, b / 2, n - 1);
    }
  }

  lemma XorCancels(a: byte, b: byte)
    ensures Xor(Xor(a, b), b) == a && Xor(b, Xor(b, a)) == a
  {
    assert Power(8) == 0x100;
    hide Power;
    XorBitsCancel(a, b, 8);
    XorBitsSymmetric(a, b, 8);
    XorBitsSymmetric(b, Xor(a, b), 8);
    hide XorBits;
  }

  function XorSeq(a: seq<byte>, b: seq<byte>): (s: seq<byte>)
    requires |a| == |b|
    ensures |s| == |a|
  {
    seq(|a|, i requires 0 <= i < |a| => Xor(a[i], b[i]))
  }

  lemma XorSeqCancels(a: seq<byte>, b: seq<byte>)
    requires |a| == |b|
    ensures XorSeq(XorSeq(a, b), b) == a && XorSeq(b, XorSeq(b, a)) == a
  {
    forall i | 0 <= i < |a| ensures Xor(Xor(a[i], b[i]), b[i]) == a[i] && Xor(b[i], Xor(b[i], a[i])) == a[i] {
      XorCancels(a[i], b[i]);
    }
    hide Xor;
  }

  lemma XorSeqBitwise(a: seq<byte>, b: seq<byte>, i: nat)
    requires |a| == |b| && i < |a|
    ensures XorOf(XorSeq(a, b)[i], a[i], b[i])
  {
    XorIsBitwise(a[i], b[i]);
    hide Xor, XorOf;
  }

  // ----- AES in counter mode, counting in the low four bytes only.

  function NextCtr(ctr: Block): Block {
    ctr[..12] + BE32((Load32(ctr, 12) + 1) % 0x1_0000_0000)
  }

  /** The first n bytes of the pad: one encrypted counter after another. */
  function Pad(aes: Aes, key: Block, ctr: Block, n: nat): (s: seq<byte>)
    ensures |s| == n
    decreases n
  {
    if n <= 16 then aes(key, ctr)[..n] else aes(key, ctr) + Pad(aes, key, NextCtr(ctr), n - 16)
  }

  /** The counter that encrypting n bytes leaves behind. */
  function LastCtr(ctr: Block, n: nat): Block
    decreases n
  {
    if n <= 16 then ctr else LastCtr(NextCtr(ctr), n - 16)
  }

  method TpmXor(out: array<byte>, at: nat, in1: seq<byte>, in2: seq<byte>)
    requires |in1| == |in2| && at + |in1| <= out.Length
    modifies out
    ensures out[..at + |in1|] == old(out[..at]) + XorSeq(in1, in2)
    ensures forall i :: at + |in1| <= i < out.Length ==> out[i] == old(out[i])
  {
    for i := 0 to |in1|
      invariant forall j :: 0 <= j < out.Length ==>
                  out[j] == if at <= j < at + i then XorSeq(in1, in2)[j - at] else old(out[j])
    {
      out[at + i] := Xor(in1[i], in2[i]);
    }
  }

  /** Block by block in place: each byte is XORed with that of the encrypted counter as many steps on
      as blocks precede it. The counter's low word wraps and never carries. */
  method CtrEncrypt(aes: Aes, key: Block, ctr: array<byte>, data: seq<byte>, out: array<byte>)
    requires ctr.Length == 16 && ctr != out && |data| <= out.Length
    modifies out, ctr
    ensures out[..|data|] == XorSeq(data, Pad(aes, key, old(ctr[..]), |data|))
    ensures forall i :: 0 <= i < |data| ==>
              XorOf(out[i], data[i], aes(key, Counter(old(ctr[..]), i / 16))[i % 16])
    ensures forall i :: |data| <= i < out.Length ==> out[i] == old(out[i])
    ensures ctr[..] == LastCtr(old(ctr[..]), |data|)
  {
    hide Pad, LastCtr, XorSeq, Load32, BE32, XorOf, Counter;
    ghost var ctr0 := ctr[..];
    var size: nat, at: nat := |data|, 0;
    ghost var pad := Pad(aes, key, ctr[..], |data|);
    PadBlock(aes, key, ctr[..], 0);
    while size != 0
      invariant at + size == |data|
      invariant size > 0 ==> pad[at..] == Pad(aes, key, ctr[..], size)
      invariant LastCtr(ctr[..], size) == LastCtr(old(ctr[..]), |data|)
      invariant out[..at] == XorSeq(data, pad)[..at]
      invariant forall i :: at <= i < out.Length ==> out[i] == old(out[i])
      decreases size
    {
      var pad_buffer := aes(key, ctr[..]);
      PadBlock(aes, key, ctr[..], size);
      PadBlock(aes, key, ctr[..], 0);
      var n := if size <= 16 then size else 16;
      assert pad[at..at + n] == pad[at..][..n] == pad_buffer[..n];
      assert pad_buffer[..16] == pad_buffer;
      XorSlice(data, pad, at, n);
      ghost var mask, was := XorSeq(data, pad), ctr[..];
      assert mask[..at + n] == mask[..at] + mask[at..at + n];
      if size <= 16 {
        TpmXor(out, at, data[at..at + size], pad_buffer[..size]);
        at := at + size;
        size := 0;
      } else {
        TpmXor(out, at, data[at..at + 16], pad_buffer);
        at := at + 16;
        size := size - 16;
      }
      if size != 0 {
        var cint: int := Load32(ctr[..], 12);
        cint := (cint + 1) % 0x1_0000_0000;
        Copy(ctr, 12, BE32(cint));
        assert ctr[..] == was[..12] + BE32(cint);
        assert pad[at..] == pad[at - n..][n..];
      }
    }
    PadBlock(aes, key, ctr[..], 0);
    assert out[..|data|] == out[..at];
    forall i | 0 <= i < |data| ensures XorOf(out[i], data[i], aes(key, Counter(ctr0, i / 16))[i % 16]) {
      assert out[i] == out[..|data|][i];
      XorSeqBitwise(data, pad, i);
      PadAt(aes, key, ctr0, |data|, i);
    }
  }

  lemma PadBlock(aes: Aes, key: Block, ctr: Block, n: nat)
    ensures n <= 16 ==> Pad(aes, key, ctr, n) == aes(key, ctr)[..n] && LastCtr(ctr, n) == ctr
    ensures n > 16 ==> Pad(aes, key, ctr, n)[..16] == aes(key, ctr)
                       && Pad(aes, key, ctr, n)[16..] == Pad(aes, key, NextCtr(ctr), n - 16)
                       && LastCtr(ctr, n) == LastCtr(NextCtr(ctr), n - 16)
  {
  }

  lemma XorSlice(a: seq<byte>, b: seq<byte>, at: nat, n: nat)
    requires |a| == |b| && at + n <= |a|
    ensures XorSeq(a, b)[at..at + n] == XorSeq(a[at..at + n], b[at..at + n])
  {
  }

  /** The counter k steps on: the low word counts modulo 2^32, the other twelve bytes stay. */
  function Counter(ctr: Block, k: nat): Block {
    ctr[..12] + BE32((Load32(ctr, 12) + k) % 0x1_0000_0000)
  }

  lemma CounterSteps(ctr: Block, k: nat)
    ensures Counter(ctr, 0) == ctr && Counter(NextCtr(ctr), k) == Counter(ctr, k + 1)
  {
    hide Load32, BE32, NextCtr;
    WordAt(ctr, 12);
    assert ctr[..12] + ctr[12..] == ctr;
    NextParts(ctr);
    WrapsOnce(Load32(ctr, 12), k);
  }

  lemma NextParts(ctr: Block)
    ensures NextCtr(ctr)[..12] == ctr[..12] && Load32(NextCtr(ctr), 12) == (Load32(ctr, 12) + 1) % 0x1_0000_0000
  {
  }

  /** The i-th byte of the pad comes from the counter i / 16 steps on. */
  lemma {:induction false} PadAt(aes: Aes, key: Block, ctr: Block, n: nat, i: nat)
    requires i < n
    ensures Pad(aes, key, ctr, n)[i] == aes(key, Counter(ctr, i / 16))[i % 16]
    decreases n
  {
    hide Pad, Counter, NextCtr;
    PadBlock(aes, key, ctr, n);
    if i < 16 {
      CounterSteps(ctr, 0);
      assert n > 16 ==> Pad(aes, key, ctr, n)[i] == Pad(aes, key, ctr, n)[..16][i];
    } else {
      CounterSteps(ctr, (i - 16) / 16);
      PadAt(aes, key, NextCtr(ctr), n - 16, i - 16);
      assert Pad(aes, key, ctr, n)[i] == Pad(aes, key, ctr, n)[16..][i - 16];
    }
  }

  lemma WrapsOnce(a: uint32, k: nat)
    ensures ((a + 1) % 0x1_0000_0000 + k) % 0x1_0000_0000 == (a + (k + 1)) % 0x1_0000_0000
  {
  }

  // ----- TPM_CreateEncAuth.

  datatype Kind = OIAP | OSAP | DSAP | TRAN

  const TPM_ET_AES128_CTR: nat := 0x06

  /** struct session: the session type, its handle and nonce, the password digest kept for every
      type, and the shared secret and entity type of the types that have them. */
  datatype Session = Session(kind: Kind, handle: uint32, enonce: Digest, authdata: Digest, ssecret: Digest,
                             etype: uint16)

  function GetAuth(s: Session): Digest {
    if s.kind.OIAP? || s.kind.TRAN? then s.authdata else s.ssecret
  }

  predicate UsesXor(s: Session) {
    !((s.kind.OSAP? || s.kind.DSAP?) && s.etype / 0x100 == TPM_ET_AES128_CTR)
  }

  /** What either end makes of a value, to encrypt as well as to decrypt it. */
  function EncAuth(sha1: Hash, aes: Aes, secret: Digest, nonce: Digest, xor: bool, value: Digest): Digest {
    if xor then XorSeq(sha1(secret + nonce), value)
    else XorSeq(value, Pad(aes, secret[..16], nonce[..16], 20))
  }

  /** Decrypting with the same secret, nonce and mode gives the value back. */
  lemma EncAuthTwice(sha1: Hash, aes: Aes, secret: Digest, nonce: Digest, xor: bool, value: Digest)
    ensures EncAuth(sha1, aes, secret, nonce, xor, EncAuth(sha1, aes, secret, nonce, xor, value)) == value
  {
    hide XorSeq, Pad;
    if xor {
      XorSeqCancels(value, sha1(secret + nonce));
    } else {
      XorSeqCancels(value, Pad(aes, secret[..16], nonce[..16], 20));
    }
  }

  /** What the value is XORed with, byte by byte, told from the session's fields. */
  function MaskByte(sha1: Hash, aes: Aes, sess: Session, nonce: Digest, i: nat): byte
    requires i < 20
  {
    var shared := sess.kind.OSAP? || sess.kind.DSAP?;
    var secret := if shared then sess.ssecret else sess.authdata;
    if shared && sess.etype / 0x100 == 6
    then aes(secret[..16], nonce[..12] + BE32((Load32(nonce, 12) + i / 16) % 0x1_0000_0000))[i % 16]
    else sha1(secret + nonce)[i]
  }

  /** The output, bit by bit, is the value XORed with a digest over the secret and then the nonce, or
      with AES under the first half of the secret from a counter that is the first half of the nonce.
      The even nonce serves as long as the caller names no odd one. */
  method CreateEncAuth(sha1: Hash, aes: Aes, sess: Session, value: Digest, out: array<byte>, nonceodd: Option<Digest>)
    requires out.Length == 20
    modifies out
    ensures out[..] == EncAuth(sha1, aes, GetAuth(sess), if nonceodd.None? then sess.enonce else nonceodd.value,
                               UsesXor(sess), value)
    ensures forall i :: 0 <= i < 20 ==>
              var nonce := if nonceodd.None? then sess.enonce else nonceodd.value;
              XorOf(out[i], value[i], MaskByte(sha1, aes, sess, nonce, i))
  {
    hide XorSeq, Pad, LastCtr, XorOf, Load32, BE32, Counter;
    var nonce := if nonceodd.None? then sess.enonce else nonceodd.value;
    if !UsesXor(sess) {
      var ctr := new byte[16](i requires 0 <= i < 16 => nonce[i]);
      assert ctr[..] == nonce[..16];
      CtrEncrypt(aes, GetAuth(sess)[..16], ctr, value, out);
      assert out[..] == out[..20];
      SameCounter(nonce);
      assert forall i :: 0 <= i < 20 ==> out[i] == out[..20][i];
    } else {
      var xorhash := sha1(GetAuth(sess) + nonce);
      TpmXor(out, 0, xorhash, value);
      assert out[..] == out[..20];
      forall i | 0 <= i < 20 ensures XorOf(out[i], value[i], xorhash[i]) {
        assert out[i] == out[..20][i];
        XorSeqBitwise(xorhash, value, i);
        XorOfSwap(out[i], xorhash[i], value[i]);
      }
    }
  }

  lemma XorOfSwap(r: byte, a: byte, b: byte)
    ensures XorOf(r, a, b) <==> XorOf(r, b, a)
  {
  }

  lemma SameCounter(nonce: Digest)
    ensures forall k: nat ::
              Counter(nonce[..16], k) == nonce[..12] + BE32((Load32(nonce, 12) + k) % 0x1_0000_0000)
  {
  }
}
