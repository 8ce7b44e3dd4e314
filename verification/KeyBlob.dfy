/** Walking a serialized key by its length fields: its size, and the public key cut out of it. */
module KeyBlob {
  import opened Bytes

  const ERR_MASK: nat := 0x8000_0000

  /** TPM_PUBKEY, and the TPM_KEY of sections 10.5 and 10.2 of the TPM structures. */
  datatype Pub = Pub(algorithm: uint32, encScheme: uint16, sigScheme: uint16, parms: Blob, modulus: Blob)

  datatype Key = Key(ver: Version, usage: uint16, flags: uint32, authDataUsage: byte,
                     pub: Pub, pcrInfo: Blob, encData: Blob)

  type Version = s: seq<byte> | |s| == 4 witness [0, 0, 0, 0]

  /** TPM_KEY_PARMS. */
  function KeyParms(p: Pub): seq<byte> {
    BE32(p.algorithm) + BE16(p.encScheme) + BE16(p.sigScheme) + Sized(p.parms)
  }

  /** The public part, with the PCR information that stands before the modulus only in a key. */
  function PubPart(p: Pub, pcrInfo: Option<Blob>): seq<byte> {
    KeyParms(p) + (if pcrInfo.Some? then Sized(pcrInfo.value) else []) + Sized(p.modulus)
  }

  function PubKey(p: Pub): seq<byte> {
    PubPart(p, None)
  }

  function KeyHead(k: Key): seq<byte> {
    k.ver + BE16(k.usage) + BE32(k.flags) + [k.authDataUsage]
  }

  function KeyBytes(k: Key): seq<byte> {
    KeyHead(k) + PubPart(k.pub, Some(k.pcrInfo)) + Sized(k.encData)
  }

  // ----- What the length fields say about a buffer.

  /** A sized field at a position, told apart from its neighbours by its length alone. */
  lemma SizedReads(buf: seq<byte>, at: nat, b: Blob)
    requires At(buf, at, Sized(b))
    ensures at + 4 + |b| <= |buf| && Load32(buf, at) == |b| && At(buf, at + 4, b)
  {
    SizedAt(buf, at, b);
    hide Load32;
  }

  /** The fields of a public part lie where the walk looks for them. */
  lemma PubPartReads(buf: seq<byte>, at: nat, p: Pub, pcrInfo: Option<Blob>)
    requires At(buf, at, PubPart(p, pcrInfo))
    ensures var afterParms := at + 12 + |p.parms|;
            var beforeModulus := afterParms + if pcrInfo.Some? then 4 + |pcrInfo.value| else 0;
            && At(buf, at, KeyParms(p)) && |KeyParms(p)| == 12 + |p.parms|
            && At(buf, at + 8, Sized(p.parms))
            && (pcrInfo.Some? ==> At(buf, afterParms, Sized(pcrInfo.value)))
            && At(buf, beforeModulus, Sized(p.modulus))
            && |PubPart(p, pcrInfo)| == beforeModulus + 4 + |p.modulus| - at
  {
    hide At;
    var info := if pcrInfo.Some? then Sized(pcrInfo.value) else [];
    AtSplit(buf, at, KeyParms(p) + info, Sized(p.modulus));
    AtSplit(buf, at, KeyParms(p), info);
    AtSplit(buf, at, BE32(p.algorithm) + BE16(p.encScheme) + BE16(p.sigScheme), Sized(p.parms));
  }

  lemma KeyReads(buf: seq<byte>, at: nat, k: Key)
    requires At(buf, at, KeyBytes(k))
    ensures var body := PubPart(k.pub, Some(k.pcrInfo));
            && At(buf, at + 11, body) && At(buf, at + 11 + |body|, Sized(k.encData))
            && |KeyBytes(k)| == 11 + |body| + 4 + |k.encData|
  {
    var body := PubPart(k.pub, Some(k.pcrInfo));
    AtSplit(buf, at, KeyHead(k) + body, Sized(k.encData));
    AtSplit(buf, at, KeyHead(k), body);
    hide At, PubPart;
  }

  /** The fields of fixed size that precede the sized ones, each at its offset in a key. */
  lemma KeyHeadReads(buf: seq<byte>, at: nat, k: Key)
    requires At(buf, at, KeyBytes(k))
    ensures |buf| >= at + 23
    ensures buf[at..at + 4] == k.ver && Load16(buf, at + 4) == k.usage && Load32(buf, at + 6) == k.flags
    ensures buf[at + 10] == k.authDataUsage
    ensures Load32(buf, at + 11) == k.pub.algorithm
    ensures Load16(buf, at + 15) == k.pub.encScheme && Load16(buf, at + 17) == k.pub.sigScheme
  {
    var p, usage, flags := k.pub, BE16(k.usage), BE32(k.flags);
    var alg, enc, sig := BE32(p.algorithm), BE16(p.encScheme), BE16(p.sigScheme);
    var info := Some(k.pcrInfo);
    KeyReads(buf, at, k);
    PubPartReads(buf, at + 11, p, info);
    AtSplit(buf, at, KeyHead(k) + PubPart(p, info), Sized(k.encData));
    AtSplit(buf, at, KeyHead(k), PubPart(p, info));
    AtSplit(buf, at, k.ver + usage + flags, [k.authDataUsage]);
    AtSplit(buf, at, k.ver + usage, flags);
    AtSplit(buf, at, k.ver, usage);
    AtSplit(buf, at + 11, alg + enc + sig, Sized(p.parms));
    AtSplit(buf, at + 11, alg + enc, sig);
    AtSplit(buf, at + 11, alg, enc);
    Load16At(buf, at + 4, k.usage);
    Load32At(buf, at + 6, k.flags);
    Load32At(buf, at + 11, p.algorithm);
    Load16At(buf, at + 15, p.encScheme);
    Load16At(buf, at + 17, p.sigScheme);
    hide BE16, BE32, Load16, Load32, Sized, PubPart;
    assert buf[at + 10..at + 11][0] == k.authDataUsage;
  }

  // ----- The walkers.

  /** tb->used, with what the buffer holds beyond it. */
  datatype Buffer = Buffer(bytes: seq<byte>, used: nat) {
    predicate Valid() {
      used <= |bytes| < ERR_MASK
    }
  }

  /** The one public part that the walk refuses: its modulus is empty and nothing follows it. */
  predicate CutShort(tb: Buffer, at: nat, p: Pub, pcrInfo: Option<Blob>) {
    p.modulus == [] && at + |PubPart(p, pcrInfo)| == tb.used
  }

  predicate PubPartAt(tb: Buffer, at: nat, p: Pub, pcrInfo: Option<Blob>) {
    at + |PubPart(p, pcrInfo)| <= tb.used && At(tb.bytes, at, PubPart(p, pcrInfo))
  }

  /** Past the sized field at a position, when its length can be read with a byte to spare. */
  function Skip(tb: Buffer, at: nat): Option<nat>
    requires tb.Valid()
  {
    if at + 4 >= tb.used then None else Some(at + 4 + Load32(tb.bytes, at))
  }

  /** The end of a public part, found by skipping its two or three sized fields. */
  function PubEnd(tb: Buffer, at: nat, pcrpresent: bool): Option<nat>
    requires tb.Valid()
  {
    match Skip(tb, at + 8)
    case None => None
    case Some(afterParms) =>
      match if pcrpresent then Skip(tb, afterParms) else Some(afterParms)
      case None => None
      case Some(beforeModulus) =>
        match Skip(tb, beforeModulus)
        case None => None
        case Some(end) => if end > tb.used then None else Some(end)
  }

  /** Wherever a public part stands, in whatever buffer, the walk ends where it ends, unless an
      empty modulus ends the buffer. */
  lemma WalkFollowsPart(tb: Buffer, at: nat, p: Pub, pcrInfo: Option<Blob>)
    requires tb.Valid() && PubPartAt(tb, at, p, pcrInfo)
    ensures PubEnd(tb, at, pcrInfo.Some?) ==
            if CutShort(tb, at, p, pcrInfo) then None else Some(at + |PubPart(p, pcrInfo)|)
  {
    hide At, PubPart, KeyParms, Sized, Skip;
    PubPartReads(tb.bytes, at, p, pcrInfo);
    var afterParms := at + 12 + |p.parms|;
    var beforeModulus := afterParms + if pcrInfo.Some? then 4 + |pcrInfo.value| else 0;
    Skips(tb, at + 8, p.parms);
    if pcrInfo.Some? {
      Skips(tb, afterParms, pcrInfo.value);
    }
    Skips(tb, beforeModulus, p.modulus);
  }

  lemma Skips(tb: Buffer, at: nat, b: Blob)
    requires tb.Valid() && At(tb.bytes, at, Sized(b))
    ensures Skip(tb, at) == if at + 4 >= tb.used then None else Some(at + 4 + |b|)
  {
  }

  /** And where the walk ends, a public part that ends there does stand. */
  lemma WalkFindsPart(tb: Buffer, at: nat, pcrpresent: bool) returns (p: Pub, pcrInfo: Option<Blob>)
    requires tb.Valid() && PubEnd(tb, at, pcrpresent).Some?
    ensures PubPartAt(tb, at, p, pcrInfo) && pcrInfo.Some? == pcrpresent
    ensures at + |PubPart(p, pcrInfo)| == PubEnd(tb, at, pcrpresent).value
  {
    hide At, Load32, BE32, BE16, Load16;
    var buf := tb.bytes;
    var parms, afterParms := SkippedAt(tb, at + 8);
    var beforeModulus := afterParms;
    pcrInfo := None;
    if pcrpresent {
      var info;
      info, beforeModulus := SkippedAt(tb, afterParms);
      pcrInfo := Some(info);
    }
    var modulus, end := SkippedAt(tb, beforeModulus);
    var alg, enc, sig := Load32(buf, at), Load16(buf, at + 4), Load16(buf, at + 6);
    p := Pub(alg, enc, sig, parms, modulus);
    WordAt(buf, at);
    HalfWordAt(buf, at + 4);
    HalfWordAt(buf, at + 6);
    AtSplit(buf, at, BE32(alg), BE16(enc));
    AtSplit(buf, at, BE32(alg) + BE16(enc), BE16(sig));
    AtSplit(buf, at, BE32(alg) + BE16(enc) + BE16(sig), Sized(parms));
    var between := if pcrInfo.Some? then Sized(pcrInfo.value) else [];
    assert At(buf, at, KeyParms(p));
    assert At(buf, at + |KeyParms(p)|, between) by {
      if pcrpresent { assert afterParms == at + |KeyParms(p)|; }
      AtNothing(buf, at + |KeyParms(p)|);
    }
    AtSplit(buf, at, KeyParms(p), between);
    assert At(buf, at, KeyParms(p) + between);
    AtSplit(buf, at, KeyParms(p) + between, Sized(modulus));
  }

  lemma SkippedAt(tb: Buffer, at: nat) returns (b: Blob, end: nat)
    requires tb.Valid() && Skip(tb, at).Some? && Skip(tb, at).value <= tb.used
    ensures At(tb.bytes, at, Sized(b)) && end == Skip(tb, at).value == at + |Sized(b)|
  {
    end := Skip(tb, at).value;
    b := tb.bytes[at + 4..end];
    WordAt(tb.bytes, at);
    assert At(tb.bytes, at + 4, b);
    AtSplit(tb.bytes, at, BE32(|b|), b);
  }

  method PubKeySize(tb: Buffer, offset: nat, pcrpresent: bool) returns (ret: nat)
    requires tb.Valid()
    ensures ret == match PubEnd(tb, offset, pcrpresent)
                   case None => ERR_STRUCTURE
                   case Some(end) => end - offset
  {
    hide Load32;
    var off := offset + 8;
    if off + 4 >= tb.used {
      return ERR_STRUCTURE;
    }
    var parmsize := Load32(tb.bytes, off);
    off := off + 4;
    off := off + parmsize;
    if pcrpresent {
      if off + 4 >= tb.used {
        return ERR_STRUCTURE;
      }
      var pcrisize := Load32(tb.bytes, off);
      off := off + 4;
      off := off + pcrisize;
    }
    if off + 4 >= tb.used {
      return ERR_STRUCTURE;
    }
    var keylength := Load32(tb.bytes, off);
    off := off + 4;
    off := off + keylength;
    if off > tb.used {
      return ERR_STRUCTURE;
    }
    return off - offset;
  }

  /** A key's private part is skipped by a length that is read without a check; `beyond` is what is
      read past the end of the buffer. */
  method KeySize(tb: Buffer, offset: nat, beyond: uint32) returns (ret: nat)
    requires tb.Valid()
    ensures forall k: Key :: KeyAt(tb, offset, k) ==> ret == |KeyBytes(k)|
    ensures match PubEnd(tb, offset + 11, true)
            case None => ret == ERR_STRUCTURE
            case Some(end) =>
              ret == end + 4 + (if end + 4 <= |tb.bytes| then Load32(tb.bytes, end) else beyond) - offset
  {
    hide Load32, KeyBytes, At, Skip;
    var off: nat := offset + 11;
    var len := PubKeySize(tb, off, true);
    if len >= ERR_MASK {
      ret := len;
    } else {
      off := off + len;
      var privkeylen := if off + 4 <= |tb.bytes| then Load32(tb.bytes, off) else beyond;
      off := off + (4 + privkeylen);
      ret := off - offset;
    }
    forall k: Key | KeyAt(tb, offset, k) ensures ret == |KeyBytes(k)| {
      WalkFollowsKey(tb, offset, k);
    }
  }

  predicate KeyAt(tb: Buffer, at: nat, k: Key) {
    at + |KeyBytes(k)| <= tb.used && At(tb.bytes, at, KeyBytes(k))
  }

  /** In a key even an empty modulus is followed by a length, so the walk never stops short. */
  lemma WalkFollowsKey(tb: Buffer, at: nat, k: Key)
    requires tb.Valid() && KeyAt(tb, at, k)
    ensures PubEnd(tb, at + 11, true).Some?
    ensures var end := PubEnd(tb, at + 11, true).value;
            end + 4 <= |tb.bytes| && end + 4 + Load32(tb.bytes, end) == at + |KeyBytes(k)|
  {
    var body := PubPart(k.pub, Some(k.pcrInfo));
    hide At, PubPart, PubEnd, KeyBytes, Sized, Load32;
    KeyReads(tb.bytes, at, k);
    WalkFollowsPart(tb, at + 11, k.pub, Some(k.pcrInfo));
    SizedReads(tb.bytes, at + 11 + |body|, k.encData);
  }

  /** The three runs of bytes that Key2Pub copies make up the public key. */
  lemma KeyFields(buf: seq<byte>, k: Key)
    requires At(buf, 0, KeyBytes(k))
    ensures var p, n := k.pub, 23 + |k.pub.parms|;
            && n + 8 + |k.pcrInfo| + |p.modulus| <= |buf|
            && Load32(buf, 19) == |p.parms| && Load32(buf, n) == |k.pcrInfo|
            && Load32(buf, n + 4 + |k.pcrInfo|) == |p.modulus|
            && buf[11..23] + buf[23..n] + buf[n + 4 + |k.pcrInfo|..n + 8 + |k.pcrInfo| + |p.modulus|] == PubKey(p)
            && |PubKey(p)| == 16 + |p.parms| + |p.modulus|
  {
    var p, info := k.pub, Some(k.pcrInfo);
    var n := 23 + |p.parms|;
    hide KeyParms, KeyBytes, Load32, BE32;
    KeyReads(buf, 0, k);
    PubPartReads(buf, 11, p, info);
    SizedReads(buf, 19, p.parms);
    SizedReads(buf, n, k.pcrInfo);
    SizedReads(buf, n + 4 + |k.pcrInfo|, p.modulus);
    assert buf[11..23] + buf[23..n] == buf[11..n];
    assert KeyParms(p) + [] == KeyParms(p);
  }

  /** The public key cut out of a key: the key parameters and the sized modulus, brought together in
      place around the PCR information left out between them. */
  method Key2Pub(keybuff: seq<byte>, pkey: array<byte>, ghost k: Key) returns (plen: nat)
    requires At(keybuff, 0, KeyBytes(k)) && |PubKey(k.pub)| <= pkey.Length
    modifies pkey
    ensures plen == |PubKey(k.pub)|
    ensures pkey[..plen] == PubKey(k.pub)
    ensures forall i :: plen <= i < pkey.Length ==> pkey[i] == old(pkey[i])
  {
    hide At, PubKey, KeyBytes, PubPart, KeyParms, Load32, Sized;
    KeyFields(keybuff, k);
    var srcoff1, dstoff1, len1 := 4 + 2 + 4 + 1, 0, 4 + 2 + 2 + 4;
    Copy(pkey, dstoff1, keybuff[srcoff1..srcoff1 + len1]);
    var dstoff2, srcoff2 := dstoff1 + len1, srcoff1 + len1;
    var pointer: nat := srcoff1 + 4 + 2 + 2;
    var parmsize: nat := Load32(keybuff, pointer);
    var len2 := parmsize;
    Copy(pkey, dstoff2, keybuff[srcoff2..srcoff2 + len2]);
    pointer := pointer + 4 + parmsize;
    var pcrisize: nat := Load32(keybuff, pointer);
    pointer := pointer + 4 + pcrisize;
    var pubksize: nat := Load32(keybuff, pointer);
    var dstoff3, srcoff3 := dstoff2 + len2, pointer;
    var len3 := pubksize + 4;
    Copy(pkey, dstoff3, keybuff[srcoff3..srcoff3 + len3]);
    plen := len1 + len2 + len3;
    Assembled(pkey[..], keybuff[srcoff1..srcoff1 + len1], keybuff[srcoff2..srcoff2 + len2],
              keybuff[srcoff3..srcoff3 + len3]);
  }

  lemma Assembled(s: seq<byte>, a: seq<byte>, b: seq<byte>, c: seq<byte>)
    requires |a| + |b| + |c| <= |s|
    requires forall i :: 0 <= i < |a| ==> s[i] == a[i]
    requires forall i :: |a| <= i < |a| + |b| ==> s[i] == b[i - |a|]
    requires forall i :: |a| + |b| <= i < |a| + |b| + |c| ==> s[i] == c[i - |a| - |b|]
    ensures s[..|a| + |b| + |c|] == a + b + c
  {
  }
}
