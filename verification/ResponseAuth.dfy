/** Checking the authorization blocks at the end of a TPM response. */
module ResponseAuth {
  import opened Bytes
  import opened AuditWire
  import opened Hmac

  const TPM_TAG_RSP_COMMAND: uint16 := 0xC4
  const TPM_TAG_RSP_AUTH1_COMMAND: uint16 := 0xC5
  const TPM_TAG_RSP_AUTH2_COMMAND: uint16 := 0xC6

  /** A length and an offset in the response; a list of them ends at the first zero length. */
  datatype Pair = Pair(len: nat, off: nat)

  function Gathered(buf: seq<byte>, pairs: seq<Pair>): seq<byte>
    requires !LeavesBuffer(buf, pairs)
  {
    if pairs == [] || pairs[0].len == 0 then []
    else buf[pairs[0].off..pairs[0].off + pairs[0].len] + Gathered(buf, pairs[1..])
  }

  predicate LeavesBuffer(buf: seq<byte>, pairs: seq<Pair>) {
    pairs != [] && pairs[0].len != 0 &&
    (pairs[0].off + pairs[0].len > |buf| || LeavesBuffer(buf, pairs[1..]))
  }

  /** The pairs cover lo..hi in order, once, with no gap and no overlap. */
  predicate Tiles(pairs: seq<Pair>, lo: nat, hi: nat) {
    if pairs == [] || pairs[0].len == 0 then lo == hi
    else pairs[0].off == lo && Tiles(pairs[1..], lo + pairs[0].len, hi)
  }

  lemma {:induction false} TilesGather(buf: seq<byte>, pairs: seq<Pair>, lo: nat, hi: nat)
    requires Tiles(pairs, lo, hi) && hi <= |buf|
    ensures lo <= hi && !LeavesBuffer(buf, pairs) && Gathered(buf, pairs) == buf[lo..hi]
  {
    if pairs != [] && pairs[0].len != 0 {
      TilesGather(buf, pairs[1..], lo + pairs[0].len, hi);
      assert buf[lo..hi] == buf[lo..lo + pairs[0].len] + buf[lo + pairs[0].len..hi];
    }
  }

  // ----- The auth blocks, found from the end of the response.

  /** The TPM's nonce, the continue flag and the MAC of the block that ends at `end`. */
  function Even(buf: seq<byte>, end: nat): Digest
    requires 41 <= end <= |buf|
  {
    buf[end - 41..end - 21]
  }

  function Cont(buf: seq<byte>, end: nat): byte
    requires 41 <= end <= |buf|
  {
    buf[end - 21]
  }

  function MacField(buf: seq<byte>, end: nat): Digest
    requires 41 <= end <= |buf|
  {
    buf[end - 20..end]
  }

  /** What the source relies on: the size field, which TPM_Transmit has compared with the bytes
      received, leaves room for the tag's auth blocks. */
  predicate Framed(buf: seq<byte>) {
    |buf| >= 10 ==>
      && Load32(buf, 2) == |buf|
      && (Load16(buf, 0) == TPM_TAG_RSP_AUTH1_COMMAND ==> |buf| >= 41)
      && (Load16(buf, 0) == TPM_TAG_RSP_AUTH2_COMMAND ==> |buf| >= 82)
  }

  function ResponseParms(buf: seq<byte>, command: uint32, pairs: seq<Pair>): seq<byte>
    requires |buf| >= 10 && !LeavesBuffer(buf, pairs)
  {
    buf[6..10] + BE32(command) + Gathered(buf, pairs)
  }

  /** The block that ends at `end` carries the MAC of what the client saw. */
  predicate BlockMatches(sha1: Hash, mac: Mac, key: seq<byte>, buf: seq<byte>, end: nat, odd: Digest, parms: seq<byte>)
    requires 41 <= end <= |buf|
  {
    MacField(buf, end) == CommandMac(sha1, mac, key, parms, Even(buf, end), odd, Cont(buf, end))
  }

  lemma GatherStep(buf: seq<byte>, pairs: seq<Pair>, bytes: seq<byte>)
    requires pairs != [] && pairs[0].len != 0
    ensures LeavesBuffer(buf, pairs) <==> pairs[0].off + pairs[0].len > |buf| || LeavesBuffer(buf, pairs[1..])
    ensures !LeavesBuffer(buf, pairs) ==>
              bytes + Gathered(buf, pairs) ==
              bytes + buf[pairs[0].off..pairs[0].off + pairs[0].len] + Gathered(buf, pairs[1..])
  {
  }

  lemma GatherEnd(buf: seq<byte>, pairs: seq<Pair>, bytes: seq<byte>)
    requires pairs == [] || pairs[0].len == 0
    ensures !LeavesBuffer(buf, pairs) && bytes + Gathered(buf, pairs) == bytes
  {
  }

  /** The loop of both checks over the length and offset pairs. */
  method Gather(buf: seq<byte>, pairs: seq<Pair>) returns (ok: bool, bytes: seq<byte>)
    ensures ok <==> !LeavesBuffer(buf, pairs)
    ensures ok ==> bytes == Gathered(buf, pairs)
  {
    hide LeavesBuffer, Gathered;
    bytes := [];
    var i := 0;
    ghost var rest := pairs;
    while i < |pairs| && pairs[i].len != 0
      invariant 0 <= i <= |pairs| && rest == pairs[i..]
      invariant LeavesBuffer(buf, rest) <==> LeavesBuffer(buf, pairs)
      invariant !LeavesBuffer(buf, pairs) ==> bytes + Gathered(buf, rest) == Gathered(buf, pairs)
    {
      GatherStep(buf, rest, bytes);
      if pairs[i].off + pairs[i].len > |buf| {
        return false, [];
      }
      bytes := bytes + buf[pairs[i].off..pairs[i].off + pairs[i].len];
      rest := rest[1..];
      i := i + 1;
    }
    GatherEnd(buf, rest, bytes);
    return true, bytes;
  }

  method CheckHmac1(sha1: Hash, mac: Mac, tb: seq<byte>, command: uint32, odd: Digest, key: seq<byte>, pairs: seq<Pair>)
    returns (ret: uint32)
    requires Framed(tb)
    ensures |tb| < 10 ==> ret == ERR_BUFFER
    ensures |tb| >= 10 ==>
      match Load16(tb, 0)
      case 0xC4 => ret == 0
      case 0xC5 =>
        if LeavesBuffer(tb, pairs) then ret == ERR_BUFFER
        else ret == if BlockMatches(sha1, mac, key, tb, |tb|, odd, ResponseParms(tb, command, pairs)) then 0
                    else ERR_HMAC_FAIL
      case _ => ret == ERR_HMAC_FAIL
  {
    if |tb| < 10 {
      return ERR_BUFFER;
    }
    var bufsize, tag := Load32(tb, 2), Load16(tb, 0);
    if tag == TPM_TAG_RSP_COMMAND {
      return 0;
    }
    if tag != TPM_TAG_RSP_AUTH1_COMMAND {
      return ERR_HMAC_FAIL;
    }
    var authdata := bufsize - 20;
    var continueflag := authdata - 1;
    var enonce := continueflag - 20;
    var ok, bytes := Gather(tb, pairs);
    if !ok {
      return ERR_BUFFER;
    }
    var paramdigest := sha1(tb[6..10] + BE32(command) + bytes);
    var even, mine := tb[enonce..enonce + 20], [tb[continueflag]];
    FourChunks(paramdigest, even, odd, mine);
    var testhmac;
    ret, testhmac := RawHmac(mac, key, [Chunk(paramdigest), Chunk(even), Chunk(odd), Chunk(mine)]);
    if testhmac != tb[authdata..authdata + 20] {
      return ERR_HMAC_FAIL;
    }
    return 0;
  }

  method CheckHmac2(sha1: Hash, mac: Mac, tb: seq<byte>, command: uint32,
                    odd1: Digest, key1: seq<byte>, odd2: Digest, key2: seq<byte>, pairs: seq<Pair>)
    returns (ret: uint32)
    requires Framed(tb)
    ensures |tb| < 10 ==> ret == ERR_BUFFER
    ensures |tb| >= 10 ==>
      match Load16(tb, 0)
      case 0xC4 => ret == 0
      case 0xC6 =>
        if LeavesBuffer(tb, pairs) then ret == ERR_BUFFER
        else ret == if && BlockMatches(sha1, mac, key1, tb, |tb| - 41, odd1, ResponseParms(tb, command, pairs))
                       && BlockMatches(sha1, mac, key2, tb, |tb|, odd2, ResponseParms(tb, command, pairs))
                    then 0 else ERR_HMAC_FAIL
      case _ => ret == ERR_HMAC_FAIL
  {
    if |tb| < 10 {
      return ERR_BUFFER;
    }
    var bufsize, tag := Load32(tb, 2), Load16(tb, 0);
    if tag == TPM_TAG_RSP_COMMAND {
      return 0;
    }
    if tag != TPM_TAG_RSP_AUTH2_COMMAND {
      return ERR_HMAC_FAIL;
    }
    var authdata1, authdata2 := bufsize - (20 + 1 + 20 + 20), bufsize - 20;
    var continueflag1, continueflag2 := authdata1 - 1, authdata2 - 1;
    var enonce1, enonce2 := continueflag1 - 20, continueflag2 - 20;
    var ok, bytes := Gather(tb, pairs);
    if !ok {
      return ERR_BUFFER;
    }
    var paramdigest := sha1(tb[6..10] + BE32(command) + bytes);
    var even1, mine1 := tb[enonce1..enonce1 + 20], [tb[continueflag1]];
    var even2, mine2 := tb[enonce2..enonce2 + 20], [tb[continueflag2]];
    var testhmac1, testhmac2;
    FourChunks(paramdigest, even1, odd1, mine1);
    ret, testhmac1 := RawHmac(mac, key1, [Chunk(paramdigest), Chunk(even1), Chunk(odd1), Chunk(mine1)]);
    FourChunks(paramdigest, even2, odd2, mine2);
    ret, testhmac2 := RawHmac(mac, key2, [Chunk(paramdigest), Chunk(even2), Chunk(odd2), Chunk(mine2)]);
    if testhmac1 != tb[authdata1..authdata1 + 20] {
      return ERR_HMAC_FAIL;
    }
    if testhmac2 != tb[authdata2..authdata2 + 20] {
      return ERR_HMAC_FAIL;
    }
    return 0;
  }

  // ----- What the checks mean.

  /** What one end of a session takes a response to be. */
  datatype View = View(code: uint32, ordinal: uint32, parms: seq<byte>, even: Digest, odd: Digest, cont: byte)

  function ViewParms(v: View): seq<byte> {
    BE32(v.code) + BE32(v.ordinal) + v.parms
  }

  function ViewText(sha1: Hash, v: View): seq<byte> {
    sha1(ViewParms(v)) + v.even + v.odd + [v.cont]
  }

  function ViewMac(sha1: Hash, mac: Mac, key: seq<byte>, v: View): Digest {
    mac(key, ViewText(sha1, v))
  }

  function Block(even: Digest, cont: byte, m: Digest): seq<byte> {
    even + [cont] + m
  }

  /** Neither the hash nor the MAC collides on what the two views make of the response. */
  predicate NoCollision(sha1: Hash, mac: Mac, key: seq<byte>, v: View, w: View) {
    && (sha1(ViewParms(v)) == sha1(ViewParms(w)) ==> ViewParms(v) == ViewParms(w))
    && (ViewMac(sha1, mac, key, v) == ViewMac(sha1, mac, key, w) ==> ViewText(sha1, v) == ViewText(sha1, w))
  }

  /** Without collisions the MAC under one key pins down the whole view. */
  lemma ViewMacInjective(sha1: Hash, mac: Mac, key: seq<byte>, v: View, w: View)
    requires NoCollision(sha1, mac, key, v, w)
    requires ViewMac(sha1, mac, key, v) == ViewMac(sha1, mac, key, w)
    ensures v == w
  {
    var p, q := ViewParms(v), ViewParms(w);
    SplitConcat(sha1(p) + v.even + v.odd, [v.cont], sha1(q) + w.even + w.odd, [w.cont]);
    SplitConcat(sha1(p) + v.even, v.odd, sha1(q) + w.even, w.odd);
    SplitConcat(sha1(p), v.even, sha1(q), w.even);
    assert [v.cont][0] == [w.cont][0];
    SplitConcat(BE32(v.code) + BE32(v.ordinal), v.parms, BE32(w.code) + BE32(w.ordinal), w.parms);
    SplitConcat(BE32(v.code), BE32(v.ordinal), BE32(w.code), BE32(w.ordinal));
    BE32Injective(v.code, w.code);
    BE32Injective(v.ordinal, w.ordinal);
  }

  function Response1(code: uint32, parms: seq<byte>, even: Digest, cont: byte, m: Digest): seq<byte>
    requires 10 + |parms| + 41 <= TPM_MAX_BUFF_SIZE
  {
    Message(TPM_TAG_RSP_AUTH1_COMMAND, code, parms + Block(even, cont, m))
  }

  function Response2(code: uint32, parms: seq<byte>, even1: Digest, cont1: byte, m1: Digest,
                     even2: Digest, cont2: byte, m2: Digest): seq<byte>
    requires 10 + |parms| + 82 <= TPM_MAX_BUFF_SIZE
  {
    Message(TPM_TAG_RSP_AUTH2_COMMAND, code, parms + Block(even1, cont1, m1) + Block(even2, cont2, m2))
  }

  /** Whatever a one-block response holds, the offsets from its end recover the block's fields,
      and pairs that tile the parameters digest exactly the code, the ordinal and them. */
  lemma Response1Fields(sha1: Hash, mac: Mac, key: seq<byte>, client: View, m: Digest, pairs: seq<Pair>)
    requires 10 + |client.parms| + 41 <= TPM_MAX_BUFF_SIZE && Tiles(pairs, 10, 10 + |client.parms|)
    ensures var buf := Response1(client.code, client.parms, client.even, client.cont, m);
            && |buf| >= 51 && Framed(buf) && Load16(buf, 0) == TPM_TAG_RSP_AUTH1_COMMAND && !LeavesBuffer(buf, pairs)
            && (BlockMatches(sha1, mac, key, buf, |buf|, client.odd, ResponseParms(buf, client.ordinal, pairs))
                <==> m == ViewMac(sha1, mac, key, client))
  {
    var buf, b := Response1(client.code, client.parms, client.even, client.cont, m), Block(client.even, client.cont, m);
    var n := |client.parms|;
    var body := client.parms + b;
    MessageFields(TPM_TAG_RSP_AUTH1_COMMAND, client.code, body);
    TilesGather(buf, pairs, 10, 10 + n);
    assert body[0..n] == client.parms && body[n..n + 41] == b;
    assert buf[10 + 0..10 + n] == body[0..n];
    assert buf[10 + n..10 + (n + 41)] == body[n..n + 41];
    BlockFields(buf, |buf|, client.even, client.cont, m);
    hide Message, BE32, Load32, Load16, Tiles, LeavesBuffer, Gathered, CommandMac;
  }

  lemma Response2Fields(sha1: Hash, mac: Mac, key1: seq<byte>, key2: seq<byte>, client1: View, client2: View,
                        m1: Digest, m2: Digest, pairs: seq<Pair>)
    requires client2.code == client1.code && client2.ordinal == client1.ordinal && client2.parms == client1.parms
    requires 10 + |client1.parms| + 82 <= TPM_MAX_BUFF_SIZE && Tiles(pairs, 10, 10 + |client1.parms|)
    ensures var buf := Response2(client1.code, client1.parms, client1.even, client1.cont, m1,
                                 client2.even, client2.cont, m2);
            && |buf| >= 92 && Framed(buf) && Load16(buf, 0) == TPM_TAG_RSP_AUTH2_COMMAND && !LeavesBuffer(buf, pairs)
            && (BlockMatches(sha1, mac, key1, buf, |buf| - 41, client1.odd, ResponseParms(buf, client1.ordinal, pairs))
                <==> m1 == ViewMac(sha1, mac, key1, client1))
            && (BlockMatches(sha1, mac, key2, buf, |buf|, client2.odd, ResponseParms(buf, client1.ordinal, pairs))
                <==> m2 == ViewMac(sha1, mac, key2, client2))
  {
    var buf := Response2(client1.code, client1.parms, client1.even, client1.cont, m1, client2.even, client2.cont, m2);
    var b1, b2 := Block(client1.even, client1.cont, m1), Block(client2.even, client2.cont, m2);
    var n := |client1.parms|;
    var body := client1.parms + b1 + b2;
    MessageFields(TPM_TAG_RSP_AUTH2_COMMAND, client1.code, body);
    TilesGather(buf, pairs, 10, 10 + n);
    assert body[0..n] == client1.parms && body[n..n + 41] == b1 && body[n + 41..n + 82] == b2;
    assert buf[10 + 0..10 + n] == body[0..n];
    assert buf[10 + n..10 + (n + 41)] == body[n..n + 41];
    assert buf[10 + (n + 41)..10 + (n + 82)] == body[n + 41..n + 82];
    BlockFields(buf, |buf| - 41, client1.even, client1.cont, m1);
    BlockFields(buf, |buf|, client2.even, client2.cont, m2);
    hide Message, BE32, Load32, Load16, Tiles, LeavesBuffer, Gathered, CommandMac;
  }

  lemma BlockFields(buf: seq<byte>, end: nat, even: Digest, cont: byte, m: Digest)
    requires 41 <= end <= |buf| && buf[end - 41..end] == Block(even, cont, m)
    ensures Even(buf, end) == even && Cont(buf, end) == cont && MacField(buf, end) == m
  {
    var b := buf[end - 41..end];
    assert b[..20] == even && b[20] == cont && b[21..] == m;
    assert buf[end - 41..end - 21] == b[..20] && buf[end - 20..end] == b[21..];
  }

  /** The AUTH1 check succeeds on a response that carries the MAC of what the TPM sent exactly
      when client and TPM agree on return code, ordinal, parameters, both nonces and the flag. */
  lemma Auth1Agreement(sha1: Hash, mac: Mac, key: seq<byte>, client: View, tpm: View, pairs: seq<Pair>)
    requires NoCollision(sha1, mac, key, tpm, client)
    requires 10 + |client.parms| + 41 <= TPM_MAX_BUFF_SIZE && Tiles(pairs, 10, 10 + |client.parms|)
    ensures var buf := Response1(client.code, client.parms, client.even, client.cont, ViewMac(sha1, mac, key, tpm));
            && |buf| >= 51 && !LeavesBuffer(buf, pairs)
            && (BlockMatches(sha1, mac, key, buf, |buf|, client.odd, ResponseParms(buf, client.ordinal, pairs))
                <==> client == tpm)
  {
    Response1Fields(sha1, mac, key, client, ViewMac(sha1, mac, key, tpm), pairs);
    if ViewMac(sha1, mac, key, tpm) == ViewMac(sha1, mac, key, client) {
      ViewMacInjective(sha1, mac, key, tpm, client);
    }
    hide BlockMatches, ViewMac, Response1, LeavesBuffer, ResponseParms, Tiles, NoCollision;
  }

  /** The same for both blocks of an AUTH2 response. */
  lemma Auth2Agreement(sha1: Hash, mac: Mac, key1: seq<byte>, key2: seq<byte>, client1: View, client2: View,
                       tpm1: View, tpm2: View, pairs: seq<Pair>)
    requires NoCollision(sha1, mac, key1, tpm1, client1) && NoCollision(sha1, mac, key2, tpm2, client2)
    requires client2.code == client1.code && client2.ordinal == client1.ordinal && client2.parms == client1.parms
    requires 10 + |client1.parms| + 82 <= TPM_MAX_BUFF_SIZE && Tiles(pairs, 10, 10 + |client1.parms|)
    ensures var buf := Response2(client1.code, client1.parms, client1.even, client1.cont,
                                 ViewMac(sha1, mac, key1, tpm1),
                                 client2.even, client2.cont, ViewMac(sha1, mac, key2, tpm2));
            && |buf| >= 92 && !LeavesBuffer(buf, pairs)
            && var parms := ResponseParms(buf, client1.ordinal, pairs);
               (&& BlockMatches(sha1, mac, key1, buf, |buf| - 41, client1.odd, parms)
                && BlockMatches(sha1, mac, key2, buf, |buf|, client2.odd, parms)
                <==> client1 == tpm1 && client2 == tpm2)
  {
    Response2Fields(sha1, mac, key1, key2, client1, client2, ViewMac(sha1, mac, key1, tpm1),
                    ViewMac(sha1, mac, key2, tpm2), pairs);
    if ViewMac(sha1, mac, key1, tpm1) == ViewMac(sha1, mac, key1, client1) {
      ViewMacInjective(sha1, mac, key1, tpm1, client1);
    }
    if ViewMac(sha1, mac, key2, tpm2) == ViewMac(sha1, mac, key2, client2) {
      ViewMacInjective(sha1, mac, key2, tpm2, client2);
    }
    hide BlockMatches, ViewMac, Response2, LeavesBuffer, ResponseParms, Tiles, NoCollision;
  }
}
