/** The two migration commands whose digests and response checks depend on which parts are empty. */
module Migrate {
  import opened Bytes
  import opened AuditWire
  import opened Hmac
  import opened ResponseAuth

  // ----- TPM_CMK_CreateBlob: the digested chunks.

  /** The parts of the command below the parent handle. */
  datatype CmkBlob = CmkBlob(scheme: uint16, migBlob: Blob, sourceKeyDigest: Digest,
                             msaList: Blob, resTicket: Blob, sigTicket: Blob, encData: Blob)

  /** The one uniform layout of the command's parameters on the wire. */
  function CmkBody(b: CmkBlob): seq<byte> {
    BE16(b.scheme) + b.migBlob + b.sourceKeyDigest +
    Sized(b.msaList) + Sized(b.resTicket) + Sized(b.sigTicket) + Sized(b.encData)
  }

  /** The whole request: the parent handle before those parameters, one auth block after them. */
  function CmkRequest(ordinal: uint32, parent: uint32, b: CmkBlob, auth: seq<byte>): seq<byte>
    requires 10 + 4 + |CmkBody(b)| + |auth| <= TPM_MAX_BUFF_SIZE
  {
    Message(0xC2, ordinal, BE32(parent) + CmkBody(b) + auth)
  }

  /** A sized part as the source lists it: an empty one without its data. */
  function SizedParts(b: Blob): seq<seq<byte>> {
    if b == [] then [BE32(0)] else [BE32(|b|), b]
  }

  function CmkParts(ordinal: uint32, b: CmkBlob): seq<seq<byte>> {
    [BE32(ordinal), BE16(b.scheme), b.migBlob, b.sourceKeyDigest] +
    [BE32(|b.msaList|), b.msaList] + SizedParts(b.resTicket) + SizedParts(b.sigTicket) + [BE32(|b.encData|), b.encData]
  }

  lemma ConcatAppend(a: seq<seq<byte>>, b: seq<seq<byte>>)
    ensures Concat(a + b) == Concat(a) + Concat(b)
  {
    if a == [] {
      assert a + b == b;
    } else {
      assert (a + b)[1..] == a[1..] + b;
      ConcatAppend(a[1..], b);
    }
  }

  lemma ConcatFour(a: seq<byte>, b: seq<byte>, c: seq<byte>, d: seq<byte>)
    ensures Concat([a, b, c, d]) == a + b + c + d
  {
    assert [a, b, c, d][1..] == [b, c, d] && [b, c, d][1..] == [c, d] && [c, d][1..] == [d];
    assert Concat([d]) == d && Concat([c, d]) == c + d;
  }

  lemma ConcatSized(b: Blob)
    ensures Concat(SizedParts(b)) == Sized(b) && Concat([BE32(|b|), b]) == Sized(b)
    ensures forall i :: 0 <= i < |SizedParts(b)| ==> SizedParts(b)[i] != []
  {
    assert [BE32(|b|), b][1..] == [b] && Concat([b]) == b;
    if b == [] {
      assert Concat([BE32(0)]) == BE32(0);
    }
  }

  /** In all four cases of empty and non-empty tickets the digest covers the ordinal and exactly
      the bytes between the parent handle and the auth block, provided the migration blob and the
      MSA list are not empty; an empty one cuts the digest off there. */
  lemma CmkDigestExactly(ordinal: uint32, parent: uint32, b: CmkBlob, auth: seq<byte>)
    requires 10 + 4 + |CmkBody(b)| + |auth| <= TPM_MAX_BUFF_SIZE
    ensures var wire, fed := CmkRequest(ordinal, parent, b, auth), Fed(AsChunks(CmkParts(ordinal, b)));
            && |wire| == 14 + |CmkBody(b)| + |auth|
            && (fed == wire[6..10] + wire[14..|wire| - |auth|] <==> b.migBlob != [] && b.msaList != [])
  {
    CmkConcat(ordinal, b);
    CmkWire(ordinal, parent, b, auth);
    FedWholeExactly(CmkParts(ordinal, b));
    WhichPartsEmpty(ordinal, b);
    hide Concat, CmkParts, CmkBody, CmkRequest, EmptyPartsLast, Fed, BE32;
  }

  /** A digest that does not: with an empty migration blob it ends before the source key's digest. */
  lemma EmptyBlobCutsDigest()
    ensures var b := CmkBlob(1, [], ZERO_DIGEST, [1], [], [], []);
            var wire, fed := CmkRequest(0x1B, 0x4000_0000, b, []), Fed(AsChunks(CmkParts(0x1B, b)));
            |wire| >= 14 && fed == BE32(0x1B) + BE16(1) && fed != wire[6..10] + wire[14..]
  {
    var b := CmkBlob(1, [], ZERO_DIGEST, [1], [], [], []);
    var parts := CmkParts(0x1B, b);
    CmkDigestExactly(0x1B, 0x4000_0000, b, []);
    AsChunksTail(parts);
    AsChunksTail(parts[1..]);
    AsChunksTail(parts[2..]);
    assert parts[1..][1..] == parts[2..];
    hide CmkRequest, BE32, BE16;
    assert Fed(AsChunks(parts[2..])) == [];
    assert Fed(AsChunks(parts[1..])) == BE16(1) + [];
  }

  lemma CmkConcat(ordinal: uint32, b: CmkBlob)
    ensures Concat(CmkParts(ordinal, b)) == BE32(ordinal) + CmkBody(b)
  {
    var head := [BE32(ordinal), BE16(b.scheme), b.migBlob, b.sourceKeyDigest];
    var msa, enc := [BE32(|b.msaList|), b.msaList], [BE32(|b.encData|), b.encData];
    ConcatFour(BE32(ordinal), BE16(b.scheme), b.migBlob, b.sourceKeyDigest);
    ConcatSized(b.msaList);
    ConcatSized(b.resTicket);
    ConcatSized(b.sigTicket);
    ConcatSized(b.encData);
    hide Sized, SizedParts, Concat, BE32, BE16;
    ConcatAppend(head, msa);
    ConcatAppend(head + msa, SizedParts(b.resTicket));
    ConcatAppend(head + msa + SizedParts(b.resTicket), SizedParts(b.sigTicket));
    ConcatAppend(head + msa + SizedParts(b.resTicket) + SizedParts(b.sigTicket), enc);
    Regroup(BE32(ordinal), BE16(b.scheme), b.migBlob, b.sourceKeyDigest,
            Sized(b.msaList), Sized(b.resTicket), Sized(b.sigTicket), Sized(b.encData));
  }

  lemma Regroup<T>(o: seq<T>, a: seq<T>, b: seq<T>, c: seq<T>, d: seq<T>, e: seq<T>, f: seq<T>, g: seq<T>)
    ensures o + a + b + c + d + e + f + g == o + (a + b + c + d + e + f + g)
  {
  }

  lemma CmkWire(ordinal: uint32, parent: uint32, b: CmkBlob, auth: seq<byte>)
    requires 10 + 4 + |CmkBody(b)| + |auth| <= TPM_MAX_BUFF_SIZE
    ensures var wire := CmkRequest(ordinal, parent, b, auth);
            && |wire| == 14 + |CmkBody(b)| + |auth|
            && wire[6..10] + wire[14..|wire| - |auth|] == BE32(ordinal) + CmkBody(b)
  {
  }

  lemma WhichPartsEmpty(ordinal: uint32, b: CmkBlob)
    ensures EmptyPartsLast(CmkParts(ordinal, b)) <==> b.migBlob != [] && b.msaList != []
  {
    var parts := CmkParts(ordinal, b);
    ConcatSized(b.msaList);
    ConcatSized(b.resTicket);
    ConcatSized(b.sigTicket);
    ConcatSized(b.encData);
    var last := |parts| - 1;
    assert parts[2] == b.migBlob && parts[3] == b.sourceKeyDigest && parts[5] == b.msaList && parts[last - 1] != [];
    assert forall i :: 0 <= i < last && i != 2 && i != 5 ==> parts[i] != [] by {
      hide SizedParts, BE32, BE16;
    }
  }

  /** The source's four calls, told apart by which of the two tickets is empty. */
  method CmkAuthorize(sha1: Hash, mac: Mac, key: seq<byte>, even: Digest, odd: Digest, ordinal: uint32, b: CmkBlob)
    returns (ret: uint32, authdata: Digest)
    ensures ret == 0 && authdata == CommandMac(sha1, mac, key, Fed(AsChunks(CmkParts(ordinal, b))), even, odd, 0)
  {
    hide Fed, CommandMac, BE32, BE16;
    var ord, scheme := Chunk(BE32(ordinal)), Chunk(BE16(b.scheme));
    var msaSize, resSize, sigSize, encSize :=
      Chunk(BE32(|b.msaList|)), Chunk(BE32(|b.resTicket|)), Chunk(BE32(|b.sigTicket|)), Chunk(BE32(|b.encData|));
    var migBlob, digest := Chunk(b.migBlob), Chunk(b.sourceKeyDigest);
    var msaList, encData := Chunk(b.msaList), Chunk(b.encData);
    var chunks;
    if b.resTicket != [] && b.sigTicket != [] {
      chunks := [ord, scheme, migBlob, digest, msaSize, msaList, resSize, Chunk(b.resTicket),
                 sigSize, Chunk(b.sigTicket), encSize, encData];
    } else if b.resTicket == [] && b.sigTicket == [] {
      chunks := [ord, scheme, migBlob, digest, msaSize, msaList, resSize, sigSize, encSize, encData];
    } else if b.sigTicket != [] {
      chunks := [ord, scheme, migBlob, digest, msaSize, msaList, resSize,
                 sigSize, Chunk(b.sigTicket), encSize, encData];
    } else {
      chunks := [ord, scheme, migBlob, digest, msaSize, msaList, resSize, Chunk(b.resTicket),
                 sigSize, encSize, encData];
    }
    assert chunks == AsChunks(CmkParts(ordinal, b));
    NoNullAsChunks(CmkParts(ordinal, b));
    ret, authdata := AuthHmac(sha1, mac, key, even, odd, 0, chunks);
  }

  lemma NoNullAsChunks(parts: seq<seq<byte>>)
    ensures !MeetsNull(AsChunks(parts))
  {
    if parts != [] {
      AsChunksTail(parts);
      NoNullAsChunks(parts[1..]);
    }
  }

  // ----- TPM_CreateMigrationBlob: the response.

  /** The listed pairs of lengths and offsets; an empty first field is left out of the list. */
  function MigrationPairs(size1: nat, size2: nat): seq<Pair> {
    if size1 != 0 then [Pair(4, 10), Pair(size1, 10 + 4), Pair(4, 10 + 4 + size1), Pair(size2, 10 + 4 + size1 + 4)]
    else [Pair(4, 10), Pair(4, 10 + 4), Pair(size2, 10 + 4 + 4)]
  }

  /** Both lists tile the output parameters, and the two regions copied out are the two fields. */
  lemma MigrationResponse(buf: seq<byte>, rnd: Blob, out: Blob)
    requires |buf| >= 10 + |Sized(rnd)| + |Sized(out)|
    requires buf[10..10 + |Sized(rnd)| + |Sized(out)|] == Sized(rnd) + Sized(out)
    ensures Load32(buf, 10) == |rnd| && Load32(buf, 14 + |rnd|) == |out|
    ensures buf[14..14 + |rnd|] == rnd && buf[18 + |rnd|..18 + |rnd| + |out|] == out
    ensures Tiles(MigrationPairs(|rnd|, |out|), 10, 10 + |Sized(rnd)| + |Sized(out)|)
  {
    var parms, n := Sized(rnd) + Sized(out), |Sized(rnd)|;
    assert buf[10..10 + n] == parms[..n] == Sized(rnd);
    assert buf[10 + n..10 + |parms|] == parms[n..] == Sized(out);
    SizedAt(buf, 10, rnd);
    SizedAt(buf, 10 + n, out);
    MigrationTiles(|rnd|, |out|);
  }

  lemma TilesCons(p: Pair, rest: seq<Pair>, lo: nat, hi: nat)
    requires p.len != 0 && p.off == lo && Tiles(rest, lo + p.len, hi)
    ensures Tiles([p] + rest, lo, hi)
  {
  }

  lemma MigrationTiles(size1: nat, size2: nat)
    ensures Tiles(MigrationPairs(size1, size2), 10, 18 + size1 + size2)
  {
    var end, last := 18 + size1 + size2, Pair(size2, 18 + size1);
    assert Tiles([last], 18 + size1, end) by {
      assert [last][1..] == [];
    }
    TilesCons(Pair(4, 14 + size1), [last], 14 + size1, end);
    if size1 != 0 {
      TilesCons(Pair(size1, 14), [Pair(4, 14 + size1), last], 14, end);
      TilesCons(Pair(4, 10), [Pair(size1, 14), Pair(4, 14 + size1), last], 10, end);
    } else {
      TilesCons(Pair(4, 10), [Pair(4, 14), last], 10, end);
    }
    hide Tiles;
    assert MigrationPairs(size1, size2) == [Pair(4, 10)] +
      if size1 != 0 then [Pair(size1, 14), Pair(4, 14 + size1), last] else [Pair(4, 14), last];
  }

  /** What the check of a response returns, honest or not. */
  function MigrationCode(sha1: Hash, mac: Mac, tb: seq<byte>, ordinal: uint32, withParent: bool,
                         odd1: Digest, key1: seq<byte>, odd2: Digest, key2: seq<byte>): uint32
    requires |tb| >= if withParent then 82 else 41
  {
    if |tb| < 14 || 18 + Load32(tb, 10) > |tb| then ERR_BUFFER
    else
      var pairs := MigrationPairs(Load32(tb, 10), Load32(tb, 14 + Load32(tb, 10)));
      if LeavesBuffer(tb, pairs) then ERR_BUFFER
      else
        var parms := ResponseParms(tb, ordinal, pairs);
        var first := BlockMatches(sha1, mac, key1, tb, if withParent then |tb| - 41 else |tb|, odd1, parms);
        var second := withParent ==> BlockMatches(sha1, mac, key2, tb, |tb|, odd2, parms);
        if first && second then 0 else ERR_HMAC_FAIL
  }

  /** For an honest layout of any two fields that is 0 exactly if the MACs match over all parameters. */
  lemma HonestMigration(sha1: Hash, mac: Mac, tb: seq<byte>, ordinal: uint32, withParent: bool,
                        odd1: Digest, key1: seq<byte>, odd2: Digest, key2: seq<byte>, rnd0: Blob, out0: Blob)
    requires |tb| >= if withParent then 82 else 41
    ensures var blocks := if withParent then 82 else 41;
            && |tb| == 10 + |Sized(rnd0)| + |Sized(out0)| + blocks
            && tb[10..|tb| - blocks] == Sized(rnd0) + Sized(out0) ==>
              var parms := tb[6..10] + BE32(ordinal) + tb[10..|tb| - blocks];
              && (MigrationCode(sha1, mac, tb, ordinal, withParent, odd1, key1, odd2, key2) == 0 <==>
                  if withParent
                  then BlockMatches(sha1, mac, key1, tb, |tb| - 41, odd1, parms) &&
                       BlockMatches(sha1, mac, key2, tb, |tb|, odd2, parms)
                  else BlockMatches(sha1, mac, key1, tb, |tb|, odd1, parms))
              && Load32(tb, 10) == |rnd0| && 18 + |rnd0| <= |tb| && Load32(tb, 14 + |rnd0|) == |out0|
              && 18 + |rnd0| + |out0| <= |tb|
              && tb[14..14 + |rnd0|] == rnd0 && tb[18 + |rnd0|..18 + |rnd0| + |out0|] == out0
  {
    hide BlockMatches, BE32, LeavesBuffer, Tiles, Gathered;
    var blocks := if withParent then 82 else 41;
    if && |tb| == 10 + |Sized(rnd0)| + |Sized(out0)| + blocks
       && tb[10..|tb| - blocks] == Sized(rnd0) + Sized(out0) {
      MigrationResponse(tb, rnd0, out0);
      TilesGather(tb, MigrationPairs(|rnd0|, |out0|), 10, |tb| - blocks);
      hide Load32, MigrationPairs;
    }
  }

  /** The check and the copies, for both numbers of sessions. The tag is the one TPM_Transmit
      insists on; `rnd0` and `out0` stand for any two fields the response may consist of. */
  method CheckMigrationResponse(sha1: Hash, mac: Mac, tb: seq<byte>, ordinal: uint32, withParent: bool,
                                odd1: Digest, key1: seq<byte>, odd2: Digest, key2: seq<byte>,
                                ghost rnd0: Blob, ghost out0: Blob)
    returns (ret: uint32, rnd: seq<byte>, out: seq<byte>)
    requires |tb| >= 10 && Framed(tb)
    requires Load16(tb, 0) == if withParent then TPM_TAG_RSP_AUTH2_COMMAND else TPM_TAG_RSP_AUTH1_COMMAND
    ensures var blocks := if withParent then 82 else 41;
            && |tb| == 10 + |Sized(rnd0)| + |Sized(out0)| + blocks
            && tb[10..|tb| - blocks] == Sized(rnd0) + Sized(out0) ==>
              var parms := tb[6..10] + BE32(ordinal) + tb[10..|tb| - blocks];
              && (ret == 0 <==> if withParent
                                then BlockMatches(sha1, mac, key1, tb, |tb| - 41, odd1, parms) &&
                                     BlockMatches(sha1, mac, key2, tb, |tb|, odd2, parms)
                                else BlockMatches(sha1, mac, key1, tb, |tb|, odd1, parms))
              && (ret == 0 ==> rnd == rnd0 && out == out0)
    ensures ret == MigrationCode(sha1, mac, tb, ordinal, withParent, odd1, key1, odd2, key2)
    ensures ret == 0 ==>
              var size1 := Load32(tb, 10);
              var size2 := Load32(tb, 14 + size1);
              18 + size1 + size2 <= |tb| && rnd == tb[14..14 + size1] && out == tb[18 + size1..18 + size1 + size2]
  {
    HonestMigration(sha1, mac, tb, ordinal, withParent, odd1, key1, odd2, key2, rnd0, out0);
    hide BlockMatches, Load16, Load32, BE32, LeavesBuffer, Gathered, ResponseParms, Sized;
    rnd, out := [], [];
    if 10 + 4 > |tb| {
      return ERR_BUFFER, rnd, out;
    }
    var size1 := Load32(tb, 10);
    if 10 + 4 + size1 + 4 > |tb| {
      return ERR_BUFFER, rnd, out;
    }
    var size2 := Load32(tb, 10 + 4 + size1);
    var pairs := MigrationPairs(size1, size2);
    if withParent {
      ret := CheckHmac2(sha1, mac, tb, ordinal, odd1, key1, odd2, key2, pairs);
    } else {
      ret := CheckHmac1(sha1, mac, tb, ordinal, odd1, key1, pairs);
    }
    if ret != 0 {
      return;
    }
    StaysInBuffer(tb, size1, size2);
    rnd := tb[10 + 4..10 + 4 + size1];
    out := tb[10 + 4 + size1 + 4..10 + 4 + size1 + 4 + size2];
  }

  lemma StaysInBuffer(buf: seq<byte>, size1: nat, size2: nat)
    requires !LeavesBuffer(buf, MigrationPairs(size1, size2)) && 18 + size1 <= |buf|
    ensures 10 + 4 + size1 + 4 + size2 <= |buf|
  {
    var pairs := MigrationPairs(size1, size2);
    var last := |pairs| - 1;
    assert pairs[last - 1..][1..] == pairs[last..] && pairs[last - 2..][1..] == pairs[last - 1..];
    assert !LeavesBuffer(buf, pairs[last - 2..]);
    assert !LeavesBuffer(buf, pairs[last - 1..]);
    assert !LeavesBuffer(buf, pairs[last..]);
  }
}
