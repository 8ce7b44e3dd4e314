/** Changing a key's authorization: one command in an OSAP session of the parent key and an OIAP
    session of the key itself. */
module ChangeAuth {
  import opened Bytes
  import opened AuditWire
  import opened Hmac
  import opened ResponseAuth
  import opened AuthEncryption
  import opened Sessions
  import Delegation

  const TPM_ORD_ChangeAuth: uint32 := 0x0C
  const TPM_PID_ADCP: uint16 := 0x0004
  const SRK: uint32 := 0x4000_0000

  // ----- The request.

  /** The parameters, and the block of one session behind them. */
  function ChangeBody(encauth: Digest, encData: Blob): seq<byte> {
    BE16(TPM_PID_ADCP) + encauth + BE16(5) + Sized(encData)
  }

  function RequestBlock(handle: uint32, odd: Digest, cont: byte, m: Digest): (s: seq<byte>)
    ensures |s| == 45
  {
    BE32(handle) + odd + [cont] + m
  }

  function ChangeRequest(keyhandle: uint32, encauth: Digest, encData: Blob, block1: seq<byte>, block2: seq<byte>)
    : seq<byte>
    requires 14 + |ChangeBody(encauth, encData)| + |block1| + |block2| <= TPM_MAX_BUFF_SIZE
  {
    Message(0xC3, TPM_ORD_ChangeAuth, BE32(keyhandle) + ChangeBody(encauth, encData) + block1 + block2)
  }

  /** What a TPM does with a block that ends at `end`: it looks up the session and recomputes the
      MAC from the bytes it received, the ordinal and what is between the key handle and the
      blocks. */
  predicate BlockAccepted(sha1: Hash, mac: Mac, request: seq<byte>, end: nat, sessions: map<uint32, TpmSession>)
    requires 104 <= |request| && 45 <= end <= |request|
  {
    var handle := Load32(request, end - 45);
    var odd, cont, m := request[end - 41..end - 21], request[end - 21], request[end - 20..end];
    && handle in sessions
    && m == CommandMac(sha1, mac, sessions[handle].secret, request[6..10] + request[14..|request| - 90],
                       sessions[handle].even, odd, cont)
  }

  /** The first session must be one made for the parent key, with a shared secret to encrypt under;
      the second is for the key itself. */
  predicate RightKinds(kind1: Kind, kind2: Kind) {
    (kind1.OSAP? || kind1.DSAP?) && kind2.OIAP?
  }

  /** Both blocks are accepted, in sessions of the right kinds, and the new authorization that the
      TPM decrypts is the given one. */
  predicate RequestAccepted(sha1: Hash, aes: Aes, mac: Mac, request: seq<byte>, sessions: map<uint32, TpmSession>,
                            newauth: Digest)
  {
    && |request| >= 126
    && BlockAccepted(sha1, mac, request, |request| - 45, sessions)
    && BlockAccepted(sha1, mac, request, |request|, sessions)
    && var t, t2 := sessions[Load32(request, |request| - 90)], sessions[Load32(request, |request| - 45)];
       RightKinds(t.kind, t2.kind)
       && EncAuth(sha1, aes, t.secret, t.even, t.etype / 0x100 != TPM_ET_AES128_CTR, request[16..36]) == newauth
  }

  /** The request field by field: tag, size, ordinal and key handle, then protocol, encrypted
      authorization, entity type and sized data, and two blocks with their session handles, odd nonces
      and zero flags. */
  predicate IsChangeRequest(r: seq<byte>, keyhandle: uint32, data: seq<byte>, handle1: uint32, odd1: Digest,
                            handle2: uint32, odd2: Digest)
  {
    && |r| == 132 + |data|
    && Load16(r, 0) == 0x00C3 && Load32(r, 2) == |r| && Load32(r, 6) == 0x0000_000C && Load32(r, 10) == keyhandle
    && Load16(r, 14) == 0x0004 && Load16(r, 36) == 0x0005
    && Load32(r, 38) == |data| && r[42..42 + |data|] == data
    && Load32(r, |r| - 90) == handle1 && r[|r| - 86..|r| - 66] == odd1 && r[|r| - 66] == 0
    && Load32(r, |r| - 45) == handle2 && r[|r| - 41..|r| - 21] == odd2 && r[|r| - 21] == 0
  }

  /** The fields of a request where the TPM looks for them. */
  lemma ChangeRequestFields(keyhandle: uint32, encauth: Digest, encData: Blob, block1: seq<byte>, block2: seq<byte>)
    requires |block1| == |block2| == 45 && 14 + |ChangeBody(encauth, encData)| + 90 <= TPM_MAX_BUFF_SIZE
    ensures var request := ChangeRequest(keyhandle, encauth, encData, block1, block2);
            && |request| == 14 + |ChangeBody(encauth, encData)| + 90 >= 132
            && request[6..10] + request[14..|request| - 90] == BE32(TPM_ORD_ChangeAuth) + ChangeBody(encauth, encData)
            && request[16..36] == encauth
            && At(request, |request| - 90, block1) && At(request, |request| - 45, block2)
            && Load16(request, 0) == 0xC3 && Load32(request, 2) == |request|
            && Load32(request, 6) == TPM_ORD_ChangeAuth
            && At(request, 10, BE32(keyhandle)) && At(request, 14, ChangeBody(encauth, encData))
  {
    var change := ChangeBody(encauth, encData);
    var body := BE32(keyhandle) + change + block1 + block2;
    assert change[2..22] == encauth;
    hide Message, BE32, BE16, Sized, ChangeBody, Load16, Load32;
    MessageFields(0xC3, TPM_ORD_ChangeAuth, body);
    var n := 4 + |change|;
    assert body[0..4] == BE32(keyhandle);
    assert body[4..n] == change && body[n..n + 45] == block1 && body[n + 45..n + 90] == block2;
    assert body[6..26] == body[4..n][2..22];
  }

  lemma ChangeBodyFields(request: seq<byte>, encauth: Digest, data: Blob)
    requires At(request, 14, ChangeBody(encauth, data))
    ensures |ChangeBody(encauth, data)| == 28 + |data| && |request| >= 42 + |data|
    ensures Load16(request, 14) == 0x0004 && Load16(request, 36) == 0x0005
    ensures Load32(request, 38) == |data| && request[42..42 + |data|] == data
  {
  }

  lemma RequestBlockFields(request: seq<byte>, end: nat, handle: uint32, odd: Digest, cont: byte, m: Digest)
    requires 45 <= end && At(request, end - 45, RequestBlock(handle, odd, cont, m))
    ensures Load32(request, end - 45) == handle
    ensures request[end - 41..end - 21] == odd && request[end - 21] == cont && request[end - 20..end] == m
  {
    AtSplit(request, end - 45, BE32(handle) + odd + [cont], m);
    AtSplit(request, end - 45, BE32(handle) + odd, [cont]);
    AtSplit(request, end - 45, BE32(handle), odd);
    Load32At(request, end - 45, handle);
    hide Load32, BE32;
    assert request[end - 21..end - 20][0] == cont;
  }

  /** A request with the MACs of two sessions on whose ends both sides agree is accepted exactly if
      the sessions are of the right kinds. */
  lemma AcceptedIfAgreed(sha1: Hash, aes: Aes, mac: Mac, sessions: map<uint32, TpmSession>, s1: Session, s2: Session,
                         keyhandle: uint32, encauth: Digest, encData: Blob, odd1: Digest, odd2: Digest, cont: byte,
                         m1: Digest, m2: Digest, newauth: Digest)
    requires 14 + |ChangeBody(encauth, encData)| + 90 <= TPM_MAX_BUFF_SIZE
    requires s1.handle in sessions && Agree(s1, sessions[s1.handle])
    requires s2.handle in sessions && Agree(s2, sessions[s2.handle])
    requires encauth == EncAuth(sha1, aes, GetAuth(s1), s1.enonce, UsesXor(s1), newauth)
    requires var parms := BE32(TPM_ORD_ChangeAuth) + ChangeBody(encauth, encData);
             && m1 == CommandMac(sha1, mac, GetAuth(s1), parms, s1.enonce, odd1, cont)
             && m2 == CommandMac(sha1, mac, GetAuth(s2), parms, s2.enonce, odd2, cont)
    ensures var block1, block2 := RequestBlock(s1.handle, odd1, cont, m1), RequestBlock(s2.handle, odd2, cont, m2);
            var request := ChangeRequest(keyhandle, encauth, encData, block1, block2);
            && (RequestAccepted(sha1, aes, mac, request, sessions, newauth)
                <==> RightKinds(sessions[s1.handle].kind, sessions[s2.handle].kind))
  {
    hide BE32, BE16, Sized, ChangeBody, ChangeRequest, RequestBlock, Load32, CommandMac, EncAuth, At;
    var block1, block2 := RequestBlock(s1.handle, odd1, cont, m1), RequestBlock(s2.handle, odd2, cont, m2);
    var request := ChangeRequest(keyhandle, encauth, encData, block1, block2);
    ChangeRequestFields(keyhandle, encauth, encData, block1, block2);
    RequestBlockFields(request, |request| - 45, s1.handle, odd1, cont, m1);
    RequestBlockFields(request, |request|, s2.handle, odd2, cont, m2);
    EncryptedAuthArrives(sha1, aes, s1, sessions[s1.handle], None, newauth);
  }

  lemma RequestIsLaidOut(keyhandle: uint32, encauth: Digest, data: Blob, handle1: uint32, odd1: Digest, m1: Digest,
                         handle2: uint32, odd2: Digest, m2: Digest)
    requires 14 + |ChangeBody(encauth, data)| + 90 <= TPM_MAX_BUFF_SIZE
    ensures var block1, block2 := RequestBlock(handle1, odd1, 0, m1), RequestBlock(handle2, odd2, 0, m2);
            IsChangeRequest(ChangeRequest(keyhandle, encauth, data, block1, block2), keyhandle, data,
                            handle1, odd1, handle2, odd2)
  {
    hide BE32, BE16, Sized, ChangeBody, ChangeRequest, RequestBlock, Load32, Load16, At;
    var block1, block2 := RequestBlock(handle1, odd1, 0, m1), RequestBlock(handle2, odd2, 0, m2);
    var request := ChangeRequest(keyhandle, encauth, data, block1, block2);
    ChangeRequestFields(keyhandle, encauth, data, block1, block2);
    ChangeBodyFields(request, encauth, data);
    Load32At(request, 10, keyhandle);
    RequestBlockFields(request, |request| - 45, handle1, odd1, 0, m1);
    RequestBlockFields(request, |request|, handle2, odd2, 0, m2);
  }

  /** key->encData: a size and a pointer that may be null. */
  function SizeOf(data: Chunk): nat {
    if data.Chunk? then |data.data| else data.len
  }

  function ChangeChunks(encauth: Digest, encData: Chunk): seq<Chunk>
    requires SizeOf(encData) < 0x1_0000_0000
  {
    [Chunk(BE32(TPM_ORD_ChangeAuth)), Chunk(BE16(TPM_PID_ADCP)), Chunk(encauth), Chunk(BE16(5)),
     Chunk(BE32(SizeOf(encData))), encData]
  }

  function DataOf(data: Chunk): seq<byte> {
    if data.Chunk? then data.data else []
  }

  /** Only the encrypted data can be empty, and it comes last: the digest is of the ordinal and the
      parameters as they stand on the wire. */
  lemma ChangeChunksFed(encauth: Digest, encData: Chunk)
    requires SizeOf(encData) < 0x1_0000_0000
    ensures var chunks := ChangeChunks(encauth, encData);
            && (MeetsNull(chunks) <==> encData.Null? && encData.len != 0)
            && (!MeetsNull(chunks) ==> Fed(chunks) == BE32(TPM_ORD_ChangeAuth) + ChangeBody(encauth, DataOf(encData)))
  {
    var ord, pid, et, size := BE32(TPM_ORD_ChangeAuth), BE16(TPM_PID_ADCP), BE16(5), BE32(SizeOf(encData));
    hide BE32, BE16, Fed, MeetsNull;
    FedOne(encData);
    FedCons(size, [encData]);
    FedCons(et, [Chunk(size), encData]);
    FedCons(encauth, [Chunk(et), Chunk(size), encData]);
    FedCons(pid, [Chunk(encauth), Chunk(et), Chunk(size), encData]);
    FedCons(ord, [Chunk(pid), Chunk(encauth), Chunk(et), Chunk(size), encData]);
    var chunks := ChangeChunks(encauth, encData);
    assert chunks == [Chunk(ord)] + [Chunk(pid), Chunk(encauth), Chunk(et), Chunk(size), encData];
  }

  lemma FedOne(c: Chunk)
    ensures MeetsNull([c]) <==> c.Null? && c.len != 0
    ensures !MeetsNull([c]) ==> Fed([c]) == DataOf(c)
  {
  }

  lemma FedCons(a: seq<byte>, rest: seq<Chunk>)
    requires a != []
    ensures Fed([Chunk(a)] + rest) == a + Fed(rest)
    ensures MeetsNull([Chunk(a)] + rest) <==> MeetsNull(rest)
  {
  }

  // ----- The response.

  /** The size of the new encrypted data, then the data. */
  function ResponsePairs(reslen: nat): seq<Pair> {
    [Pair(4, 10), Pair(reslen, 14)]
  }

  /** Both blocks of a response carry MACs of its code, the ordinal and the listed parameters. */
  predicate ResponseAccepted(sha1: Hash, mac: Mac, tb: seq<byte>, odd1: Digest, key1: Digest, odd2: Digest,
                             key2: Digest)
    requires |tb| >= 82
  {
    && |tb| >= 14
    && !LeavesBuffer(tb, ResponsePairs(Load32(tb, 10)))
    && var parms := ResponseParms(tb, TPM_ORD_ChangeAuth, ResponsePairs(Load32(tb, 10)));
       BlockMatches(sha1, mac, key1, tb, |tb| - 41, odd1, parms) && BlockMatches(sha1, mac, key2, tb, |tb|, odd2, parms)
  }

  /** What the check of a response returns. */
  function ResponseCode(sha1: Hash, mac: Mac, tb: seq<byte>, odd1: Digest, key1: Digest, odd2: Digest, key2: Digest)
    : uint32
    requires |tb| >= 82
  {
    if |tb| < 14 || LeavesBuffer(tb, ResponsePairs(Load32(tb, 10))) then ERR_BUFFER
    else if ResponseAccepted(sha1, mac, tb, odd1, key1, odd2, key2) then 0
    else ERR_HMAC_FAIL
  }

  /** In an honest response the pairs tile the parameters, whatever the size of the data, and the
      region copied out is the data. */
  lemma ChangeResponse(tb: seq<byte>, data: Blob)
    requires At(tb, 10, Sized(data))
    ensures 14 + |data| <= |tb| && Load32(tb, 10) == |data| && tb[14..14 + |data|] == data
    ensures !LeavesBuffer(tb, ResponsePairs(|data|)) && Gathered(tb, ResponsePairs(|data|)) == Sized(data)
    ensures ResponseParms(tb, TPM_ORD_ChangeAuth, ResponsePairs(|data|)) == tb[6..10] + BE32(0x0000_000C) + Sized(data)
  {
    SizedAt(tb, 10, data);
    var pairs := ResponsePairs(|data|);
    hide Load32, BE32;
    assert pairs[1..] == [Pair(|data|, 14)] && pairs[1..][1..] == [];
    assert Tiles(pairs[1..], 14, 14 + |data|);
    assert Tiles(pairs, 10, 14 + |data|);
    TilesGather(tb, pairs, 10, 14 + |data|);
  }

  /** A response with sized data and two blocks gives 0 exactly if both blocks carry the MAC of its code,
      the ordinal and that data, each under the secret of its session. */
  lemma HonestResponse(sha1: Hash, mac: Mac, tb: seq<byte>, data: Blob, odd1: Digest, key1: Digest, odd2: Digest,
                       key2: Digest)
    requires At(tb, 10, Sized(data)) && |tb| == 10 + |Sized(data)| + 82
    ensures var parms := tb[6..10] + BE32(0x0000_000C) + Sized(data);
            ResponseCode(sha1, mac, tb, odd1, key1, odd2, key2) == 0 <==>
              && BlockMatches(sha1, mac, key1, tb, |tb| - 41, odd1, parms)
              && BlockMatches(sha1, mac, key2, tb, |tb|, odd2, parms)
  {
    hide BlockMatches, LeavesBuffer, ResponseParms, Load32, BE32, At;
    ChangeResponse(tb, data);
  }

  // ----- The command.

  /** What was sent, and the TPM's sessions and the client's when it was. */
  datatype Sent = Sent(request: seq<byte>, sessions: map<uint32, TpmSession>, sess: Session, sess2: Session)

  function ParentType(keyhandle: uint32): byte {
    if keyhandle == SRK then TPM_ET_SRK else TPM_ET_KEYHANDLE
  }

  /** The delegation file has a blob for the parent key. */
  predicate HasBlob(content: seq<byte>, room: nat, keyhandle: uint32) {
    Delegation.Fetched(content, Delegation.Entity(TPM_ET_DEL_KEY_BLOB, keyhandle), room).Blob?
  }

  /** The kinds of the two sessions, for every preference. */
  lemma ParentKind(want: Kind, keyhandle: uint32, found: bool)
    requires !want.TRAN?
    ensures ParentType(keyhandle) == if keyhandle == 0x4000_0000 then 0x04 else 0x01
    ensures NeededBlob(ParentType(keyhandle), keyhandle) == Some(Delegation.Entity(TPM_ET_DEL_KEY_BLOB, keyhandle))
    ensures var outcome := Choose({DSAP, OSAP}, want, ParentType(keyhandle), keyhandle, found);
            outcome.Opens? && (RightKinds(outcome.kind, OIAP) <==> !want.DSAP? || found)
    ensures Choose({OIAP}, want, 0, 0, false) == Opens(OIAP, 0)
  {
  }

  /** What building the request returns: a null pointer is refused, and so is data too long for it. */
  function BuildCode(encData: Chunk): uint32 {
    if encData.Null? && encData.len != 0 then ERR_NULL_ARG
    else if 132 + |DataOf(encData)| > TPM_MAX_BUFF_SIZE then ERR_BUFFER
    else 0
  }

  /** From the encrypted authorization to the request, both MACs over one list of chunks. */
  method BuildRequest(sha1: Hash, aes: Aes, mac: Mac, sess: Session, sess2: Session, keyhandle: uint32, newauth: Digest,
                      encData: Chunk, odd1: Digest, odd2: Digest, ghost sessions: map<uint32, TpmSession>)
    returns (ret: uint32, request: seq<byte>)
    requires SizeOf(encData) < 0x1_0000_0000
    ensures ret == BuildCode(encData)
    ensures ret == 0 ==>
              IsChangeRequest(request, keyhandle, DataOf(encData), sess.handle, odd1, sess2.handle, odd2)
    ensures && ret == 0
            && sess.handle in sessions && Agree(sess, sessions[sess.handle])
            && sess2.handle in sessions && Agree(sess2, sessions[sess2.handle]) ==>
              (RequestAccepted(sha1, aes, mac, request, sessions, newauth)
               <==> RightKinds(sessions[sess.handle].kind, sessions[sess2.handle].kind))
  {
    hide Agree, EncAuth, CommandMac, RequestAccepted, Fed, MeetsNull, ChangeChunks, RequestBlock, ChangeRequest;
    request := [];
    var out := new byte[20];
    CreateEncAuth(sha1, aes, sess, newauth, out, None);
    var encauth: Digest := out[..];
    var chunks := ChangeChunks(encauth, encData);
    ChangeChunksFed(encauth, encData);
    var authdata1, authdata2, c: byte := ZERO_DIGEST, ZERO_DIGEST, 0;
    ret, authdata1 := AuthHmac(sha1, mac, GetAuth(sess), sess.enonce, odd1, c, chunks);
    if ret != 0 {
      return;
    }
    ret, authdata2 := AuthHmac(sha1, mac, GetAuth(sess2), sess2.enonce, odd2, c, chunks);
    if ret != 0 {
      return;
    }
    if 14 + |ChangeBody(encauth, DataOf(encData))| + 90 > TPM_MAX_BUFF_SIZE {
      return ERR_BUFFER, request;
    }
    request := ChangeRequest(keyhandle, encauth, DataOf(encData), RequestBlock(sess.handle, odd1, c, authdata1),
                             RequestBlock(sess2.handle, odd2, c, authdata2));
    RequestIsLaidOut(keyhandle, encauth, DataOf(encData), sess.handle, odd1, authdata1, sess2.handle, odd2, authdata2);
    if && sess.handle in sessions && Agree(sess, sessions[sess.handle])
       && sess2.handle in sessions && Agree(sess2, sessions[sess2.handle]) {
      AcceptedIfAgreed(sha1, aes, mac, sessions, sess, sess2, keyhandle, encauth, DataOf(encData), odd1, odd2, c,
                       authdata1, authdata2, newauth);
    }
  }

  /** The TPM still has every session it had, and of others only what it refuses to close. */
  ghost predicate SessionsBalanced(before: map<uint32, TpmSession>, after: map<uint32, TpmSession>,
                                   refusals: uint32 -> uint32)
  {
    && (forall h :: h in before ==> h in after && after[h] == before[h])
    && (forall h :: h in after && h !in before ==> refusals(h) != 0)
  }

  /** A TPM that refuses nothing has exactly the sessions it had. */
  lemma BalancedExactly(before: map<uint32, TpmSession>, after: map<uint32, TpmSession>, refusals: uint32 -> uint32)
    requires SessionsBalanced(before, after, refusals) && forall h :: refusals(h) == 0
    ensures after == before
  {
  }

  /** The code of opening the two sessions, the parent's first. */
  function OpenBothCode(openings: nat -> Opening, n: nat, inUse: set<uint32>, content: seq<byte>, room: nat, want: Kind,
                        keyhandle: uint32): uint32
  {
    var etype, found := ParentType(keyhandle), HasBlob(content, room, keyhandle);
    var parent := SessionCode(Choose({DSAP, OSAP}, want, etype, keyhandle, found),
                              DsapEntity(content, room, etype, keyhandle), openings(n), inUse);
    if parent != 0 then parent else OpenCode(openings(n + 1), inUse + {openings(n).handle})
  }

  /** The two opening requests: for the parent key, with what preference and delegation file determine,
      and a plain OIAP request. */
  predicate OpeningsAsked(first: seq<byte>, second: seq<byte>, env: Environment, content: seq<byte>, room: nat,
                          keyhandle: uint32, odd: Digest)
  {
    var etype := ParentType(keyhandle);
    var parent := Choose({DSAP, OSAP}, env.Want(), etype, keyhandle, HasBlob(content, room, keyhandle));
    && parent.Opens?
    && OpensWith(first, parent.kind, (if env.aes then 0x0600 else 0) + parent.etype, keyhandle, odd,
                 DsapEntity(content, room, etype, keyhandle))
    && IsRequest(second, 0x0000_000A) && |second| == 10
  }

  /** Either both sessions are new, of the kinds that preference and delegation file determine, and are
      asked for by the requests they should be; or none is left. */
  method OpenBoth(tpm: Tpm, file: Delegation.BlobFile, room: nat, env: Environment, keyhandle: uint32,
                  parauth: Digest, keyauth: Digest, odd: Digest, junk: Session, parUsage: Digest, keyUsage: Digest)
    returns (ret: uint32, sess: Session, sess2: Session)
    requires env.Valid()
    modifies tpm`sessions, tpm`received, file`cursor
    ensures ret == OpenBothCode(tpm.openings, |old(tpm.received)|, old(tpm.sessions).Keys, file.content, room,
                                env.Want(), keyhandle)
    ensures ret != 0 ==> SessionsBalanced(old(tpm.sessions), tpm.sessions, tpm.refusals)
    ensures ret == 0 ==>
              var n, found := |old(tpm.received)|, HasBlob(file.content, room, keyhandle);
              var handle1, handle2 := tpm.openings(n).handle, tpm.openings(n + 1).handle;
              && |tpm.received| == n + 2 && old(tpm.received) < tpm.received
              && OpeningsAsked(tpm.received[n], tpm.received[n + 1], env, file.content, room, keyhandle, odd)
              && handle1 !in old(tpm.sessions) && handle2 !in old(tpm.sessions) && handle1 != handle2
              && handle1 in tpm.sessions && handle2 in tpm.sessions
              && tpm.sessions ==
                 old(tpm.sessions)[handle1 := tpm.sessions[handle1]][handle2 := tpm.sessions[handle2]]
              && sess.handle == handle1 && sess2.handle == handle2 && !sess.kind.TRAN? && sess2.kind.OIAP?
              && (RightKinds(tpm.sessions[handle1].kind, tpm.sessions[handle2].kind) <==> !env.Want().DSAP? || found)
              && (parauth == parUsage && keyauth == keyUsage ==>
                    Agree(sess, tpm.sessions[handle1]) && Agree(sess2, tpm.sessions[handle2]))
  {
    hide Choose, NeededBlob, ParentType, DsapEntity, IsOpenRequest, IsRequest, Load32, HasBlob, OpenCode,
         FoundBlob, Agree;
    ghost var found := HasBlob(file.content, room, keyhandle);
    ParentKind(env.Want(), keyhandle, found);
    ParentFound(file.content, room, keyhandle);
    OwnFound(file.content, room);
    ret, sess := SessionOpen(tpm, file, room, env, {DSAP, OSAP}, junk, parauth, ParentType(keyhandle), keyhandle, odd,
                             parUsage);
    sess2 := junk;
    if ret != 0 {
      return;
    }
    assert tpm.sessions.Keys == old(tpm.sessions).Keys + {tpm.openings(|old(tpm.received)|).handle};
    ret, sess2 := SessionOpen(tpm, file, room, env, {OIAP}, junk, keyauth, 0, 0, odd, keyUsage);
    if ret != 0 {
      var closed := SessionClose(tpm, sess, env.version11);
    }
  }

  /** The code with which a command ends before anything is sent for it, or 0. */
  function EarlyCode(room1: uint32, openings: nat -> Opening, n: nat, inUse: set<uint32>, content: seq<byte>, room: nat,
                     want: Kind, keyhandle: uint32, encData: Chunk): uint32
  {
    var open := OpenBothCode(openings, n, inUse, content, room, want, keyhandle);
    if room1 != 0 then room1 else if open != 0 then open else BuildCode(encData)
  }

  /** `room1` is what making room for the parent key returned; `parUsage` and `keyUsage` are the
      authorizations that the TPM holds. Every way out leaves the TPM with the sessions it had, but for
      new ones that it refuses to close. With the right authorizations, what is sent is accepted exactly
      if DSAP is not preferred or there is a delegation blob for the parent key (without one the session
      for the parent key is an OIAP session, though the mask does not allow it), and 0 is returned
      exactly if the response carries the MACs of the TPM's secrets for the two sessions, the parent's
      first; the new data is then the sized data in it. */
  method ChangeKeyAuth(tpm: Tpm, file: Delegation.BlobFile, room: nat, env: Environment, sha1: Hash, aes: Aes,
                       room1: uint32, keyhandle: uint32, parauth: Digest, keyauth: Digest, newauth: Digest,
                       encData: Chunk, osapOdd: Digest, odd1: Digest, odd2: Digest, junk: Session,
                       parUsage: Digest, keyUsage: Digest)
    returns (ret: uint32, newData: seq<byte>, ghost sent: Option<Sent>)
    requires env.Valid() && SizeOf(encData) < 0x1_0000_0000
    modifies tpm`sessions, tpm`received, file`cursor
    ensures SessionsBalanced(old(tpm.sessions), tpm.sessions, tpm.refusals)
    ensures var early := EarlyCode(room1, tpm.openings, |old(tpm.received)|, old(tpm.sessions).Keys, file.content, room,
                                   env.Want(), keyhandle, encData);
            && (sent.Some? <==> early == 0)
            && (early != 0 ==> ret == early)
    ensures sent.Some? ==>
              var n, s := |old(tpm.received)|, sent.value;
              var handle1, handle2, reply := tpm.openings(n).handle, tpm.openings(n + 1).handle, tpm.replies(n + 2);
              && |tpm.received| == n + 3 && old(tpm.received) < tpm.received && tpm.received[n + 2] == s.request
              && OpeningsAsked(tpm.received[n], tpm.received[n + 1], env, file.content, room, keyhandle, osapOdd)
              && IsChangeRequest(s.request, keyhandle, DataOf(encData), handle1, odd1, handle2, odd2)
              && handle1 in s.sessions && handle2 in s.sessions
              && ret == (if ReplyCode(reply) != 0 then ReplyCode(reply)
                         else ResponseCode(sha1, tpm.mac, reply.bytes, odd1, GetAuth(s.sess), odd2, GetAuth(s.sess2)))
              && (ret == 0 ==>
                    && 14 + Load32(reply.bytes, 10) <= |reply.bytes|
                    && newData == reply.bytes[14..14 + Load32(reply.bytes, 10)])
              && (parauth == parUsage && keyauth == keyUsage ==>
                    && GetAuth(s.sess) == s.sessions[handle1].secret && GetAuth(s.sess2) == s.sessions[handle2].secret
                    && (RequestAccepted(sha1, aes, tpm.mac, s.request, s.sessions, newauth)
                        <==> !env.Want().DSAP? || HasBlob(file.content, room, keyhandle)))
  {
    hide RequestAccepted, ResponseAccepted, ResponseCode, ReplyCode, ParentType, IsChangeRequest, BuildCode, HasBlob,
         OpenBothCode, Load32, SessionsBalanced, OpeningsAsked, EndedBy, UsesXor;
    NothingChanged(tpm.sessions, tpm.refusals);
    ghost var before := tpm.sessions;
    sent, newData := None, [];
    if room1 != 0 {
      return room1, newData, sent;
    }
    var sess, sess2;
    ret, sess, sess2 := OpenBoth(tpm, file, room, env, keyhandle, parauth, keyauth, osapOdd, junk, parUsage, keyUsage);
    if ret != 0 {
      return;
    }
    ghost var both := tpm.sessions;
    var request;
    ret, request := BuildRequest(sha1, aes, tpm.mac, sess, sess2, keyhandle, newauth, encData, odd1, odd2,
                                 tpm.sessions);
    if ret != 0 {
      CloseBoth(tpm, sess, sess2, env);
      BalancedAfterClose(before, both, tpm.sessions, sess.handle, sess2.handle, {}, tpm.refusals);
      return;
    }
    sent := Some(Sent(request, tpm.sessions, sess, sess2));
    var tb;
    ret, tb := tpm.ExecuteAuth2(request, sess.handle, sess2.handle);
    ghost var ended := EndedBy(tpm.replies(|old(tpm.received)| + 2), sess.handle, sess2.handle);
    EndedAtMost(tpm.replies(|old(tpm.received)| + 2), sess.handle, sess2.handle);
    CloseBoth(tpm, sess, sess2, env);
    BalancedAfterClose(before, both, tpm.sessions, sess.handle, sess2.handle, ended, tpm.refusals);
    if ret != 0 {
      return;
    }
    ret, newData := CheckChangeAuthResponse(sha1, tpm.mac, tb, odd1, GetAuth(sess), odd2, GetAuth(sess2));
  }

  lemma ParentFound(content: seq<byte>, room: nat, keyhandle: uint32)
    ensures FoundBlob(content, room, ParentType(keyhandle), keyhandle) <==> HasBlob(content, room, keyhandle)
  {
  }

  lemma OwnFound(content: seq<byte>, room: nat)
    ensures !FoundBlob(content, room, 0, 0) && DsapEntity(content, room, 0, 0) == BE32(0)
  {
  }

  lemma NothingChanged(sessions: map<uint32, TpmSession>, refusals: uint32 -> uint32)
    ensures SessionsBalanced(sessions, sessions, refusals)
  {
  }

  lemma EndedAtMost(r: Reply, handle1: uint32, handle2: uint32)
    ensures EndedBy(r, handle1, handle2) <= {handle1, handle2}
  {
  }

  /** Two new sessions, some of which the TPM has ended, and of the others those closed that it lets go. */
  lemma BalancedAfterClose(before: map<uint32, TpmSession>, both: map<uint32, TpmSession>,
                           after: map<uint32, TpmSession>, handle1: uint32, handle2: uint32, ended: set<uint32>,
                           refusals: uint32 -> uint32)
    requires handle1 !in before && handle2 !in before && handle1 in both && handle2 in both
    requires both == before[handle1 := both[handle1]][handle2 := both[handle2]]
    requires ended <= {handle1, handle2}
    requires after == (both - ended) - set h | h in {handle1, handle2} && refusals(h) == 0
    ensures SessionsBalanced(before, after, refusals)
  {
  }

  method CloseBoth(tpm: Tpm, sess: Session, sess2: Session, env: Environment)
    requires !sess.kind.TRAN? && !sess2.kind.TRAN?
    modifies tpm`sessions
    ensures tpm.sessions == old(tpm.sessions) - set h | h in {sess.handle, sess2.handle} && tpm.refusals(h) == 0
  {
    var closed := SessionClose(tpm, sess, env.version11);
    closed := SessionClose(tpm, sess2, env.version11);
  }

  method CheckChangeAuthResponse(sha1: Hash, mac: Mac, tb: seq<byte>, odd1: Digest, key1: Digest, odd2: Digest,
                                 key2: Digest)
    returns (ret: uint32, newData: seq<byte>)
    requires |tb| >= 10 && Framed(tb) && Load16(tb, 0) == TPM_TAG_RSP_AUTH2_COMMAND
    ensures ret == 0 <==> ResponseAccepted(sha1, mac, tb, odd1, key1, odd2, key2)
    ensures ret == ResponseCode(sha1, mac, tb, odd1, key1, odd2, key2)
    ensures ret == 0 ==> 14 + Load32(tb, 10) <= |tb| && newData == tb[14..14 + Load32(tb, 10)]
  {
    newData := [];
    if 14 > |tb| {
      return ERR_BUFFER, newData;
    }
    var reslen := Load32(tb, 10);
    hide BlockMatches, Load16, Gathered, Load32, BE32;
    ret := CheckHmac2(sha1, mac, tb, TPM_ORD_ChangeAuth, odd1, key1, odd2, key2, ResponsePairs(reslen));
    if ret != 0 {
      return;
    }
    assert !LeavesBuffer(tb, ResponsePairs(reslen)[1..]);
    newData := tb[14..14 + reslen];
  }
}
