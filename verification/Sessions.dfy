/** Authorization sessions: how one is opened with a TPM, which type is chosen, what both ends then
    share, and how it is closed. */
module Sessions {
  import opened Bytes
  import opened AuditWire
  import opened Hmac
  import opened ResponseAuth
  import opened AuthEncryption
  import Delegation

  const TPM_BAD_ORDINAL: uint32 := 10
  const TPM_RESOURCES: uint32 := 21
  const TPM_INVALID_AUTHHANDLE: uint32 := 34
  const TPM_BAD_MODE: uint32 := 44

  const TPM_ET_KEYHANDLE: byte := 0x01
  const TPM_ET_OWNER: byte := 0x02
  const TPM_ET_SRK: byte := 0x04
  const TPM_ET_DEL_OWNER_BLOB: byte := 0x07
  const TPM_ET_DEL_ROW: byte := 0x08
  const TPM_ET_DEL_KEY_BLOB: byte := 0x09

  /** What a TPM keeps of a session it has opened. The secret of an OIAP session is the usage
      authorization of the entity it is used for. */
  datatype TpmSession = TpmSession(kind: Kind, secret: Digest, even: Digest, etype: uint16)

  /** The two ends compute with the same secret, nonce and mode of encryption. */
  predicate Agree(s: Session, t: TpmSession) {
    GetAuth(s) == t.secret && s.enonce == t.even && (UsesXor(s) <==> t.etype / 0x100 != TPM_ET_AES128_CTR)
  }

  // ----- The openers on the wire.

  function WithAes(etype: byte, aes: bool): uint16 {
    if aes then TPM_ET_AES128_CTR * 0x100 + etype else etype
  }

  /** The OSAP and DSAP requests, the latter with a sized entity at the end. */
  function OpenRequest(ordinal: uint32, etype: uint16, evalue: uint32, odd: Digest, rest: seq<byte>): seq<byte>
    requires 36 + |rest| <= TPM_MAX_BUFF_SIZE
  {
    Message(0xC1, ordinal, BE16(etype) + BE32(evalue) + odd + rest)
  }

  function OpenResponse(handle: uint32, even: Digest, rest: seq<byte>): seq<byte>
    requires 34 + |rest| <= TPM_MAX_BUFF_SIZE
  {
    Message(0xC4, 0, BE32(handle) + even + rest)
  }

  /** A request without handles and sessions, told by its fields. */
  predicate IsRequest(request: seq<byte>, ordinal: uint32) {
    && |request| >= 10 && Load16(request, 0) == 0x00C1
    && Load32(request, 2) == |request| && Load32(request, 6) == ordinal
  }

  /** An opening request field by field: ordinal, entity type, entity value, odd nonce, and the rest. */
  predicate IsOpenRequest(request: seq<byte>, ordinal: uint32, etype: uint16, evalue: uint32, odd: Digest,
                          rest: seq<byte>)
  {
    && IsRequest(request, ordinal) && |request| >= 36
    && Load16(request, 10) == etype && Load32(request, 12) == evalue
    && request[16..36] == odd && request[36..] == rest
  }

  lemma OpenRequestFields(ordinal: uint32, etype: uint16, evalue: uint32, odd: Digest, rest: seq<byte>)
    requires 36 + |rest| <= TPM_MAX_BUFF_SIZE
    ensures IsOpenRequest(OpenRequest(ordinal, etype, evalue, odd, rest), ordinal, etype, evalue, odd, rest)
  {
  }

  /** What the client reads of a response: the handle, the session's nonce, and a second nonce if
      there is one. */
  lemma OpenResponseFields(handle: uint32, even: Digest, rest: seq<byte>)
    requires 34 + |rest| <= TPM_MAX_BUFF_SIZE
    ensures var response := OpenResponse(handle, even, rest);
            && |response| == 34 + |rest| && Load32(response, 10) == handle
            && response[14..34] == even && response[34..] == rest
  {
  }

  // ----- The TPM's side. What it answers to each command, in the order they are received, is given
  // ----- from the start and not up to the client.

  /** To an opening: the code it fails with or 0, the new handle, and the nonces. */
  datatype Opening = Opening(code: uint32, handle: uint32, even: Digest, evenShared: Digest)

  /** To a command in two sessions: a code or 0, a response, and which of the sessions end with it. */
  datatype Reply = Reply(code: uint32, bytes: seq<byte>, ends1: bool, ends2: bool)

  /** What comes of an opening: a TPM does not hand out a handle that is in use. */
  function OpenCode(o: Opening, inUse: set<uint32>): (code: uint32)
    ensures code == 0 <==> o.code == 0 && o.handle !in inUse
  {
    if o.code != 0 then o.code else if o.handle in inUse then TPM_RESOURCES else 0
  }

  /** What comes of a command: TPM_Transmit checks the size and the tag of a response. */
  function ReplyCode(r: Reply): (code: uint32)
    ensures code == 0 ==>
              && |r.bytes| >= 10 && Framed(r.bytes)
              && Load16(r.bytes, 0) == TPM_TAG_RSP_AUTH2_COMMAND
  {
    if r.code != 0 then r.code
    else if |r.bytes| >= 10 && Framed(r.bytes) && Load16(r.bytes, 0) == TPM_TAG_RSP_AUTH2_COMMAND then 0
    else ERR_STRUCTURE
  }

  datatype TpmState = TpmState(sessions: map<uint32, TpmSession>, received: seq<seq<byte>>)

  class Tpm {
    const mac: Mac
    const openings: nat -> Opening
    const replies: nat -> Reply
    /** The code with which the TPM refuses to close a session, or 0, and whether it knows
        TerminateHandle. */
    const refusals: uint32 -> uint32
    const terminates: bool
    var sessions: map<uint32, TpmSession>
    /** The opening requests and the commands in two sessions, as they came. */
    var received: seq<seq<byte>>

    function State(): TpmState
      reads this`sessions, this`received
    {
      TpmState(sessions, received)
    }

    method OpenOiap(request: seq<byte>, usage: Digest) returns (ret: uint32, response: seq<byte>)
      modifies this`sessions, this`received
      ensures received == old(received) + [request]
      ensures var o := openings(|old(received)|);
              && ret == OpenCode(o, old(sessions).Keys)
              && (ret != 0 ==> sessions == old(sessions))
              && (ret == 0 ==>
                    && |response| == 34 && Load32(response, 10) == o.handle && response[14..34] == o.even
                    && sessions == old(sessions)[o.handle := TpmSession(OIAP, usage, o.even, 0)])
    {
      var o := openings(|received|);
      ret, response, received := OpenCode(o, sessions.Keys), [], received + [request];
      if ret == 0 {
        response := OpenResponse(o.handle, o.even, []);
        OpenResponseFields(o.handle, o.even, []);
        sessions := sessions[o.handle := TpmSession(OIAP, usage, o.even, 0)];
      }
    }

    /** The shared secret is made of the entity's authorization, the TPM's second nonce and the odd
        nonce read from the request. */
    method OpenShared(kind: Kind, request: seq<byte>, usage: Digest) returns (ret: uint32, response: seq<byte>)
      requires |request| >= 36
      modifies this`sessions, this`received
      ensures received == old(received) + [request]
      ensures var o := openings(|old(received)|);
              && ret == OpenCode(o, old(sessions).Keys)
              && (ret != 0 ==> sessions == old(sessions))
              && (ret == 0 ==>
                    && |response| == 54 && Load32(response, 10) == o.handle
                    && response[14..34] == o.even && response[34..54] == o.evenShared
                    && sessions == old(sessions)[o.handle :=
                         TpmSession(kind, mac(usage, o.evenShared + request[16..36]), o.even, Load16(request, 10))])
    {
      var o := openings(|received|);
      ret, response, received := OpenCode(o, sessions.Keys), [], received + [request];
      if ret == 0 {
        response := OpenResponse(o.handle, o.even, o.evenShared);
        OpenResponseFields(o.handle, o.even, o.evenShared);
        assert response[34..54] == response[34..];
        var secret := mac(usage, o.evenShared + request[16..36]);
        sessions := sessions[o.handle := TpmSession(kind, secret, o.even, Load16(request, 10))];
      }
    }

    /** FlushSpecific of a session. */
    method Flush(handle: uint32) returns (ret: uint32)
      modifies this`sessions
      ensures ret == CloseCode(refusals, handle, old(sessions).Keys)
      ensures sessions == if ret == 0 then old(sessions) - {handle} else old(sessions)
    {
      ret := CloseCode(refusals, handle, sessions.Keys);
      if ret == 0 {
        sessions := sessions - {handle};
      }
    }

    /** TerminateHandle, on a TPM that knows it. */
    method Terminate(handle: uint32) returns (ret: uint32)
      modifies this`sessions
      ensures ret == if terminates then CloseCode(refusals, handle, old(sessions).Keys) else TPM_BAD_ORDINAL
      ensures sessions == if ret == 0 then old(sessions) - {handle} else old(sessions)
    {
      if terminates {
        ret := Flush(handle);
      } else {
        ret := TPM_BAD_ORDINAL;
      }
    }

    /** A command in two sessions, either of which the TPM may end on its own. */
    method ExecuteAuth2(request: seq<byte>, handle1: uint32, handle2: uint32)
      returns (ret: uint32, response: seq<byte>)
      modifies this`sessions, this`received
      ensures received == old(received) + [request]
      ensures var r := replies(|old(received)|);
              && ret == ReplyCode(r) && response == r.bytes
              && sessions == old(sessions) - EndedBy(r, handle1, handle2)
    {
      var r := replies(|received|);
      ret, response, received := ReplyCode(r), r.bytes, received + [request];
      sessions := sessions - EndedBy(r, handle1, handle2);
    }
  }

  function EndedBy(r: Reply, handle1: uint32, handle2: uint32): set<uint32> {
    (if r.ends1 then {handle1} else {}) + (if r.ends2 then {handle2} else {})
  }

  /** What comes of closing a session: it is gone, was not there, or is refused. */
  function CloseCode(refusals: uint32 -> uint32, handle: uint32, open: set<uint32>): uint32 {
    if refusals(handle) != 0 then refusals(handle) else if handle !in open then TPM_INVALID_AUTHHANDLE else 0
  }

  // ----- The client's side.

  lemma TwoChunks(a: Digest, b: Digest)
    ensures var chunks := [Chunk(a), Chunk(b)];
            !MeetsNull(chunks) && Fed(chunks) == a + b
  {
    var chunks := [Chunk(a), Chunk(b)];
    assert chunks[1..] == [Chunk(b)] && [Chunk(b)][1..] == [];
    assert Fed([Chunk(b)]) == b && !MeetsNull([Chunk(b)]);
  }

  method OiapOpen(tpm: Tpm, sess0: Session, usage: Digest) returns (ret: uint32, sess: Session)
    modifies tpm`sessions, tpm`received
    ensures |tpm.received| == |old(tpm.received)| + 1 && old(tpm.received) < tpm.received
    ensures var request := tpm.received[|old(tpm.received)|];
            IsRequest(request, 0x0000_000A) && |request| == 10
    ensures var o := tpm.openings(|old(tpm.received)|);
            && ret == OpenCode(o, old(tpm.sessions).Keys)
            && (ret != 0 ==> tpm.sessions == old(tpm.sessions))
            && (ret == 0 ==>
                  && sess == sess0.(kind := OIAP, handle := o.handle, enonce := o.even)
                  && tpm.sessions == old(tpm.sessions)[o.handle := TpmSession(OIAP, usage, o.even, 0)])
  {
    hide BE16, BE32, Load16, Load32;
    sess := sess0.(kind := OIAP);
    var request := Message(0xC1, TPM_ORD_OIAP, []);
    MessageFields(0xC1, TPM_ORD_OIAP, []);
    var response;
    ret, response := tpm.OpenOiap(request, usage);
    if ret != 0 {
      return;
    }
    sess := sess.(handle := Load32(response, 10), enonce := response[14..34]);
  }

  /** OSAP and DSAP, which differ in the ordinal and in what follows the nonce. The request says what was
      asked for, field by field; both ends make their secrets of the same two nonces. */
  method SharedOpen(tpm: Tpm, kind: Kind, sess0: Session, key: Digest, etype: byte, evalue: uint32, rest: seq<byte>,
                    aes: bool, odd: Digest, usage: Digest)
    returns (ret: uint32, sess: Session)
    requires kind.OSAP? || kind.DSAP?
    modifies tpm`sessions, tpm`received
    ensures 36 + |rest| > TPM_MAX_BUFF_SIZE ==>
              ret == ERR_BUFFER && tpm.sessions == old(tpm.sessions) && tpm.received == old(tpm.received)
    ensures 36 + |rest| <= TPM_MAX_BUFF_SIZE ==>
              && |tpm.received| == |old(tpm.received)| + 1 && old(tpm.received) < tpm.received
              && IsOpenRequest(tpm.received[|old(tpm.received)|], if kind.OSAP? then 0x0000_000B else 0x0000_0011,
                               (if aes then 0x0600 else 0) + etype, evalue, odd, rest)
              && var o := tpm.openings(|old(tpm.received)|);
                 && ret == OpenCode(o, old(tpm.sessions).Keys)
                 && (ret != 0 ==> tpm.sessions == old(tpm.sessions))
                 && (ret == 0 ==>
                       && sess.kind == kind && sess.handle == o.handle && sess.enonce == o.even
                       && sess.authdata == sess0.authdata && sess.etype == (if aes then 0x0600 else 0) + etype
                       && sess.ssecret == tpm.mac(key, o.evenShared + odd)
                       && tpm.sessions == old(tpm.sessions)[o.handle :=
                            TpmSession(kind, tpm.mac(usage, o.evenShared + odd), o.even, sess.etype)])
  {
    hide BE16, BE32, Load16, Load32, Fed, MeetsNull;
    sess := sess0.(kind := kind);
    if 36 + |rest| > TPM_MAX_BUFF_SIZE {
      return ERR_BUFFER, sess;
    }
    var ordinal := if kind.OSAP? then TPM_ORD_OSAP else TPM_ORD_DSAP;
    var request := OpenRequest(ordinal, WithAes(etype, aes), evalue, odd, rest);
    OpenRequestFields(ordinal, WithAes(etype, aes), evalue, odd, rest);
    var response;
    ret, response := tpm.OpenShared(kind, request, usage);
    if ret != 0 {
      return;
    }
    var evenShared: Digest := response[34..54];
    sess := sess.(handle := Load32(response, 10), etype := WithAes(etype, aes), enonce := response[14..34]);
    TwoChunks(evenShared, odd);
    var ssecret;
    ret, ssecret := RawHmac(tpm.mac, key, [Chunk(evenShared), Chunk(odd)]);
    sess := sess.(ssecret := ssecret);
  }

  // ----- Which type of session is opened.

  datatype Outcome = Opens(kind: Kind, etype: byte) | Refused

  /** The delegation blob that a DSAP session for an entity needs; a row needs none. */
  function NeededBlob(etype: byte, evalue: uint32): Option<Delegation.Entity> {
    if etype == TPM_ET_KEYHANDLE || etype == TPM_ET_SRK || etype == TPM_ET_DEL_KEY_BLOB
    then Some(Delegation.Entity(TPM_ET_DEL_KEY_BLOB, evalue))
    else if etype == TPM_ET_OWNER || etype == TPM_ET_DEL_OWNER_BLOB
    then Some(Delegation.Entity(TPM_ET_DEL_OWNER_BLOB, 0))
    else None
  }

  /** By number: keys and the SRK need the blob of the key handle, the owner the owner's, and no other
      entity needs one. */
  lemma NeededBlobIs(etype: byte, evalue: uint32)
    ensures NeededBlob(etype, evalue) ==
            if etype in {0x01, 0x04, 0x09} then Some(Delegation.Entity(0x09, evalue))
            else if etype in {0x02, 0x07} then Some(Delegation.Entity(0x07, 0))
            else None
  {
  }

  /** The wanted type if it is allowed, or else all allowed types but DSAP. */
  function Have(allowed: set<Kind>, want: Kind): set<Kind> {
    if want in allowed then {want} else allowed - {DSAP}
  }

  /** Without its blob a DSAP session gives way to another type, for which the entity type stays
      that of the blob. */
  function Choose(allowed: set<Kind>, want: Kind, etype: byte, evalue: uint32, found: bool): (outcome: Outcome)
    ensures outcome.Opens? ==> !outcome.kind.TRAN?
  {
    var have, needed := Have(allowed, want), NeededBlob(etype, evalue);
    var other := if OSAP in have then OSAP else OIAP;
    if DSAP !in have then Opens(other, etype)
    else if needed.None? then if etype == TPM_ET_DEL_ROW then Opens(DSAP, etype) else Refused
    else if found then Opens(DSAP, needed.value.etype)
    else Opens(other, needed.value.etype)
  }

  /** The type opened is an allowed one, unless OIAP is not allowed and is what remains: because a
      wanted and allowed DSAP lacks its blob, or because neither the wanted type nor OSAP is
      allowed. */
  lemma OpensAllowedExactly(allowed: set<Kind>, want: Kind, etype: byte, evalue: uint32, found: bool)
    requires !want.TRAN?
    ensures var outcome := Choose(allowed, want, etype, evalue, found);
            outcome.Opens? ==>
              (outcome.kind in allowed <==>
               || OIAP in allowed
               || (want.DSAP? && DSAP in allowed && (NeededBlob(etype, evalue).None? || found))
               || (OSAP in allowed && (!want.DSAP? || DSAP !in allowed)))
  {
  }

  /** A session of a type that is not allowed: DSAP is preferred for the SRK, OSAP would be allowed, there
      is no delegation blob, and OIAP is opened. */
  lemma OpensDisallowed()
    ensures Choose({DSAP, OSAP}, DSAP, 0x04, 0x4000_0000, false) == Opens(OIAP, 0x09)
  {
  }

  /** Where OIAP or OSAP is allowed and DSAP is not what is preferred, an allowed type is opened; and
      a preferred type that is allowed is the one opened, but for DSAP without its blob. */
  lemma PreferenceHonoured(allowed: set<Kind>, want: Kind, etype: byte, evalue: uint32, found: bool)
    requires !want.TRAN?
    ensures var outcome := Choose(allowed, want, etype, evalue, found);
            && (!want.DSAP? && (OIAP in allowed || OSAP in allowed) ==> outcome.Opens? && outcome.kind in allowed)
            && (want in allowed && outcome.Opens? ==>
                  (outcome.kind == want <==> !want.DSAP? || NeededBlob(etype, evalue).None? || found))
  {
  }

  /** What the environment variables say: TPM_SESSION, TPM_ET_ENCRYPT_AES and TPM_VERSION. */
  datatype Environment = Environment(preferred: Option<Kind>, aes: bool, version11: bool) {
    predicate Valid() {
      preferred.Some? ==> !preferred.value.TRAN?
    }

    function Want(): Kind {
      if preferred.Some? then preferred.value else OIAP
    }
  }

  /** What a DSAP session is opened for: the blob it needs, or the number of a row. */
  function DsapEntity(content: seq<byte>, room: nat, etype: byte, evalue: uint32): seq<byte> {
    match NeededBlob(etype, evalue)
    case None => BE32(evalue)
    case Some(e) => var answer := Delegation.Fetched(content, e, room); if answer.Blob? then answer.blob else []
  }

  predicate FoundBlob(content: seq<byte>, room: nat, etype: byte, evalue: uint32) {
    NeededBlob(etype, evalue).Some? && Delegation.Fetched(content, NeededBlob(etype, evalue).value, room).Blob?
  }

  /** The entity is too long for a request. */
  predicate TooLong(kind: Kind, entity: seq<byte>) {
    kind.DSAP? && 40 + |entity| > TPM_MAX_BUFF_SIZE
  }

  /** What opening a session returns: the client's own codes, or what the TPM answers. */
  function SessionCode(outcome: Outcome, entity: seq<byte>, o: Opening, inUse: set<uint32>): uint32 {
    if outcome.Refused? then TPM_BAD_MODE
    else if TooLong(outcome.kind, entity) then ERR_BUFFER
    else OpenCode(o, inUse)
  }

  /** The request that opens a session, field by field: for OIAP the ordinal alone; for OSAP the entity
      type and value; for DSAP the blob's entity type, the key handle if it is for a key, and the sized
      blob. */
  predicate OpensWith(request: seq<byte>, kind: Kind, etype: uint16, evalue: uint32, odd: Digest, entity: seq<byte>) {
    match kind
    case OSAP => IsOpenRequest(request, 0x0000_000B, etype, evalue, odd, [])
    case DSAP =>
      && |request| >= 40 && Load32(request, 36) == |entity| && request[40..] == entity
      && IsOpenRequest(request, 0x0000_0011, etype, if etype % 0x100 == 9 then evalue else 0, odd, request[36..])
    case _ => IsRequest(request, 0x0000_000A) && |request| == 10
  }

  /** What became of an opening: what was sent, and the one session that is new if it succeeded. */
  predicate Opened(openings: nat -> Opening, before: TpmState, after: TpmState, outcome: Outcome, passHash: Digest,
                   evalue: uint32, aes: bool, odd: Digest, usage: Digest, entity: seq<byte>, ret: uint32,
                   sess: Session)
  {
    var n, o := |before.received|, openings(|before.received|);
    && ret == SessionCode(outcome, entity, o, before.sessions.Keys)
    && (ret != 0 ==> after.sessions == before.sessions)
    && (outcome.Refused? || TooLong(outcome.kind, entity) ==> after.received == before.received)
    && (outcome.Opens? && !TooLong(outcome.kind, entity) ==>
          var etype' := (if aes then 0x0600 else 0) + outcome.etype;
          && |after.received| == n + 1 && before.received < after.received
          && OpensWith(after.received[n], outcome.kind, etype', evalue, odd, entity)
          && (ret == 0 ==>
                && sess.kind == outcome.kind && sess.handle == o.handle && sess.authdata == passHash
                && (!sess.kind.OIAP? ==> sess.etype == etype')
                && o.handle in after.sessions
                && after.sessions == before.sessions[o.handle := after.sessions[o.handle]]
                && after.sessions[o.handle].kind == outcome.kind
                && (passHash == usage ==> Agree(sess, after.sessions[o.handle]))))
  }

  method OpenKind(tpm: Tpm, kind: Kind, sess0: Session, passHash: Digest, etype: byte, evalue: uint32,
                  entity: seq<byte>, aes: bool, odd: Digest, usage: Digest)
    returns (ret: uint32, sess: Session)
    requires !kind.TRAN? && sess0.authdata == passHash
    modifies tpm`sessions, tpm`received
    ensures Opened(tpm.openings, old(tpm.State()), tpm.State(), Opens(kind, etype), passHash, evalue, aes, odd, usage,
                   entity, ret, sess)
  {
    hide Load32, Load16, Sized;
    match kind {
      case DSAP =>
        if 40 + |entity| > TPM_MAX_BUFF_SIZE {
          return ERR_BUFFER, sess0;
        }
        SizedFields(entity);
        var handle := if etype == TPM_ET_DEL_KEY_BLOB then evalue else 0;
        ret, sess := SharedOpen(tpm, DSAP, sess0, passHash, etype, handle, Sized(entity), aes, odd, usage);
        ghost var request := tpm.received[|old(tpm.received)|];
        SizedBehind(request, 36, entity);
      case OSAP =>
        ret, sess := SharedOpen(tpm, OSAP, sess0, passHash, etype, evalue, [], aes, odd, usage);
      case OIAP =>
        ret, sess := OiapOpen(tpm, sess0, usage);
    }
  }

  lemma SizedBehind(request: seq<byte>, at: nat, b: Blob)
    requires at <= |request| && request[at..] == Sized(b)
    ensures |request| == at + 4 + |b| && Load32(request, at) == |b| && request[at + 4..] == b
  {
  }

  /** The room made for the entity's key beforehand has no bearing on the session, as what it returns
      is ignored. */
  method SessionOpen(tpm: Tpm, file: Delegation.BlobFile, room: nat, env: Environment, allowed: set<Kind>,
                     sess0: Session, passHash: Digest, etype: byte, evalue: uint32, odd: Digest, usage: Digest)
    returns (ret: uint32, sess: Session)
    requires env.Valid()
    modifies tpm`sessions, tpm`received, file`cursor
    ensures var found := FoundBlob(file.content, room, etype, evalue);
            Opened(tpm.openings, old(tpm.State()), tpm.State(), Choose(allowed, env.Want(), etype, evalue, found),
                   passHash, evalue, env.aes, odd, usage, DsapEntity(file.content, room, etype, evalue), ret, sess)
  {
    hide Opened;
    sess := sess0.(authdata := passHash);
    var want := env.Want();
    var have := if want in allowed then {want} else {};
    if have == {} {
      have := allowed - {DSAP};
    }
    var etype' := etype;
    var entity := DsapEntity(file.content, room, etype, evalue);
    if DSAP in have {
      var answer: Delegation.Answer := Delegation.Error(0);
      if etype == TPM_ET_KEYHANDLE || etype == TPM_ET_SRK || etype == TPM_ET_DEL_KEY_BLOB {
        etype' := TPM_ET_DEL_KEY_BLOB;
        answer := file.Get(Delegation.Entity(TPM_ET_DEL_KEY_BLOB, evalue), room);
      } else if etype == TPM_ET_OWNER || etype == TPM_ET_DEL_OWNER_BLOB {
        etype' := TPM_ET_DEL_OWNER_BLOB;
        answer := file.Get(Delegation.Entity(TPM_ET_DEL_OWNER_BLOB, 0), room);
      } else if etype == TPM_ET_DEL_ROW {
        answer := Delegation.Blob(BE32(evalue));
      } else {
        OpenRefused(tpm.openings, tpm.State(), passHash, evalue, env.aes, odd, usage, entity, sess);
        return TPM_BAD_MODE, sess;
      }
      if answer.Blob? {
        ret, sess := OpenKind(tpm, DSAP, sess, passHash, etype', evalue, answer.blob, env.aes, odd, usage);
        return;
      }
    }
    if OSAP in have {
      ret, sess := OpenKind(tpm, OSAP, sess, passHash, etype', evalue, entity, env.aes, odd, usage);
    } else {
      ret, sess := OpenKind(tpm, OIAP, sess, passHash, etype', evalue, entity, env.aes, odd, usage);
    }
  }

  lemma OpenRefused(openings: nat -> Opening, state: TpmState, passHash: Digest, evalue: uint32, aes: bool, odd: Digest,
                    usage: Digest, entity: seq<byte>, sess: Session)
    ensures Opened(openings, state, state, Refused, passHash, evalue, aes, odd, usage, entity, TPM_BAD_MODE, sess)
  {
  }

  lemma SizedFields(b: Blob)
    ensures |Sized(b)| == 4 + |b| && Load32(Sized(b), 0) == |b| && Sized(b)[4..] == b
  {
  }

  // ----- Closing.

  /** A session that is open and that the TPM does not refuse to close is gone, and 0 is returned then
      only; no other is touched. A refused ordinal is tried again as the newer command. */
  method SessionClose(tpm: Tpm, sess: Session, version11: bool) returns (ret: uint32)
    modifies tpm`sessions
    ensures ret == if sess.kind.TRAN? then ERR_BAD_ARG
                   else CloseCode(tpm.refusals, sess.handle, old(tpm.sessions).Keys)
    ensures tpm.sessions == if ret == 0 then old(tpm.sessions) - {sess.handle} else old(tpm.sessions)
  {
    if sess.kind.TRAN? {
      return ERR_BAD_ARG;
    }
    if version11 {
      ret := tpm.Terminate(sess.handle);
      if ret == TPM_BAD_ORDINAL {
        ret := tpm.Flush(sess.handle);
      }
    } else {
      ret := tpm.Flush(sess.handle);
    }
  }

  // ----- Encrypted authorization.

  /** In a session on whose ends the TPM and the client agree, the value that the TPM decrypts is the
      one that the client encrypted, in both modes. */
  lemma EncryptedAuthArrives(sha1: Hash, aes: Aes, s: Session, t: TpmSession, nonceodd: Option<Digest>, value: Digest)
    requires Agree(s, t)
    ensures var sent := EncAuth(sha1, aes, GetAuth(s), if nonceodd.None? then s.enonce else nonceodd.value, UsesXor(s),
                                value);
            EncAuth(sha1, aes, t.secret, if nonceodd.None? then t.even else nonceodd.value,
                    t.etype / 0x100 != TPM_ET_AES128_CTR, sent) == value
  {
    EncAuthTwice(sha1, aes, t.secret, if nonceodd.None? then t.even else nonceodd.value,
                 t.etype / 0x100 != TPM_ET_AES128_CTR, value);
  }
}
