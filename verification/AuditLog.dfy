/** The shadow audit log: the client's file with its copy of the TPM's audit digest, audited
    ordinals and audit counter, and the operations that read and rewrite that file. */
module AuditLog {
  import opened Bytes
  import opened OrdinalBitmap
  import opened AuditWire

  /** TPM_COUNTER_VALUE as it is serialized; after a reset even its tag is zero. */
  datatype Counter = Counter(tag: uint16, name: Name, count: uint32)

  type Name = s: seq<byte> | |s| == 4 witness [0, 0, 0, 0]

  const ZERO_COUNTER := Counter(0, [0, 0, 0, 0], 0)

  datatype Auditing = Auditing(ordinalBitmap: Bitmap, auditDigest: Digest, calcAuditDigest: Digest,
                               auditCounter: Counter)

  /** Ordinals whose audit status cannot be set: GetAuditDigest, GetAuditDigestSigned,
      GetAuditEvent, GetAuditEventSigned and GetOrdinalAuditStatus. */
  const NEVER_AUDITED: set<uint32> := {0x85, 0x86, 0x82, 0x83, 0x8C}

  /** The ordinals audited after a reset, in the order of the source's table. */
  const DEFAULT_AUDITED: seq<uint32> :=
    [0x7A, 0x2B, 0x10, 0x2A, 0x2C, 0x28, 0x1F, 0x5E, 0x5C, 0x7E, 0x5D, 0x2E, 0x2D, 0x2F,
     0x79, 0x5B, 0x7D, 0x6E, 0x70, 0x6F, 0x72, 0x30, 0x7C, 0x8D, 0x71, 0x9A, 0x73, 0x0D]

  function Defaults(): Auditing {
    Auditing(SetAll(seq(32, i => 0), DEFAULT_AUDITED), ZERO_DIGEST, ZERO_DIGEST, ZERO_COUNTER)
  }

  // ----- Audit events (sections 14.1 and 14.2 of TPM Main Part 2).

  datatype Event = EventIn(parms: Digest) | EventOut(parms: Digest)

  function Serialize(e: Event, c: Counter): seq<byte> {
    BE16(if e.EventIn? then 0x12 else 0x13) + e.parms + BE16(c.tag) + c.name + BE32(c.count)
  }

  function Extend(sha1: Hash, d: Digest, e: Event, c: Counter): Digest {
    sha1(d + Serialize(e, c))
  }

  /** The 32 bytes of an event, field by field: the tag, the digest of the parameters, and the tag,
      the label and the count of the audit counter. */
  predicate IsEvent(ev: seq<byte>, tag: uint16, parms: Digest, c: Counter) {
    && |ev| == 32
    && Load16(ev, 0) == tag && ev[2..22] == parms
    && Load16(ev, 22) == c.tag && ev[24..28] == c.name && Load32(ev, 28) == c.count
  }

  /** TPM_TAG_AUDIT_EVENT_IN and TPM_TAG_AUDIT_EVENT_OUT. */
  function EventTag(e: Event): uint16 {
    if e.EventIn? then 0x0012 else 0x0013
  }

  /** The serialization is laid out like this, and nothing else is. */
  lemma SerializeExactly(e: Event, c: Counter, ev: seq<byte>)
    ensures ev == Serialize(e, c) <==> IsEvent(ev, EventTag(e), e.parms, c)
  {
    var s, tag := Serialize(e, c), BE16(if e.EventIn? then 0x12 else 0x13);
    var cTag, count := BE16(c.tag), BE32(c.count);
    assert s[0] == tag[0] && s[1] == tag[1] && s[2..22] == e.parms;
    assert s[22] == cTag[0] && s[23] == cTag[1] && s[24..28] == c.name;
    assert s[28..32] == count;
    assert At(s, 28, count);
    Load32At(s, 28, c.count);
    if IsEvent(ev, EventTag(e), e.parms, c) {
      SameEvent(ev, s, EventTag(e), e.parms, c);
    }
  }

  lemma SameEvent(a: seq<byte>, b: seq<byte>, tag: uint16, parms: Digest, c: Counter)
    requires IsEvent(a, tag, parms, c) && IsEvent(b, tag, parms, c)
    ensures a == b
  {
    HalfWordAt(a, 0);
    HalfWordAt(b, 0);
    HalfWordAt(a, 22);
    HalfWordAt(b, 22);
    WordAt(a, 28);
    WordAt(b, 28);
    hide Load16, Load32, BE16, BE32;
    assert a == a[0..2] + a[2..22] + a[22..24] + a[24..28] + a[28..32];
    assert b == b[0..2] + b[2..22] + b[22..24] + b[24..28] + b[28..32];
  }

  lemma SerializeInjective(e: Event, c: Counter, f: Event, d: Counter)
    requires Serialize(e, c) == Serialize(f, d)
    ensures e == f && c == d
  {
    SerializeExactly(e, c, Serialize(e, c));
    SerializeExactly(f, d, Serialize(f, d));
    hide Serialize, Load16, Load32;
  }

  /** Extending a digest is hashing it with the bytes of the event behind it. */
  lemma ExtendHashes(sha1: Hash, d: Digest, e: Event, c: Counter, ev: seq<byte>)
    requires IsEvent(ev, EventTag(e), e.parms, c)
    ensures Extend(sha1, d, e, c) == sha1(d + ev)
  {
    SerializeExactly(e, c, ev);
    hide Serialize, IsEvent;
  }

  // ----- The operations on the file's contents. `uninit` is what a caller's local structure
  // ----- holds before it is read in, which is what it keeps when there is no file yet.

  function Read(file: Option<Auditing>, uninit: Auditing): Auditing {
    if file.Some? then file.value else uninit
  }

  /** What a missing file stands for: reading it writes the defaults. */
  function Current(file: Option<Auditing>): Auditing {
    if file.Some? then file.value else Defaults()
  }

  /** Auditing one side of a command, given the bytes to hash. */
  function Audited(sha1: Hash, au: Auditing, x: Extract, isIn: bool, junk: Digest): (r: (uint32, Auditing)) {
    if x.Negative? then (ERR_BUFFER, au)
    else
      var parms := DigestOf(sha1, x, junk);
      var e := if isIn then EventIn(parms) else EventOut(parms);
      (0, au.(auditDigest := Extend(sha1, au.auditDigest, e, au.auditCounter)))
  }

  predicate RequestInDomain(req: seq<byte>, table: uint32 -> nat) {
    |req| >= 10 ==> InRange(req) && OpenersBare(Load32(req, 6), table(Load32(req, 6)))
  }

  predicate ResponseInDomain(res: seq<byte>, ord: uint32, table: uint32 -> nat) {
    |res| >= 10 ==> InRange(res) && HandlesFit(ResponseSize(res, ord), table(ord))
  }

  /** Auditing a request: `seen` is the map in which its ordinal is looked up. */
  function AuditInputBy(seen: Bitmap, sha1: Hash, table: uint32 -> nat, au: Auditing, req: seq<byte>, isEnc: bool,
                        junk: Digest): (uint32, Auditing)
    requires RequestInDomain(req, table)
  {
    if |req| < 10 then (ERR_BUFFER, au)
    else
      var ord := Load32(req, 6);
      if !Test(seen, ord) then (0, au)
      else Audited(sha1, au, ExtractRequest(req, table(ord), isEnc), true, junk)
  }

  function AuditInput(sha1: Hash, table: uint32 -> nat, au: Auditing, req: seq<byte>, isEnc: bool, junk: Digest)
    : (uint32, Auditing)
    requires RequestInDomain(req, table)
  {
    AuditInputBy(au.ordinalBitmap, sha1, table, au, req, isEnc, junk)
  }

  /** Auditing a response. */
  function AuditOutputBy(seen: Bitmap, sha1: Hash, table: uint32 -> nat, au: Auditing, res: seq<byte>, ord: uint32,
                         isEnc: bool, junk: Digest): (uint32, Auditing)
    requires ResponseInDomain(res, ord, table)
  {
    if |res| < 10 then (ERR_BUFFER, au)
    else if !Test(seen, ord) then (0, au)
    else Audited(sha1, au, ExtractResponse(res, ord, table(ord), isEnc), false, junk)
  }

  function AuditOutput(sha1: Hash, table: uint32 -> nat, au: Auditing, res: seq<byte>, ord: uint32, isEnc: bool,
                       junk: Digest): (uint32, Auditing)
    requires ResponseInDomain(res, ord, table)
  {
    AuditOutputBy(au.ordinalBitmap, sha1, table, au, res, ord, isEnc, junk)
  }

  function SetAudited(au: Auditing, ord: uint32): Auditing {
    if ord in NEVER_AUDITED then au else au.(ordinalBitmap := Set(au.ordinalBitmap, ord))
  }

  function ClearAudited(au: Auditing, ord: uint32): Auditing {
    au.(ordinalBitmap := Clear(au.ordinalBitmap, ord))
  }

  function WithStatus(au: Auditing, ord: uint32, enable: bool): Auditing {
    if enable then SetAudited(au, ord) else ClearAudited(au, ord)
  }

  /** Replaces the digest by the TPM's and keeps the one calculated so far for comparison. */
  function Synced(au: Auditing, digest: Digest): Auditing {
    au.(calcAuditDigest := au.auditDigest, auditDigest := digest)
  }

  function WithCounter(au: Auditing, counter: Counter): Auditing {
    au.(auditCounter := counter)
  }

  /** The digest of a request's ordinal and parameters, by the size left for both of them; with
      nothing to hash, the variable for it keeps what it held. */
  function ParmsDigest(sha1: Hash, buf: seq<byte>, handles: nat, size: nat, isEnc: bool, gap: nat, junk: Digest): Digest
    requires 10 <= |buf| && (size > 4 ==> 10 + 4 * handles + gap + (size - 4) <= |buf|)
  {
    if isEnc then sha1(buf[6..10])
    else if size == 0 then junk
    else if size <= 4 then sha1(buf[6..6 + size])
    else sha1(buf[6..10] + buf[10 + 4 * handles + gap..10 + 4 * handles + gap + (size - 4)])
  }

  function ParmsDigestResp(sha1: Hash, buf: seq<byte>, handles: nat, size: nat, ord: uint32, isEnc: bool, junk: Digest)
    : Digest
    requires 10 <= |buf| && HandlesFit(size, handles) && 6 + size <= |buf|
  {
    if size == 0 then junk
    else if size <= 4 || isEnc then sha1(buf[6..6 + if size < 4 then size else 4] + BE32(ord))
    else sha1(buf[6..10] + BE32(ord) + buf[10 + 4 * handles..10 + 4 * handles + (size - 4 * handles - 4)])
  }

  function DigestOf(sha1: Hash, x: Extract, junk: Digest): Digest {
    if x.Hashed? then sha1(x.bytes) else junk
  }

  lemma RequestDigest(sha1: Hash, req: seq<byte>, handles: nat, isEnc: bool, junk: Digest)
    requires InRange(req) && OpenersBare(Load32(req, 6), handles)
    ensures var size, x := RequestSize(req, handles), ExtractRequest(req, handles, isEnc);
            && (x.Negative? <==> size < 0)
            && (size >= 0 ==>
                  && (size > 4 ==> 10 + 4 * handles + DsapGap(Load32(req, 6)) + (size - 4) <= |req|)
                  && DigestOf(sha1, x, junk) ==
                     ParmsDigest(sha1, req, handles, size, isEnc, DsapGap(Load32(req, 6)), junk))
  {
  }

  lemma ResponseDigest(sha1: Hash, res: seq<byte>, ord: uint32, handles: nat, isEnc: bool, junk: Digest)
    requires InRange(res) && HandlesFit(ResponseSize(res, ord), handles)
    ensures var size, x := ResponseSize(res, ord), ExtractResponse(res, ord, handles, isEnc);
            && (x.Negative? <==> size < 0)
            && (size >= 0 ==>
                  && 6 + size <= |res|
                  && DigestOf(sha1, x, junk) == ParmsDigestResp(sha1, res, handles, size, ord, isEnc, junk))
  {
  }

  class AuditFile {
    const sha1: Hash
    const numHandles: uint32 -> nat
    const numRespHandles: uint32 -> nat
    var file: Option<Auditing>

    method InitAuditing()
      modifies this
      ensures file == Some(Defaults())
    {
      var bitmap: Bitmap := seq(32, i => 0);
      var ctr := 0;
      while ctr < |DEFAULT_AUDITED|
        invariant 0 <= ctr <= |DEFAULT_AUDITED|
        invariant bitmap == SetAll(seq(32, i => 0), DEFAULT_AUDITED[..ctr])
      {
        assert DEFAULT_AUDITED[..ctr + 1][..ctr] == DEFAULT_AUDITED[..ctr];
        bitmap := Set(bitmap, DEFAULT_AUDITED[ctr]);
        ctr := ctr + 1;
      }
      assert DEFAULT_AUDITED[..ctr] == DEFAULT_AUDITED;
      file := Some(Auditing(bitmap, ZERO_DIGEST, ZERO_DIGEST, ZERO_COUNTER));
    }

    /** A missing file is created, but the caller's structure is not filled in then. */
    method ReadAuditingData(uninit: Auditing) returns (au: Auditing)
      modifies this
      ensures au == Read(old(file), uninit)
      ensures file == Some(Current(old(file)))
    {
      if file.Some? {
        au := file.value;
      } else {
        InitAuditing();
        au := uninit;
      }
    }

    method IsAuditedOrdinal(ord: uint32, uninit: Auditing) returns (audited: bool)
      modifies this
      ensures audited <==> Test(Read(old(file), uninit).ordinalBitmap, ord)
      ensures file == Some(Current(old(file)))
    {
      var au := ReadAuditingData(uninit);
      if ord >= 0x100 {
        audited := false;
      } else {
        audited := Mask(ord % 8) & au.ordinalBitmap[Index(ord)] != 0;
        assert Mask(ord % 8) & au.ordinalBitmap[Index(ord)] == au.ordinalBitmap[Index(ord)] & Mask(ord % 8);
      }
    }

    method SetAuditedOrdinal(ord: uint32, uninit: Auditing)
      modifies this
      ensures file == if ord in NEVER_AUDITED then old(file) else Some(SetAudited(Read(old(file), uninit), ord))
    {
      if ord in NEVER_AUDITED {
        return;
      }
      var au := ReadAuditingData(uninit);
      file := Some(au.(ordinalBitmap := Set(au.ordinalBitmap, ord)));
    }

    method ClearAuditedOrdinal(ord: uint32, uninit: Auditing)
      modifies this
      ensures file == Some(ClearAudited(Read(old(file), uninit), ord))
    {
      var au := ReadAuditingData(uninit);
      file := Some(au.(ordinalBitmap := Clear(au.ordinalBitmap, ord)));
    }

    method SetAuditStatus(ord: uint32, enable: bool, uninit: Auditing)
      modifies this
      ensures file == if enable && ord in NEVER_AUDITED then old(file)
                      else Some(WithStatus(Read(old(file), uninit), ord, enable))
    {
      if enable {
        SetAuditedOrdinal(ord, uninit);
      } else {
        ClearAuditedOrdinal(ord, uninit);
      }
    }

    method SetAuditingCounterValue(counter: Counter, uninit: Auditing)
      modifies this
      ensures file == Some(WithCounter(Read(old(file), uninit), counter))
    {
      var au := ReadAuditingData(uninit);
      file := Some(au.(auditCounter := counter));
    }

    method SetAuditDigest(digest: Digest, uninit: Auditing)
      modifies this
      ensures file == Some(Synced(Read(old(file), uninit), digest))
    {
      var au := ReadAuditingData(uninit);
      au := au.(calcAuditDigest := au.auditDigest);
      au := au.(auditDigest := digest);
      file := Some(au);
    }

    /** Copies the bytes to hash together; `digest` stays as it came when there are none. */
    method HashNoAuthParms(buf: seq<byte>, handles: nat, size: nat, isEnc: bool, gap: nat, junk: Digest)
      returns (digest: Digest)
      requires 10 <= |buf| && (size > 4 ==> 10 + 4 * handles + gap + (size - 4) <= |buf|)
      ensures digest == ParmsDigest(sha1, buf, handles, size, isEnc, gap, junk)
    {
      digest := junk;
      if isEnc {
        digest := sha1(buf[6..10]);
      } else if size > 0 {
        var sz := if size < 4 then size else 4;
        var buffer := buf[6..6 + sz];
        if size > 4 {
          var from := 10 + (4 * handles + gap);
          buffer := buffer + buf[from..from + (size - 4)];
        }
        digest := sha1(buffer);
      }
    }

    method AuditInputstream(req: seq<byte>, isEnc: bool, uninit: Auditing, junk: Digest) returns (ret: uint32)
      requires RequestInDomain(req, numHandles)
      modifies this
      ensures |req| < 10 ==> ret == ERR_BUFFER && file == old(file)
      ensures |req| >= 10 ==>
                var r := AuditInputBy(Read(old(file), uninit).ordinalBitmap, sha1, numHandles, Current(old(file)),
                                      req, isEnc, junk);
                ret == r.0 && file == Some(r.1)
      ensures |req| >= 10 && Test(Read(old(file), uninit).ordinalBitmap, Load32(req, 6)) ==>
                var x, au := ExtractRequest(req, numHandles(Load32(req, 6)), isEnc), Current(old(file));
                if x.Negative? then ret == ERR_BUFFER && file == Some(au)
                else
                  && ret == 0 && file.Some? && file.value == au.(auditDigest := file.value.auditDigest)
                  && forall ev: seq<byte> :: IsEvent(ev, 0x0012, DigestOf(sha1, x, junk), au.auditCounter) ==>
                       file.value.auditDigest == sha1(au.auditDigest + ev)
    {
      hide BE16, BE32, Load16, Load32, Serialize, Test, Defaults, ExtractRequest, ParmsDigest, DigestOf, IsEvent;
      if |req| < 10 {
        return ERR_BUFFER;
      }
      var tag, size: int, ord := Load16(req, 0), Load32(req, 2), Load32(req, 6);
      var isAudited := IsAuditedOrdinal(ord, uninit);
      if !isAudited {
        return 0;
      }
      var handles, dsapGap := numHandles(ord), 0;
      RequestDigest(sha1, req, handles, isEnc, junk);
      if tag == 0xC2 {
        size := size - 45;
      } else if tag == 0xC3 {
        size := size - 90;
      }
      if ord == TPM_ORD_OSAP {
        size := size - (6 + 2 + 4 + 20);
      } else if ord == TPM_ORD_DSAP {
        dsapGap := 2 + 4 + 20 + 4;
        size := size - (6 + dsapGap);
      } else {
        size := size - (6 + 4 * handles);
      }
      if size < 0 {
        return ERR_BUFFER;
      }
      var parms := HashNoAuthParms(req, handles, size, isEnc, dsapGap, junk);
      var au := ReadAuditingData(uninit);
      ghost var au0 := au;
      au := au.(auditDigest := sha1(au.auditDigest + Serialize(EventIn(parms), au.auditCounter)));
      ghost var d, e := au0.auditDigest, EventIn(parms);
      forall ev: seq<byte> | IsEvent(ev, EventTag(e), parms, au0.auditCounter) ensures au.auditDigest == sha1(d + ev) {
        SerializeExactly(e, au0.auditCounter, ev);
      }
      file := Some(au);
      return 0;
    }

    method HashNoAuthParmsResp(buf: seq<byte>, handles: nat, size: nat, ord: uint32, isEnc: bool, junk: Digest)
      returns (digest: Digest)
      requires 10 <= |buf| && HandlesFit(size, handles) && 6 + size <= |buf|
      ensures digest == ParmsDigestResp(sha1, buf, handles, size, ord, isEnc, junk)
    {
      digest := junk;
      var left: int := size;
      if isEnc {
        if left >= 4 {
          left := 4;
        }
      }
      if left > 0 {
        var sz := if left < 4 then left else 4;
        var buffer := buf[6..6 + sz] + BE32(ord);
        if left > 4 {
          left := left - 4 * handles;
          buffer := buffer + buf[10 + 4 * handles..10 + 4 * handles + (left - 4)];
        }
        digest := sha1(buffer);
      }
    }

    method AuditOutputstream(res: seq<byte>, ord: uint32, isEnc: bool, uninit: Auditing, junk: Digest)
      returns (ret: uint32)
      requires ResponseInDomain(res, ord, numRespHandles)
      modifies this
      ensures |res| < 10 ==> ret == ERR_BUFFER && file == old(file)
      ensures |res| >= 10 ==>
                var r := AuditOutputBy(Read(old(file), uninit).ordinalBitmap, sha1, numRespHandles, Current(old(file)),
                                       res, ord, isEnc, junk);
                ret == r.0 && file == Some(r.1)
      ensures |res| >= 10 && Test(Read(old(file), uninit).ordinalBitmap, ord) ==>
                var x, au := ExtractResponse(res, ord, numRespHandles(ord), isEnc), Current(old(file));
                if x.Negative? then ret == ERR_BUFFER && file == Some(au)
                else
                  && ret == 0 && file.Some? && file.value == au.(auditDigest := file.value.auditDigest)
                  && forall ev: seq<byte> :: IsEvent(ev, 0x0013, DigestOf(sha1, x, junk), au.auditCounter) ==>
                       file.value.auditDigest == sha1(au.auditDigest + ev)
    {
      hide BE16, BE32, Load16, Load32, Serialize, Test, Defaults, ExtractResponse, ParmsDigestResp, DigestOf,
           IsEvent;
      if |res| < 10 {
        return ERR_BUFFER;
      }
      var tag, size: int, result := Load16(res, 0), Load32(res, 2), Load32(res, 6);
      var isAudited := IsAuditedOrdinal(ord, uninit);
      if !isAudited {
        return 0;
      }
      var handles := numRespHandles(ord);
      ResponseDigest(sha1, res, ord, handles, isEnc, junk);
      if result == 0 {
        if tag == 0xC5 {
          size := size - 41;
        } else if tag == 0xC6 {
          size := size - 82;
        }
        if ord == TPM_ORD_OSAP || ord == TPM_ORD_DSAP {
          size := size - (6 + 4 + 20 + 20);
        } else if ord == TPM_ORD_OIAP {
          size := size - (6 + 4 + 20);
        } else {
          size := size - 6;
        }
      } else {
        size := size - 6;
      }
      if size < 0 {
        return ERR_BUFFER;
      }
      var parms := HashNoAuthParmsResp(res, handles, size, ord, isEnc, junk);
      var au := ReadAuditingData(uninit);
      ghost var au0 := au;
      au := au.(auditDigest := sha1(au.auditDigest + Serialize(EventOut(parms), au.auditCounter)));
      ghost var d, e := au0.auditDigest, EventOut(parms);
      forall ev: seq<byte> | IsEvent(ev, EventTag(e), parms, au0.auditCounter) ensures au.auditDigest == sha1(d + ev) {
        SerializeExactly(e, au0.auditCounter, ev);
      }
      file := Some(au);
      return 0;
    }
  }
}
