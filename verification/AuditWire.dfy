/** Requests and responses as the TPM lays them out, and the bytes of them that auditing hashes. */
module AuditWire {
  import opened Bytes

  const TPM_ORD_OIAP: uint32 := 0x0A
  const TPM_ORD_OSAP: uint32 := 0x0B
  const TPM_ORD_DSAP: uint32 := 0x11
  const TPM_MAX_BUFF_SIZE: nat := 4096

  /** A command: its handles and its authorization blocks are never part of what is hashed. */
  datatype Request = Request(ordinal: uint32, handles: seq<uint32>, params: seq<byte>, auths: seq<seq<byte>>)

  datatype Response = Response(code: uint32, handles: seq<uint32>, params: seq<byte>, auths: seq<seq<byte>>)

  function Words(ws: seq<uint32>): (s: seq<byte>)
    ensures |s| == 4 * |ws|
  {
    if ws == [] then [] else BE32(ws[0]) + Words(ws[1..])
  }

  /** Authorization blocks, each of one size: 45 bytes in a request, 41 in a response. */
  predicate AuthBlocks(auths: seq<seq<byte>>, size: nat) {
    |auths| <= 2 && forall i :: 0 <= i < |auths| ==> |auths[i]| == size
  }

  function Flat(auths: seq<seq<byte>>): seq<byte> {
    if auths == [] then [] else auths[0] + Flat(auths[1..])
  }

  lemma FlatLength(auths: seq<seq<byte>>, size: nat)
    requires AuthBlocks(auths, size)
    ensures |Flat(auths)| == size * |auths|
  {
  }

  /** The fixed head of any message, then its body. */
  function Message(tag: uint16, word: uint32, body: seq<byte>): seq<byte>
    requires 10 + |body| <= TPM_MAX_BUFF_SIZE
  {
    BE16(tag) + BE32(10 + |body|) + BE32(word) + body
  }

  function RequestBody(r: Request): seq<byte> {
    Words(r.handles) + r.params + Flat(r.auths)
  }

  function ResponseBody(r: Response): seq<byte> {
    Words(r.handles) + r.params + Flat(r.auths)
  }

  /** The session openers carry no handles and no authorization; OSAP's parameters are an entity
      type, an entity value and a nonce, to which DSAP adds a sized entity. */
  predicate WellFormedRequest(r: Request) {
    && AuthBlocks(r.auths, 45)
    && 10 + |RequestBody(r)| <= TPM_MAX_BUFF_SIZE
    && (r.ordinal == TPM_ORD_OSAP ==> r.handles == [] && r.auths == [] && |r.params| == 2 + 4 + 20)
    && (r.ordinal == TPM_ORD_DSAP ==> r.handles == [] && r.auths == [] && |r.params| >= 2 + 4 + 20 + 4)
  }

  /** An error response is its head alone. The session openers answer with a session handle and
      one or two nonces, none of which the client counts as a handle. */
  predicate WellFormedResponse(ordinal: uint32, r: Response) {
    && AuthBlocks(r.auths, 41)
    && 10 + |ResponseBody(r)| <= TPM_MAX_BUFF_SIZE
    && (r.code != 0 ==> r.handles == [] && r.params == [] && r.auths == [])
    && (r.code == 0 && (ordinal == TPM_ORD_OSAP || ordinal == TPM_ORD_DSAP) ==>
          r.handles == [] && r.auths == [] && |r.params| == 4 + 20 + 20)
    && (r.code == 0 && ordinal == TPM_ORD_OIAP ==>
          r.handles == [] && r.auths == [] && |r.params| == 4 + 20)
  }

  function EncodeRequest(r: Request): seq<byte>
    requires WellFormedRequest(r)
  {
    Message(0xC1 + |r.auths|, r.ordinal, RequestBody(r))
  }

  function EncodeResponse(ordinal: uint32, r: Response): seq<byte>
    requires WellFormedResponse(ordinal, r)
  {
    Message(0xC4 + |r.auths|, r.code, ResponseBody(r))
  }

  /** What sections 14.1 and 14.2 of TPM Main Part 2 say of the audit digests: the ordinal and the
      parameters of a request; the return code, the ordinal and the parameters of a response. */
  function RequestText(r: Request): seq<byte> {
    BE32(r.ordinal) + r.params
  }

  function ResponseText(ordinal: uint32, r: Response): seq<byte> {
    BE32(r.code) + BE32(ordinal) + r.params
  }

  predicate Opener(ordinal: uint32) {
    ordinal == TPM_ORD_OSAP || ordinal == TPM_ORD_DSAP || ordinal == TPM_ORD_OIAP
  }

  /** What the client makes of them: of the session openers it leaves out the fixed part. */
  function HashedRequest(r: Request): seq<byte> {
    BE32(r.ordinal) +
    if r.ordinal == TPM_ORD_OSAP then []
    else if r.ordinal == TPM_ORD_DSAP && |r.params| >= 30 then r.params[30..]
    else r.params
  }

  function HashedResponse(ordinal: uint32, r: Response): seq<byte> {
    BE32(r.code) + BE32(ordinal) + if Opener(ordinal) then [] else r.params
  }

  lemma RequestTextHashedExactly(r: Request)
    requires WellFormedRequest(r)
    ensures HashedRequest(r) == RequestText(r) <==> r.ordinal != TPM_ORD_OSAP && r.ordinal != TPM_ORD_DSAP
  {
  }

  lemma ResponseTextHashedExactly(ordinal: uint32, r: Response)
    requires WellFormedResponse(ordinal, r)
    ensures HashedResponse(ordinal, r) == ResponseText(ordinal, r) <==> r.code != 0 || !Opener(ordinal)
  {
  }

  // ----- The extraction from raw bytes.

  /** Bytes to hash, a digest variable left as it was, or a size that came out negative. */
  datatype Extract = Hashed(bytes: seq<byte>) | Untouched | Negative

  /** Sizes and offsets stay inside a message whose size field is not beyond its end. */
  predicate InRange(buf: seq<byte>) {
    10 <= SizeField(buf) <= |buf|
  }

  function SizeField(buf: seq<byte>): int {
    if |buf| >= 6 then Load32(buf, 2) else -1
  }

  function AuthSize(tag: uint16, tag1: uint16, tag2: uint16, block: nat): nat {
    if tag == tag1 then block else if tag == tag2 then 2 * block else 0
  }

  function RequestSize(buf: seq<byte>, handles: nat): int
    requires |buf| >= 10
  {
    var ord := Load32(buf, 6);
    Load32(buf, 2) - AuthSize(Load16(buf, 0), 0xC2, 0xC3, 45) -
    if ord == TPM_ORD_OSAP then 6 + 2 + 4 + 20
    else if ord == TPM_ORD_DSAP then 6 + (2 + 4 + 20 + 4)
    else 6 + 4 * handles
  }

  function DsapGap(ord: uint32): nat {
    if ord == TPM_ORD_DSAP then 2 + 4 + 20 + 4 else 0
  }

  /** The source's table gives the session openers no handles. */
  predicate OpenersBare(ord: uint32, handles: nat) {
    ord == TPM_ORD_OSAP || ord == TPM_ORD_DSAP ==> handles == 0
  }

  function ExtractRequest(buf: seq<byte>, handles: nat, isEnc: bool): Extract
    requires InRange(buf) && OpenersBare(Load32(buf, 6), handles)
  {
    var size, start := RequestSize(buf, handles), 10 + 4 * handles + DsapGap(Load32(buf, 6));
    if size < 0 then Negative
    else if isEnc then Hashed(buf[6..10])
    else if size == 0 then Untouched
    else if size <= 4 then Hashed(buf[6..6 + size])
    else Hashed(buf[6..10] + buf[start..start + (size - 4)])
  }

  function ResponseSize(buf: seq<byte>, ord: uint32): int
    requires |buf| >= 10
  {
    if Load32(buf, 6) != 0 then Load32(buf, 2) - 6
    else
      Load32(buf, 2) - AuthSize(Load16(buf, 0), 0xC5, 0xC6, 41) -
      if ord == TPM_ORD_OSAP || ord == TPM_ORD_DSAP then 6 + 4 + 20 + 20
      else if ord == TPM_ORD_OIAP then 6 + 4 + 20
      else 6
  }

  /** Taking the handles off the size does not take more than there is. */
  predicate HandlesFit(size: int, handles: nat) {
    size > 4 ==> size - 4 * handles >= 4
  }

  function ExtractResponse(buf: seq<byte>, ord: uint32, handles: nat, isEnc: bool): Extract
    requires InRange(buf) && HandlesFit(ResponseSize(buf, ord), handles)
  {
    var size := ResponseSize(buf, ord);
    if size < 0 then Negative
    else if size == 0 then Untouched
    else if size <= 4 || isEnc then
      var sz := if size < 4 then size else 4;
      Hashed(buf[6..6 + sz] + BE32(ord))
    else
      var start := 10 + 4 * handles;
      Hashed(buf[6..10] + BE32(ord) + buf[start..start + (size - 4 * handles - 4)])
  }

  /** A message read back from its bytes. */
  lemma MessageFields(tag: uint16, word: uint32, body: seq<byte>)
    requires 10 + |body| <= TPM_MAX_BUFF_SIZE
    ensures var buf := Message(tag, word, body);
            && |buf| == 10 + |body|
            && Load16(buf, 0) == tag && Load32(buf, 2) == |buf| && Load32(buf, 6) == word
            && InRange(buf)
            && buf[6..10] == BE32(word)
            && forall i, j :: 0 <= i <= j <= |body| ==> buf[10 + i..10 + j] == body[i..j]
  {
  }

  lemma RequestFields(r: Request, handles: nat)
    requires WellFormedRequest(r) && OpenersBare(r.ordinal, handles)
    ensures var buf := EncodeRequest(r);
            && InRange(buf) && Load32(buf, 6) == r.ordinal && buf[6..10] == BE32(r.ordinal)
            && |buf| >= 10 + 4 * |r.handles| + |r.params|
            && buf[10 + 4 * |r.handles|..10 + 4 * |r.handles| + |r.params|] == r.params
            && RequestSize(buf, handles) ==
                 if r.ordinal == TPM_ORD_OSAP then 4
                 else if r.ordinal == TPM_ORD_DSAP then 4 + |r.params| - 30
                 else 4 + 4 * (|r.handles| - handles) + |r.params|
  {
    var body := RequestBody(r);
    MessageFields(0xC1 + |r.auths|, r.ordinal, body);
    FlatLength(r.auths, 45);
    assert body[4 * |r.handles|..4 * |r.handles| + |r.params|] == r.params;
    hide BE16, BE32, Load16, Load32, Words, Flat, Message;
  }

  lemma ResponseFields(ordinal: uint32, r: Response)
    requires WellFormedResponse(ordinal, r)
    ensures var buf := EncodeResponse(ordinal, r);
            && InRange(buf) && buf[6..10] == BE32(r.code)
            && |buf| >= 10 + 4 * |r.handles| + |r.params|
            && buf[10 + 4 * |r.handles|..10 + 4 * |r.handles| + |r.params|] == r.params
            && ResponseSize(buf, ordinal) ==
                 if ordinal == TPM_ORD_OSAP || ordinal == TPM_ORD_DSAP || ordinal == TPM_ORD_OIAP then 4
                 else 4 + 4 * |r.handles| + |r.params|
  {
    var body := ResponseBody(r);
    MessageFields(0xC4 + |r.auths|, r.code, body);
    FlatLength(r.auths, 41);
    assert body[4 * |r.handles|..4 * |r.handles| + |r.params|] == r.params;
    hide BE16, BE32, Load16, Load32, Words, Flat, Message;
  }

  /** The extraction hashes the ordinal and the parameters, and never a handle or an authorization
      byte, exactly when the table knows the request's number of handles and it is not one of the two
      session openers that have parameters. */
  lemma RequestExtraction(r: Request, handles: nat)
    requires WellFormedRequest(r) && OpenersBare(r.ordinal, handles)
    ensures InRange(EncodeRequest(r)) && Load32(EncodeRequest(r), 6) == r.ordinal
    ensures ExtractRequest(EncodeRequest(r), handles, false) == Hashed(HashedRequest(r))
            <==> handles == |r.handles|
    ensures ExtractRequest(EncodeRequest(r), handles, false) == Hashed(RequestText(r))
            <==> handles == |r.handles| && r.ordinal != TPM_ORD_OSAP && r.ordinal != TPM_ORD_DSAP
    ensures handles == |r.handles| ==>
              ExtractRequest(EncodeRequest(r), handles, true) == Hashed(BE32(r.ordinal))
  {
    RequestFields(r, handles);
    RequestTextHashedExactly(r);
    hide BE32, Load32, EncodeRequest, RequestSize;
    var buf, e := EncodeRequest(r), ExtractRequest(EncodeRequest(r), handles, false);
    if handles == |r.handles| {
      if r.ordinal == TPM_ORD_DSAP {
        assert buf[40..40 + (|r.params| - 30)] == buf[10..10 + |r.params|][30..];
      }
      assert buf[6..10] + [] == buf[6..10];
    } else {
      assert e.Hashed? ==> |e.bytes| != 4 + |r.params|;
    }
  }

  /** The same for responses, where all three openers have parameters, and a table entry that is too
      large does no harm to a response that has neither handles nor parameters. */
  lemma ResponseExtraction(ordinal: uint32, r: Response, handles: nat)
    requires WellFormedResponse(ordinal, r)
    ensures InRange(EncodeResponse(ordinal, r))
    ensures HandlesFit(ResponseSize(EncodeResponse(ordinal, r), ordinal), |r.handles|)
    ensures var buf := EncodeResponse(ordinal, r);
            HandlesFit(ResponseSize(buf, ordinal), handles) ==>
              (ExtractResponse(buf, ordinal, handles, false) == Hashed(HashedResponse(ordinal, r))
               <==> handles == |r.handles| || ResponseSize(buf, ordinal) == 4)
              &&
              (ExtractResponse(buf, ordinal, handles, false) == Hashed(ResponseText(ordinal, r))
               <==> && (handles == |r.handles| || ResponseSize(buf, ordinal) == 4)
                    && (r.code != 0 || !Opener(ordinal)))
  {
    ResponseFields(ordinal, r);
    ResponseTextHashedExactly(ordinal, r);
    hide BE32, Load32, EncodeResponse, ResponseSize;
    var buf := EncodeResponse(ordinal, r);
    var size := ResponseSize(buf, ordinal);
    if HandlesFit(size, handles) {
      var e := ExtractResponse(buf, ordinal, handles, false);
      if size == 4 {
        assert e.bytes == BE32(r.code) + BE32(ordinal);
        assert HashedResponse(ordinal, r) == BE32(r.code) + BE32(ordinal) + [];
      } else if handles != |r.handles| {
        assert |e.bytes| != 8 + |r.params|;
      }
    }
  }
}
