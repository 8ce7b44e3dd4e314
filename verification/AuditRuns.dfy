/** The shadow audit log over whole runs, against a TPM that audits parsed commands. */
module AuditRuns {
  import opened Bytes
  import opened OrdinalBitmap
  import opened AuditWire
  import opened AuditLog

  // ----- The ordinal map as a set.

  /** After a reset exactly the default ordinals are audited. */
  lemma DefaultsRefine()
    ensures Members(Defaults().ordinalBitmap) == Elements(DEFAULT_AUDITED)
  {
    var empty: Bitmap := seq(32, i => 0);
    assert forall o: uint32 :: !Test(empty, o) by {
      hide Mask;
    }
    assert Members(empty) == {};
    SetAllRefines(empty, DEFAULT_AUDITED);
    hide SetAll, Members;
  }

  /** The two tables, by number. */
  lemma AuditTables()
    ensures NEVER_AUDITED == {0x82, 0x83, 0x85, 0x86, 0x8C}
    ensures Elements(DEFAULT_AUDITED) ==
            {0x0D, 0x10, 0x1F, 0x28, 0x2A, 0x2B, 0x2C, 0x2D, 0x2E, 0x2F, 0x30, 0x5B, 0x5C, 0x5D, 0x5E, 0x6E, 0x6F, 0x70,
             0x71, 0x72, 0x73, 0x79, 0x7A, 0x7C, 0x7D, 0x7E, 0x8D, 0x9A}
  {
  }

  ghost predicate NeverClear(au: Auditing) {
    Members(au.ordinalBitmap) !! NEVER_AUDITED
  }

  /** An ordinal that must never be audited gets into the map only through one from 256 on that
      shares its bit, since the source compares whole ordinals but stores their low byte. */
  lemma NeverAuditedKept(au: Auditing, ord: uint32, enable: bool)
    requires NeverClear(au)
    ensures NeverClear(WithStatus(au, ord, enable))
            <==> !enable || ord in NEVER_AUDITED || ord % 0x100 !in NEVER_AUDITED
  {
    SetRefines(au.ordinalBitmap, ord);
    ClearRefines(au.ordinalBitmap, ord);
    hide Members, Set, Clear;
  }

  /** After a reset none of them is in the map. */
  lemma NeverClearDefaults(counter: Counter)
    ensures NeverClear(WithCounter(Defaults(), counter))
  {
    DefaultsRefine();
    assert forall i :: 0 <= i < |DEFAULT_AUDITED| ==> DEFAULT_AUDITED[i] !in NEVER_AUDITED;
    hide Members, Defaults;
  }

  /** The update of an existing file is sound whatever the caller's structure held; the first one
      of all is not, as it writes that structure back. */
  lemma FirstUpdateWritesJunk(file: Option<Auditing>, ord: uint32)
    requires ord !in NEVER_AUDITED
    ensures (forall uninit :: SetAudited(Read(file, uninit), ord) == SetAudited(Current(file), ord)) <==> file.Some?
  {
    if file.None? {
      var ones: Digest := seq(20, i => 1);
      var uninit := Defaults().(auditDigest := ones);
      assert SetAudited(Read(file, uninit), ord).auditDigest[0] == 1;
      assert SetAudited(Current(file), ord).auditDigest[0] == 0;
    }
  }

  // ----- Commands, and a TPM that audits them in parsed form.

  datatype Command =
    | Execute(req: Request, rsp: Response)
    | SetStatus(ord: uint32, enable: bool, req: Request, rsp: Response)
    | GetDigest(counter: Counter, digest: Digest)
    | GetDigestSigned(close: bool, counter: Counter, digest: Digest)

  datatype Tpm = Tpm(audited: set<uint32>, digest: Digest, counter: Counter)

  /** The environment: the hash and the numbers of handles that the tables give. */
  datatype World = World(sha1: Hash, handles: uint32 -> nat, respHandles: uint32 -> nat, junk: Digest)

  function Fold(sha1: Hash, d: Digest, events: seq<Event>, c: Counter): Digest {
    if events == [] then d
    else Extend(sha1, Fold(sha1, d, events[..|events| - 1], c), events[|events| - 1], c)
  }

  lemma FoldTwo(sha1: Hash, d: Digest, e: Event, f: Event, c: Counter)
    ensures Fold(sha1, d, [e, f], c) == Extend(sha1, Extend(sha1, d, e, c), f, c)
  {
    assert [e, f][..1] == [e] && [e][..0] == [];
    assert Fold(sha1, d, [e], c) == Extend(sha1, d, e, c);
  }

  /** Which bytes an event's digest is of: those that sections 14.1 and 14.2 name, or those that the
      client hashes. */
  datatype Text = Documented | AsHashed

  function InEvent(w: World, text: Text, req: Request): Event {
    EventIn(w.sha1(if text.Documented? then RequestText(req) else HashedRequest(req)))
  }

  function OutEvent(w: World, text: Text, ord: uint32, rsp: Response): Event {
    EventOut(w.sha1(if text.Documented? then ResponseText(ord, rsp) else HashedResponse(ord, rsp)))
  }

  /** The audit events of one command: two if it is audited and succeeded, else none. */
  function Events(w: World, text: Text, audited: set<uint32>, req: Request, rsp: Response): seq<Event> {
    if rsp.code == 0 && req.ordinal in audited then [InEvent(w, text, req), OutEvent(w, text, req.ordinal, rsp)]
    else []
  }

  function StatusSet(audited: set<uint32>, ord: uint32, enable: bool): set<uint32> {
    if !enable then audited - {ord} else if ord in NEVER_AUDITED then audited else audited + {ord}
  }

  /** The counter goes up when an audit session starts, which is at the first event on the zero digest
      that the end of the last session has left. */
  function SessionCounter(t: Tpm): Counter {
    if t.digest == ZERO_DIGEST then t.counter.(count := (t.counter.count + 1) % 0x1_0000_0000) else t.counter
  }

  function TpmExchange(w: World, t: Tpm, req: Request, rsp: Response): Tpm {
    var events := Events(w, Documented, t.audited, req, rsp);
    if events == [] then t
    else Tpm(t.audited, Fold(w.sha1, t.digest, events, SessionCounter(t)), SessionCounter(t))
  }

  /** A status change takes effect before the command is audited. */
  function TpmStatus(t: Tpm, ord: uint32, enable: bool, rsp: Response): Tpm {
    if rsp.code == 0 then Tpm(StatusSet(t.audited, ord, enable), t.digest, t.counter) else t
  }

  function TpmStep(w: World, t: Tpm, c: Command): Tpm {
    match c
    case Execute(req, rsp) => TpmExchange(w, t, req, rsp)
    case SetStatus(ord, enable, req, rsp) => TpmExchange(w, TpmStatus(t, ord, enable, rsp), req, rsp)
    case GetDigest(_, _) => t
    case GetDigestSigned(close, _, _) => if close then Tpm(t.audited, ZERO_DIGEST, t.counter) else t
  }

  /** Well-formed messages, handle tables that are right about them, and truthful answers. */
  ghost predicate Honest(w: World, t: Tpm, c: Command) {
    match c
    case Execute(req, rsp) => Exchange(w, req, rsp)
    case SetStatus(ord, _, req, rsp) => ord < 0x100 && Exchange(w, req, rsp)
    case GetDigest(counter, digest) => counter == t.counter && digest == t.digest
    case GetDigestSigned(_, counter, digest) => counter == t.counter && digest == t.digest
  }

  ghost predicate Exchange(w: World, req: Request, rsp: Response) {
    && WellFormedRequest(req) && WellFormedResponse(req.ordinal, rsp)
    && w.handles(req.ordinal) == |req.handles|
    && OpenersBare(req.ordinal, w.handles(req.ordinal))
    && (rsp.code == 0 ==> w.respHandles(req.ordinal) == |rsp.handles|)
  }

  // ----- The client on the raw bytes of the same commands.

  lemma ExchangeInDomain(w: World, req: Request, rsp: Response)
    requires Exchange(w, req, rsp) && rsp.code == 0
    ensures RequestInDomain(EncodeRequest(req), w.handles)
    ensures ResponseInDomain(EncodeResponse(req.ordinal, rsp), req.ordinal, w.respHandles)
  {
    RequestExtraction(req, w.handles(req.ordinal));
    ResponseExtraction(req.ordinal, rsp, w.respHandles(req.ordinal));
  }

  /** TPM_Transmit: a command is audited, both sides of it, once it has succeeded. */
  ghost function ClientExchange(w: World, au: Auditing, req: Request, rsp: Response): Auditing
    requires Exchange(w, req, rsp)
  {
    if rsp.code != 0 then au
    else
      ExchangeInDomain(w, req, rsp);
      AuditOutput(w.sha1, w.respHandles,
                  AuditInput(w.sha1, w.handles, au, EncodeRequest(req), false, w.junk).1,
                  EncodeResponse(req.ordinal, rsp), req.ordinal, false, w.junk).1
  }

  /** The digest requests are not audited themselves, as their ordinals are never in the map. */
  ghost function ClientStep(w: World, t: Tpm, au: Auditing, c: Command): Auditing
    requires Honest(w, t, c) && NeverClear(au)
  {
    match c
    case Execute(req, rsp) => ClientExchange(w, au, req, rsp)
    case SetStatus(ord, enable, req, rsp) => ClientExchange(w, WithStatus(au, ord, enable), req, rsp)
    case GetDigest(counter, digest) => Synced(WithCounter(au, counter), digest)
    case GetDigestSigned(close, counter, digest) =>
      if close then WithCounter(Defaults(), counter) else Synced(au, digest)
  }

  lemma InputFolds(w: World, au: Auditing, req: Request)
    requires WellFormedRequest(req) && RequestInDomain(EncodeRequest(req), w.handles)
    requires w.handles(req.ordinal) == |req.handles|
    ensures AuditInput(w.sha1, w.handles, au, EncodeRequest(req), false, w.junk).1 ==
            if req.ordinal !in Members(au.ordinalBitmap) then au
            else au.(auditDigest := Extend(w.sha1, au.auditDigest, InEvent(w, AsHashed, req), au.auditCounter))
  {
    RequestFields(req, |req.handles|);
    RequestExtraction(req, |req.handles|);
    hide Load32, Mask, HashedRequest, EncodeRequest, ExtractRequest, Extend;
  }

  lemma OutputFolds(w: World, au: Auditing, ord: uint32, rsp: Response)
    requires WellFormedResponse(ord, rsp) && ResponseInDomain(EncodeResponse(ord, rsp), ord, w.respHandles)
    requires w.respHandles(ord) == |rsp.handles|
    ensures AuditOutput(w.sha1, w.respHandles, au, EncodeResponse(ord, rsp), ord, false, w.junk).1 ==
            if ord !in Members(au.ordinalBitmap) then au
            else au.(auditDigest := Extend(w.sha1, au.auditDigest, OutEvent(w, AsHashed, ord, rsp), au.auditCounter))
  {
    ResponseFields(ord, rsp);
    ResponseExtraction(ord, rsp, |rsp.handles|);
    hide Load32, Mask, HashedResponse, EncodeResponse, ExtractResponse, ResponseSize, Extend;
  }

  /** From raw bytes the client extends its digest by exactly the events of the parsed command; their
      digests are of the documented bytes unless the command is a session opener. */
  lemma ExchangeFolds(w: World, au: Auditing, req: Request, rsp: Response)
    requires Exchange(w, req, rsp)
    ensures ClientExchange(w, au, req, rsp) ==
            au.(auditDigest := Fold(w.sha1, au.auditDigest, Events(w, AsHashed, Members(au.ordinalBitmap), req, rsp),
                                    au.auditCounter))
    ensures !Opener(req.ordinal) ==>
              forall s :: Events(w, AsHashed, s, req, rsp) == Events(w, Documented, s, req, rsp)
  {
    RequestTextHashedExactly(req);
    ResponseTextHashedExactly(req.ordinal, rsp);
    var events := Events(w, AsHashed, Members(au.ordinalBitmap), req, rsp);
    hide AuditInput, AuditOutput, EncodeRequest, EncodeResponse, HashedRequest, HashedResponse, Members, Extend, Fold;
    if rsp.code == 0 {
      ExchangeInDomain(w, req, rsp);
      InputFolds(w, au, req);
      var mid := AuditInput(w.sha1, w.handles, au, EncodeRequest(req), false, w.junk).1;
      OutputFolds(w, mid, req.ordinal, rsp);
    }
    if events != [] {
      FoldTwo(w.sha1, au.auditDigest, events[0], events[1], au.auditCounter);
    } else {
      FoldNone(w.sha1, au.auditDigest, au.auditCounter);
    }
  }

  /** Each event of a fold adds one hash, over the digest so far and the bytes of the event. */
  lemma FoldHashes(sha1: Hash, d: Digest, events: seq<Event>, e: Event, c: Counter, ev: seq<byte>)
    requires IsEvent(ev, EventTag(e), e.parms, c)
    ensures Fold(sha1, d, events + [e], c) == sha1(Fold(sha1, d, events, c) + ev)
  {
    assert (events + [e])[..|events|] == events;
    ExtendHashes(sha1, Fold(sha1, d, events, c), e, c, ev);
    hide Extend, IsEvent;
  }

  lemma FoldNone(sha1: Hash, d: Digest, c: Counter)
    ensures Fold(sha1, d, [], c) == d
  {
  }

  /** TPM_DisablePubekRead carries no handle but the table gives it one, and it is audited by
      default: nothing of the request is hashed and the event's digest is whatever the variable held. */
  lemma DisablePubekReadNotHashed(auth: seq<byte>)
    requires |auth| == 45
    ensures var r := Request(0x7E, [], [], [auth]);
            && WellFormedRequest(r) && InRange(EncodeRequest(r)) && Load32(EncodeRequest(r), 6) == 0x7E
            && ExtractRequest(EncodeRequest(r), 1, false) == Untouched
            && 0x7E in Elements(DEFAULT_AUDITED)
  {
    var r := Request(0x7E, [], [], [auth]);
    FlatLength(r.auths, 45);
    RequestFields(r, 1);
    assert DEFAULT_AUDITED[9] == 0x7E;
  }

  // ----- One step.

  lemma NeverAuditedStep(w: World, t: Tpm, au: Auditing, c: Command)
    requires NeverClear(au) && Honest(w, t, c)
    ensures NeverClear(ClientStep(w, t, au, c))
  {
    hide ClientExchange, Events, Fold, Members, Defaults;
    match c
    case Execute(req, rsp) =>
      ExchangeFolds(w, au, req, rsp);
    case SetStatus(ord, enable, req, rsp) =>
      NeverAuditedKept(au, ord, enable);
      ExchangeFolds(w, WithStatus(au, ord, enable), req, rsp);
    case GetDigest(_, _) =>
    case GetDigestSigned(_, counter, _) =>
      NeverClearDefaults(counter);
  }

  ghost predicate Agree(au: Auditing, t: Tpm) {
    && SetsAgree(au, t)
    && au.auditDigest == t.digest && au.auditCounter == t.counter
  }

  ghost predicate SetsAgree(au: Auditing, t: Tpm) {
    NeverClear(au) && Members(au.ordinalBitmap) == t.audited
  }

  /** The steps that leave the sets of audited ordinals equal: the client changes its set before the
      TPM has accepted the change, and a closing digest request resets it to the defaults. */
  ghost predicate SetsKept(t: Tpm, c: Command) {
    match c
    case SetStatus(ord, enable, _, rsp) => rsp.code == 0 || StatusSet(t.audited, ord, enable) == t.audited
    case GetDigestSigned(close, _, _) => close ==> t.audited == Elements(DEFAULT_AUDITED)
    case _ => true
  }

  /** An exchange that adds the same to both digests: it adds nothing, or it starts no audit session
      and is no session opener. */
  ghost predicate SameEvents(w: World, t: Tpm, req: Request, rsp: Response) {
    Events(w, Documented, t.audited, req, rsp) == [] || (t.digest != ZERO_DIGEST && !Opener(req.ordinal))
  }

  /** The steps that do not drive client and TPM apart. */
  ghost predicate Steady(w: World, t: Tpm, c: Command) {
    && SetsKept(t, c)
    && match c
       case Execute(req, rsp) => SameEvents(w, t, req, rsp)
       case SetStatus(ord, enable, req, rsp) => SameEvents(w, TpmStatus(t, ord, enable, rsp), req, rsp)
       case _ => true
  }

  /** The hash does not collide on the two texts of a response, nor the fold on the events. */
  ghost predicate NoCollision(w: World, t: Tpm, req: Request, rsp: Response) {
    var hashed, documented := Events(w, AsHashed, t.audited, req, rsp), Events(w, Documented, t.audited, req, rsp);
    && (Fold(w.sha1, t.digest, hashed, t.counter) == Fold(w.sha1, t.digest, documented, t.counter) ==>
          hashed == documented)
    && (w.sha1(HashedResponse(req.ordinal, rsp)) == w.sha1(ResponseText(req.ordinal, rsp)) ==>
          HashedResponse(req.ordinal, rsp) == ResponseText(req.ordinal, rsp))
  }

  ghost predicate StepNoCollision(w: World, t: Tpm, c: Command) {
    match c
    case Execute(req, rsp) => NoCollision(w, t, req, rsp)
    case SetStatus(ord, enable, req, rsp) => NoCollision(w, TpmStatus(t, ord, enable, rsp), req, rsp)
    case _ => true
  }

  lemma StatusRefines(au: Auditing, ord: uint32, enable: bool)
    requires ord < 0x100
    ensures Members(WithStatus(au, ord, enable).ordinalBitmap) == StatusSet(Members(au.ordinalBitmap), ord, enable)
  {
    SetRefines(au.ordinalBitmap, ord);
    ClearRefines(au.ordinalBitmap, ord);
    hide Members, Set, Clear;
  }

  lemma SetsKeptExactly(w: World, t: Tpm, au: Auditing, c: Command)
    requires SetsAgree(au, t) && Honest(w, t, c)
    ensures SetsAgree(ClientStep(w, t, au, c), TpmStep(w, t, c)) <==> SetsKept(t, c)
  {
    hide ClientExchange, Events, Fold, Members, Defaults, StatusSet, Set, Clear, NeverClear;
    NeverAuditedStep(w, t, au, c);
    match c
    case Execute(req, rsp) =>
      ExchangeFolds(w, au, req, rsp);
    case SetStatus(ord, enable, req, rsp) =>
      StatusRefines(au, ord, enable);
      ExchangeFolds(w, WithStatus(au, ord, enable), req, rsp);
    case GetDigest(_, _) =>
    case GetDigestSigned(_, _, _) =>
      DefaultsRefine();
  }

  /** An exchange between two ends that agree leaves them in agreement exactly if it adds the same to
      both, as far as the hash does not collide. */
  lemma ExchangeAgreesExactly(w: World, t: Tpm, au: Auditing, req: Request, rsp: Response)
    requires Agree(au, t) && Exchange(w, req, rsp)
    ensures SameEvents(w, t, req, rsp) ==> Agree(ClientExchange(w, au, req, rsp), TpmExchange(w, t, req, rsp))
    ensures Agree(ClientExchange(w, au, req, rsp), TpmExchange(w, t, req, rsp)) && NoCollision(w, t, req, rsp) ==>
              SameEvents(w, t, req, rsp)
  {
    ExchangeFolds(w, au, req, rsp);
    ResponseTextHashedExactly(req.ordinal, rsp);
    FoldNone(w.sha1, t.digest, t.counter);
    assert SessionCounter(t) == t.counter <==> t.digest != ZERO_DIGEST;
    hide ClientExchange, Fold, Members, HashedRequest, HashedResponse, NeverClear;
  }

  /** A step leaves client and TPM in agreement exactly if it is steady: if it is, always; and only
      then, as far as the hash does not collide on this step. */
  lemma StepAgreesExactly(w: World, t: Tpm, au: Auditing, c: Command)
    requires Agree(au, t) && Honest(w, t, c)
    ensures Steady(w, t, c) ==> Agree(ClientStep(w, t, au, c), TpmStep(w, t, c))
    ensures Agree(ClientStep(w, t, au, c), TpmStep(w, t, c)) && StepNoCollision(w, t, c) ==> Steady(w, t, c)
  {
    SetsKeptExactly(w, t, au, c);
    hide ClientExchange, TpmExchange, SameEvents, NoCollision, Members, NeverClear, StatusSet, Set, Clear, Defaults;
    match c
    case Execute(req, rsp) =>
      ExchangeAgreesExactly(w, t, au, req, rsp);
    case SetStatus(ord, enable, req, rsp) =>
      NeverAuditedKept(au, ord, enable);
      StatusRefines(au, ord, enable);
      if SetsKept(t, c) {
        ExchangeAgreesExactly(w, TpmStatus(t, ord, enable, rsp), WithStatus(au, ord, enable), req, rsp);
      }
    case GetDigest(_, _) =>
    case GetDigestSigned(_, _, _) =>
  }

  /** The first audited command on a zero digest drives them apart, as the TPM counts the session. */
  lemma SessionStartParts(w: World, t: Tpm, au: Auditing, req: Request, rsp: Response)
    requires Agree(au, t) && Exchange(w, req, rsp)
    requires t.digest == ZERO_DIGEST && rsp.code == 0 && req.ordinal in t.audited
    ensures TpmExchange(w, t, req, rsp).counter != ClientExchange(w, au, req, rsp).auditCounter
  {
    hide ClientExchange, Fold, Members, NeverClear;
    ExchangeFolds(w, au, req, rsp);
  }

  /** So the shadow misses the very first command after a reset: here one without handles or
      parameters that is audited by default. */
  lemma ResetParts(w: World)
    requires w.handles(0x5D) == 0 && w.respHandles(0x5D) == 0
    ensures var c := Execute(Request(0x5D, [], [], []), Response(0, [], [], []));
            var t := Tpm(Elements(DEFAULT_AUDITED), ZERO_DIGEST, ZERO_COUNTER);
            && Agree(Defaults(), t) && Honest(w, t, c)
            && !Agree(ClientStep(w, t, Defaults(), c), TpmStep(w, t, c))
  {
    var req, rsp := Request(0x5D, [], [], []), Response(0, [], [], []);
    var t := Tpm(Elements(DEFAULT_AUDITED), ZERO_DIGEST, ZERO_COUNTER);
    assert DEFAULT_AUDITED[10] == 0x5D;
    assert Agree(Defaults(), t) by { DefaultsAgree(); }
    assert Exchange(w, req, rsp);
    hide Members, ClientExchange, Fold, SetAll, TpmExchange, Exchange, NeverClear, SetsAgree, Defaults, Elements;
    SessionStartParts(w, t, Defaults(), req, rsp);
  }

  lemma DefaultsAgree()
    ensures Agree(Defaults(), Tpm(Elements(DEFAULT_AUDITED), ZERO_DIGEST, ZERO_COUNTER))
  {
    NeverClearDefaults(ZERO_COUNTER);
    DefaultsRefine();
    hide Members, SetAll;
  }

  /** A truthful digest and counter bring them together again, whatever drove them apart, as long as
      the sets still agree. */
  lemma SyncRestores(w: World, t: Tpm, au: Auditing, counter: Counter, digest: Digest)
    requires SetsAgree(au, t) && Honest(w, t, GetDigest(counter, digest))
    ensures Agree(ClientStep(w, t, au, GetDigest(counter, digest)), t)
  {
  }

  // ----- Whole runs.

  ghost predicate HonestRun(w: World, t: Tpm, cmds: seq<Command>)
    decreases cmds
  {
    cmds == [] || (Honest(w, t, cmds[0]) && HonestRun(w, TpmStep(w, t, cmds[0]), cmds[1..]))
  }

  ghost predicate SetsKeptRun(w: World, t: Tpm, cmds: seq<Command>)
    decreases cmds
  {
    cmds == [] || (SetsKept(t, cmds[0]) && SetsKeptRun(w, TpmStep(w, t, cmds[0]), cmds[1..]))
  }

  ghost predicate SteadyRun(w: World, t: Tpm, cmds: seq<Command>)
    decreases cmds
  {
    cmds == [] || (Steady(w, t, cmds[0]) && SteadyRun(w, TpmStep(w, t, cmds[0]), cmds[1..]))
  }

  function TpmRun(w: World, t: Tpm, cmds: seq<Command>): Tpm
    decreases cmds
  {
    if cmds == [] then t else TpmRun(w, TpmStep(w, t, cmds[0]), cmds[1..])
  }

  ghost function ClientRun(w: World, t: Tpm, au: Auditing, cmds: seq<Command>): Auditing
    requires HonestRun(w, t, cmds) && NeverClear(au)
    decreases cmds
  {
    if cmds == [] then au
    else
      NeverAuditedStep(w, t, au, cmds[0]);
      ClientRun(w, TpmStep(w, t, cmds[0]), ClientStep(w, t, au, cmds[0]), cmds[1..])
  }

  /** The ordinals that must never be audited never are, over every run from a state without them. */
  lemma {:induction false} NeverAuditedRun(w: World, t: Tpm, au: Auditing, cmds: seq<Command>)
    requires HonestRun(w, t, cmds) && NeverClear(au)
    ensures NeverClear(ClientRun(w, t, au, cmds))
    decreases cmds
  {
    if cmds != [] {
      NeverAuditedStep(w, t, au, cmds[0]);
      hide NeverClear, Honest, TpmStep, ClientStep;
      NeverAuditedRun(w, TpmStep(w, t, cmds[0]), ClientStep(w, t, au, cmds[0]), cmds[1..]);
    }
  }

  /** Over every run of steady steps the shadow stays equal to the TPM. */
  lemma {:induction false} RunAgrees(w: World, t: Tpm, au: Auditing, cmds: seq<Command>)
    requires Agree(au, t) && HonestRun(w, t, cmds) && SteadyRun(w, t, cmds)
    ensures Agree(ClientRun(w, t, au, cmds), TpmRun(w, t, cmds))
    decreases cmds
  {
    if cmds != [] {
      StepAgreesExactly(w, t, au, cmds[0]);
      NeverAuditedStep(w, t, au, cmds[0]);
      hide Agree, NeverClear, Steady, Honest, TpmStep, ClientStep;
      RunAgrees(w, TpmStep(w, t, cmds[0]), ClientStep(w, t, au, cmds[0]), cmds[1..]);
    }
  }

  /** Over every run whatever, the sets stay equal if each step keeps them so. */
  lemma {:induction false} RunSetsAgree(w: World, t: Tpm, au: Auditing, cmds: seq<Command>)
    requires SetsAgree(au, t) && HonestRun(w, t, cmds) && SetsKeptRun(w, t, cmds)
    ensures SetsAgree(ClientRun(w, t, au, cmds), TpmRun(w, t, cmds))
    decreases cmds
  {
    if cmds != [] {
      SetsKeptExactly(w, t, au, cmds[0]);
      NeverAuditedStep(w, t, au, cmds[0]);
      hide SetsAgree, NeverClear, SetsKept, Honest, TpmStep, ClientStep;
      RunSetsAgree(w, TpmStep(w, t, cmds[0]), ClientStep(w, t, au, cmds[0]), cmds[1..]);
    }
  }

  lemma {:induction false} RunSplit(w: World, t: Tpm, au: Auditing, a: seq<Command>, b: seq<Command>)
    requires HonestRun(w, t, a + b) && NeverClear(au)
    ensures HonestRun(w, t, a) && HonestRun(w, TpmRun(w, t, a), b) && NeverClear(ClientRun(w, t, au, a))
    ensures TpmRun(w, t, a + b) == TpmRun(w, TpmRun(w, t, a), b)
    ensures ClientRun(w, t, au, a + b) == ClientRun(w, TpmRun(w, t, a), ClientRun(w, t, au, a), b)
    decreases a
  {
    if a == [] {
      assert a + b == b;
    } else {
      assert (a + b)[0] == a[0] && (a + b)[1..] == a[1..] + b;
      NeverAuditedStep(w, t, au, a[0]);
      hide NeverClear, Honest, TpmStep, ClientStep;
      RunSplit(w, TpmStep(w, t, a[0]), ClientStep(w, t, au, a[0]), a[1..], b);
    }
  }

  /** After any digest request the shadow equals the TPM again, and stays so over steady steps: all
      that the run before it must have kept is the sets. */
  lemma RunAgreesAfterSync(w: World, t: Tpm, au: Auditing, a: seq<Command>, counter: Counter, digest: Digest,
                           b: seq<Command>)
    requires SetsAgree(au, t) && HonestRun(w, t, a + ([GetDigest(counter, digest)] + b))
    requires SetsKeptRun(w, t, a) && SteadyRun(w, TpmRun(w, t, a), b)
    ensures var cmds := a + ([GetDigest(counter, digest)] + b);
            Agree(ClientRun(w, t, au, cmds), TpmRun(w, t, cmds))
  {
    var sync := GetDigest(counter, digest);
    RunSplit(w, t, au, a, [sync] + b);
    RunSetsAgree(w, t, au, a);
    var t1, au1 := TpmRun(w, t, a), ClientRun(w, t, au, a);
    assert ([sync] + b)[0] == sync && ([sync] + b)[1..] == b;
    SyncRestores(w, t1, au1, counter, digest);
    hide Agree, SetsAgree, NeverClear, Steady, ClientStep;
    assert NeverClear(ClientStep(w, t1, au1, sync)) by { NeverAuditedStep(w, t1, au1, sync); }
    RunAgrees(w, t1, ClientStep(w, t1, au1, sync), b);
  }

  // ----- The stored digest as a fold.

  lemma {:induction false} FoldAppend(sha1: Hash, d: Digest, a: seq<Event>, b: seq<Event>, c: Counter)
    ensures Fold(sha1, d, a + b, c) == Fold(sha1, Fold(sha1, d, a, c), b, c)
  {
    if b == [] {
      assert a + b == a;
    } else {
      var last := |b| - 1;
      FoldAppend(sha1, d, a, b[..last], c);
      assert (a + b)[..|a + b| - 1] == a + b[..last];
    }
  }

  /** The set that the client looks a command's ordinal up in. */
  function SetFor(audited: set<uint32>, c: Command): set<uint32> {
    if c.SetStatus? then StatusSet(audited, c.ord, c.enable) else audited
  }

  /** No digest request, and so no sync and no reset. */
  predicate NoSync(cmds: seq<Command>) {
    forall i :: 0 <= i < |cmds| ==> cmds[i].Execute? || cmds[i].SetStatus?
  }

  /** The events of a run of commands: those of the audited and successful ones, in order, as the set
      of audited ordinals changes. */
  function RunEvents(w: World, text: Text, audited: set<uint32>, cmds: seq<Command>): seq<Event>
    requires NoSync(cmds)
    decreases cmds
  {
    if cmds == [] then []
    else
      var now := SetFor(audited, cmds[0]);
      Events(w, text, now, cmds[0].req, cmds[0].rsp) + RunEvents(w, text, now, cmds[1..])
  }

  function RunSet(audited: set<uint32>, cmds: seq<Command>): set<uint32>
    decreases cmds
  {
    if cmds == [] then audited else RunSet(SetFor(audited, cmds[0]), cmds[1..])
  }

  /** No session opener succeeds while it is audited. */
  predicate OpenersUnaudited(audited: set<uint32>, cmds: seq<Command>)
    requires NoSync(cmds)
    decreases cmds
  {
    cmds == [] ||
    (var now := SetFor(audited, cmds[0]);
     && (cmds[0].rsp.code == 0 && cmds[0].req.ordinal in now ==> !Opener(cmds[0].req.ordinal))
     && OpenersUnaudited(now, cmds[1..]))
  }

  lemma {:induction false} RunEventsDocumented(w: World, t: Tpm, audited: set<uint32>, cmds: seq<Command>)
    requires HonestRun(w, t, cmds) && NoSync(cmds) && OpenersUnaudited(audited, cmds)
    ensures RunEvents(w, AsHashed, audited, cmds) == RunEvents(w, Documented, audited, cmds)
    decreases cmds
  {
    if cmds != [] {
      RequestTextHashedExactly(cmds[0].req);
      ResponseTextHashedExactly(cmds[0].req.ordinal, cmds[0].rsp);
      RunEventsDocumented(w, TpmStep(w, t, cmds[0]), SetFor(audited, cmds[0]), cmds[1..]);
      hide HashedRequest, HashedResponse, TpmStep, SetFor;
    }
  }

  lemma CommandFolds(w: World, t: Tpm, au: Auditing, c: Command)
    requires Honest(w, t, c) && NeverClear(au) && (c.Execute? || c.SetStatus?)
    ensures var now, next := SetFor(Members(au.ordinalBitmap), c), ClientStep(w, t, au, c);
            && Members(next.ordinalBitmap) == now
            && next.auditDigest == Fold(w.sha1, au.auditDigest, Events(w, AsHashed, now, c.req, c.rsp), au.auditCounter)
            && next.calcAuditDigest == au.calcAuditDigest && next.auditCounter == au.auditCounter
  {
    hide ClientExchange, Events, Fold, Members, StatusSet, Set, Clear;
    if c.SetStatus? {
      StatusRefines(au, c.ord, c.enable);
      ExchangeFolds(w, WithStatus(au, c.ord, c.enable), c.req, c.rsp);
    } else {
      ExchangeFolds(w, au, c.req, c.rsp);
    }
  }

  /** Over every run between syncs, status changes included and whatever the TPM's state, the stored
      digest is the fold, from where the last sync or reset left it, of the events of the parsed
      commands; they are the documented ones if no session opener is audited. The counter and the
      digest kept for comparison stay. */
  lemma {:induction false} ShadowFold(w: World, t: Tpm, au: Auditing, cmds: seq<Command>)
    requires HonestRun(w, t, cmds) && NeverClear(au) && NoSync(cmds)
    ensures var audited, end := Members(au.ordinalBitmap), ClientRun(w, t, au, cmds);
            && end.auditDigest == Fold(w.sha1, au.auditDigest, RunEvents(w, AsHashed, audited, cmds), au.auditCounter)
            && (OpenersUnaudited(audited, cmds) ==>
                  end.auditDigest ==
                  Fold(w.sha1, au.auditDigest, RunEvents(w, Documented, audited, cmds), au.auditCounter))
            && end.calcAuditDigest == au.calcAuditDigest && end.auditCounter == au.auditCounter
            && Members(end.ordinalBitmap) == RunSet(audited, cmds)
    decreases cmds
  {
    var audited := Members(au.ordinalBitmap);
    if OpenersUnaudited(audited, cmds) {
      RunEventsDocumented(w, t, audited, cmds);
    }
    if cmds == [] {
      FoldNone(w.sha1, au.auditDigest, au.auditCounter);
    } else {
      hide Members, Fold, TpmStep, ClientStep, NeverClear, Events, SetFor, OpenersUnaudited;
      var next, now := ClientStep(w, t, au, cmds[0]), SetFor(audited, cmds[0]);
      NeverAuditedStep(w, t, au, cmds[0]);
      CommandFolds(w, t, au, cmds[0]);
      ShadowFold(w, TpmStep(w, t, cmds[0]), next, cmds[1..]);
      FoldAppend(w.sha1, au.auditDigest, Events(w, AsHashed, now, cmds[0].req, cmds[0].rsp),
                 RunEvents(w, AsHashed, now, cmds[1..]), au.auditCounter);
    }
  }

  /** So over every run with a digest request in it, the stored digest is the fold of the events since
      the last one, from the digest that the TPM answered or, after a closing one, from zero. */
  lemma FoldSinceSync(w: World, t: Tpm, au: Auditing, a: seq<Command>, sync: Command, b: seq<Command>)
    requires HonestRun(w, t, a + ([sync] + b)) && NeverClear(au)
    requires (sync.GetDigest? || sync.GetDigestSigned?) && NoSync(b)
    ensures HonestRun(w, t, a) && NeverClear(ClientRun(w, t, au, a)) && Honest(w, TpmRun(w, t, a), sync)
    ensures var synced := ClientStep(w, TpmRun(w, t, a), ClientRun(w, t, au, a), sync);
            var audited := Members(synced.ordinalBitmap);
            var end := ClientRun(w, t, au, a + ([sync] + b));
            && synced.auditDigest == (if sync.GetDigestSigned? && sync.close then ZERO_DIGEST else sync.digest)
            && end.auditDigest ==
                 Fold(w.sha1, synced.auditDigest, RunEvents(w, AsHashed, audited, b), synced.auditCounter)
            && (OpenersUnaudited(audited, b) ==>
                  end.auditDigest ==
                  Fold(w.sha1, synced.auditDigest, RunEvents(w, Documented, audited, b), synced.auditCounter))
  {
    RunSplit(w, t, au, a, [sync] + b);
    assert ([sync] + b)[0] == sync && ([sync] + b)[1..] == b;
    var t1, au1 := TpmRun(w, t, a), ClientRun(w, t, au, a);
    NeverAuditedStep(w, t1, au1, sync);
    hide Fold, Members, RunEvents, NeverClear, OpenersUnaudited, SetAll;
    ShadowFold(w, TpmStep(w, t1, sync), ClientStep(w, t1, au1, sync), b);
  }

  /** At a sync the calculated digest kept for comparison is the client's fold since the sync before,
      and it matches what the TPM answers if the two agreed there and all steps since were steady. */
  lemma SyncComparesFold(w: World, t: Tpm, au: Auditing, cmds: seq<Command>, counter: Counter, digest: Digest)
    requires HonestRun(w, t, cmds) && NeverClear(au) && NoSync(cmds)
    requires Honest(w, TpmRun(w, t, cmds), GetDigest(counter, digest))
    ensures NeverClear(ClientRun(w, t, au, cmds))
    ensures var audited := Members(au.ordinalBitmap);
            var synced := ClientStep(w, TpmRun(w, t, cmds), ClientRun(w, t, au, cmds), GetDigest(counter, digest));
            && synced.calcAuditDigest ==
                 Fold(w.sha1, au.auditDigest, RunEvents(w, AsHashed, audited, cmds), au.auditCounter)
            && (OpenersUnaudited(audited, cmds) ==>
                  synced.calcAuditDigest ==
                  Fold(w.sha1, au.auditDigest, RunEvents(w, Documented, audited, cmds), au.auditCounter))
            && synced.auditDigest == digest && synced.auditCounter == counter
            && (Agree(au, t) && SteadyRun(w, t, cmds) ==> synced.calcAuditDigest == digest)
  {
    hide Fold, Members, RunEvents, NeverClear, OpenersUnaudited;
    NeverAuditedRun(w, t, au, cmds);
    ShadowFold(w, t, au, cmds);
    if Agree(au, t) && SteadyRun(w, t, cmds) {
      RunAgrees(w, t, au, cmds);
    }
  }
}
