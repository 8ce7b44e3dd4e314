/** The key residency manager: it pages keys between the TPM's key slots and swap files so that
    the keys a command needs are loaded and enough slots stay free. */
module KeySwap {
  import opened Bytes
  import opened EvictionSweep

  type Key = seq<byte>

  /** What TPM_SaveContext hands out for a key and TPM_LoadContext takes back. */
  datatype Context = Context(handle: Handle, key: Key)

  /** A swap file that was opened for writing but holds no context yet has no entry in `files`. */
  datatype Snapshot = Snapshot(resident: map<Handle, Key>, files: map<Handle, Context>, inSwapping: bool)

  /** Every key is in the TPM unchanged, or else in its swap file as the TPM saved it. */
  ghost predicate Kept(s: Snapshot, keys: map<Handle, Key>) {
    forall h :: h in keys ==>
      if h in s.resident then s.resident[h] == keys[h]
      else h in s.files && s.files[h] == Context(h, keys[h])
  }

  /** The trace went on, every new state kept the keys and nested calls were shut out in it. */
  ghost predicate Extends(after: seq<Snapshot>, before: seq<Snapshot>, keys: map<Handle, Key>) {
    && before <= after
    && forall i :: |before| <= i < |after| ==> Kept(after[i], keys) && after[i].inSwapping
  }

  lemma ExtendsItself(a: seq<Snapshot>, keys: map<Handle, Key>)
    ensures Extends(a, a, keys)
  {
  }

  lemma ExtendsOn(c: seq<Snapshot>, b: seq<Snapshot>, a: seq<Snapshot>, keys: map<Handle, Key>)
    requires Extends(c, b, keys) && Extends(b, a, keys)
    ensures Extends(c, a, keys)
  {
  }

  lemma KeptWhileSwapping(resident: map<Handle, Key>, files: map<Handle, Context>, keys: map<Handle, Key>)
    ensures Kept(Snapshot(resident, files, true), keys) == Kept(Snapshot(resident, files, false), keys)
  {
  }

  lemma KeptTruncated(s: Snapshot, keys: map<Handle, Key>, h: Handle)
    requires Kept(s, keys) && h in s.resident
    ensures Kept(s.(files := s.files - {h}), keys)
  {
  }

  lemma KeptWritten(s: Snapshot, keys: map<Handle, Key>, h: Handle)
    requires Kept(s, keys) && h in s.resident
    ensures Kept(s.(files := s.files[h := Context(h, s.resident[h])]), keys)
  {
  }

  lemma KeptEvicted(s: Snapshot, keys: map<Handle, Key>, h: Handle)
    requires Kept(s, keys) && h in s.resident && h in s.files && s.files[h] == Context(h, s.resident[h])
    ensures Kept(s.(resident := s.resident - {h}), keys)
  {
  }

  lemma ExtendsNext(a: seq<Snapshot>, b: seq<Snapshot>, next: Snapshot, keys: map<Handle, Key>)
    requires Extends(b, a, keys) && Kept(next, keys) && next.inSwapping
    ensures Extends(b + [next], a, keys)
  {
  }

  /** Handles of keys that never leave the TPM and are never listed. */
  predicate Fixed(h: Handle) {
    h == 0 || h == 0x4000_0000 || h == 0x4000_0006 || h == 0xffff_ffff
  }

  function Requested(key1: Handle, key2: Handle, key3: Handle): set<Handle> {
    set h | h in {key1, key2, key3} && !Fixed(h)
  }

  predicate IsHandleList(caps: seq<byte>) {
    |caps| >= 2 && (|caps| - 2) % 4 == 0
  }

  function Listed(caps: seq<byte>): seq<Handle>
    requires IsHandleList(caps)
  {
    seq((|caps| - 2) / 4, i requires 0 <= i < (|caps| - 2) / 4 => Load32(caps, 2 + 4 * i))
  }

  /** Slots that loading the key takes: none if it is listed or never leaves the TPM. */
  function Missing(listed: set<Handle>, key: Handle): (n: nat)
    ensures n <= 1
  {
    if Fixed(key) || key in listed then 0 else 1
  }

  lemma ListedCount(caps: seq<byte>)
    requires IsHandleList(caps) && Distinct(Listed(caps))
    ensures |Elements(Listed(caps))| == (|caps| - 2) / 4
  {
    DistinctCount(Listed(caps));
  }

  method IsKeyInTPM(caps: seq<byte>, shandle: Handle) returns (found: bool)
    requires IsHandleList(caps)
    ensures found <==> Missing(Elements(Listed(caps)), shandle) == 0
    ensures found <==> shandle in {0, 0x4000_0000, 0x4000_0006, 0xffff_ffff} || shandle in Listed(caps)
  {
    if shandle == 0 || shandle == 0x4000_0000 || shandle == 0x4000_0006 || shandle == 0xffff_ffff {
      return true;
    }
    var ctr := 2;
    while ctr < |caps|
      invariant 2 <= ctr <= |caps| && (ctr - 2) % 4 == 0
      invariant shandle !in Listed(caps)[..(ctr - 2) / 4]
    {
      ghost var i := (ctr - 2) / 4;
      assert Listed(caps)[..i + 1] == Listed(caps)[..i] + [Load32(caps, ctr)];
      var handle := Load32(caps, ctr);
      if handle == shandle {
        assert Listed(caps)[i] == shandle;
        return true;
      }
      ctr := ctr + 4;
    }
    assert Listed(caps)[..(ctr - 2) / 4] == Listed(caps);
    return false;
  }

  /** Exactly the keys in `evicted` left a TPM that held `was`: it holds `resident` now, and each
      of them has its swap file. */
  ghost predicate Swept(was: map<Handle, Key>, evicted: set<Handle>, s: Snapshot) {
    && s.resident == was - evicted
    && evicted <= was.Keys
    && forall h :: h in evicted ==> h in s.files && s.files[h] == Context(h, was[h])
  }

  /** What swapping out key h means: the key leaves for its file, or the attempt touches no more
      than that file. */
  ghost predicate SwappedOut(s: Snapshot, t: Snapshot, h: Handle, ret: uint32) {
    && t.files - {h} == s.files - {h}
    && (ret == 0 ==> && h in s.resident && t.resident == s.resident - {h}
                     && h in t.files && t.files[h] == Context(h, s.resident[h]))
    && (ret != 0 ==> t.resident == s.resident)
  }

  lemma NothingSwappedOut(s: Snapshot, h: Handle)
    ensures forall ret: uint32 :: ret != 0 ==> SwappedOut(s, s, h, ret)
  {
  }

  lemma SwappedOutOr(s: Snapshot, t: Snapshot, h: Handle, ret: uint32)
    requires h in s.resident && t.files == (s.files - {h})[h := Context(h, s.resident[h])]
    requires t.resident == if ret == 0 then s.resident - {h} else s.resident
    ensures SwappedOut(s, t, h, ret)
  {
  }

  /** What swapping in key h means: it comes back from its file, under its handle. */
  ghost predicate SwappedIn(s: Snapshot, t: Snapshot, h: Handle) {
    && h !in s.resident && h in s.files
    && t.resident == s.resident[h := s.files[h].key]
  }

  /** Swapping a key out and in again leaves the TPM with the keys it had. */
  lemma SwapRoundTrip(s: Snapshot, t: Snapshot, u: Snapshot, h: Handle)
    requires SwappedOut(s, t, h, 0) && SwappedIn(t, u, h)
    ensures u.resident == s.resident
  {
  }

  lemma NoneSwept(s: Snapshot)
    ensures Swept(s.resident, {}, s)
  {
  }

  lemma SweptKeys(was: map<Handle, Key>, evicted: set<Handle>, s: Snapshot)
    requires Swept(was, evicted, s)
    ensures s.resident.Keys == was.Keys - evicted
  {
  }

  lemma SweptHas(was: map<Handle, Key>, evicted: set<Handle>, s: Snapshot, h: Handle)
    requires Swept(was, evicted, s) && h in was && h !in evicted
    ensures h in s.resident
  {
  }

  /** Swapping out a key touches no file but its own. */
  lemma FilesElsewhere(s: Snapshot, t: Snapshot, h: Handle, ret: uint32, keys: set<Handle>)
    requires SwappedOut(s, t, h, ret) && h in keys
    ensures t.files.Keys - keys == s.files.Keys - keys
  {
    forall g | g !in keys ensures g in t.files <==> g in s.files {
      assert g in t.files - {h} <==> g in s.files - {h};
    }
  }

  lemma SweptOn(was: map<Handle, Key>, evicted: set<Handle>, s: Snapshot, h: Handle, ret: uint32, t: Snapshot)
    requires Swept(was, evicted, s) && SwappedOut(s, t, h, ret) && h !in evicted
    ensures Swept(was, if ret == 0 then evicted + {h} else evicted, t)
  {
    forall g | g in evicted ensures g in t.files && t.files[g] == Context(g, was[g]) {
      assert g in s.files - {h} && (s.files - {h})[g] == (t.files - {h})[g];
    }
  }

  /** How a call of needKeysRoom_General went: turned away before the handle list was read, or
      on through an eviction loop (that made no turn when no slot was needed). */
  datatype Route = TurnedAway | Managed(demand: nat, end: Sweep)

  function ToLoad(listed: set<Handle>, key: Handle): set<Handle> {
    if Missing(listed, key) == 1 then {key} else {}
  }

  lemma AllRequested(listed: set<Handle>, evicted: set<Handle>, key1: Handle, key2: Handle, key3: Handle)
    requires evicted !! {key1, key2, key3}
    ensures listed - evicted + Requested(key1, key2, key3) ==
            listed - evicted + ToLoad(listed, key1) + ToLoad(listed, key2) + ToLoad(listed, key3)
  {
  }

  /** How a call dealt with the slots, whatever it returned. The slot demanded for key3 depends on key2,
      since the source tests intpm2 twice. */
  ghost predicate Accounted(capacity: nat, owners: set<Handle>, listed: set<Handle>, room: nat,
                            key1: Handle, key2: Handle, key3: Handle, route: Route)
    requires route.Managed?
  {
    var keep, end := {key1, key2, key3}, route.end;
    && route.demand == room + Missing(listed, key1) + 2 * Missing(listed, key2)
    && (route.demand <= capacity - |listed| ==> end.evicted == {})
    && (route.demand > capacity - |listed| ==>
          Settled(owners, listed, keep, route.demand - (capacity - |listed|), end))
  }

  lemma AccountedIs(capacity: nat, owners: set<Handle>, listed: set<Handle>, room: nat,
                    key1: Handle, key2: Handle, key3: Handle, demand: nat, end: Sweep)
    requires |listed| <= capacity && demand == room + Missing(listed, key1) + 2 * Missing(listed, key2)
    requires if demand > capacity - |listed|
             then Settled(owners, listed, {key1, key2, key3}, demand - (capacity - |listed|), end)
             else end.evicted == {}
    ensures Accounted(capacity, owners, listed, room, key1, key2, key3, Managed(demand, end))
  {
  }

  datatype Request = Ordinary(key1: Handle, key2: Handle, key3: Handle, room: nat, transports: nat)
                   | Stacked(key1: Handle)

  ghost predicate NoneFixed(listed: set<Handle>) {
    forall h :: h in listed ==> !Fixed(h)
  }

  lemma AtMostThree(key1: Handle, key2: Handle, key3: Handle)
    ensures |Requested(key1, key2, key3)| <= 3
  {
    Subset(Requested(key1, key2, key3), {key1, key2, key3});
    assert {key1, key2, key3} == {key1} + {key2} + {key3};
  }

  /** Fixed handles make no difference, as they are never listed. */
  lemma SettledWanted(owners: set<Handle>, listed: set<Handle>, key1: Handle, key2: Handle, key3: Handle, slots: nat,
                      end: Sweep)
    requires Settled(owners, listed, {key1, key2, key3}, slots, end) && NoneFixed(listed)
    ensures Settled(owners, listed, Requested(key1, key2, key3), slots, end)
  {
    assert {key1, key2, key3} * listed == Requested(key1, key2, key3) * listed;
    assert listed - {key1, key2, key3} == listed - Requested(key1, key2, key3);
  }

  /** What the slots come to after an ordinary call, whose demand has a margin of three. */
  lemma AccountedRoom(capacity: nat, owners: set<Handle>, listed: set<Handle>, room: nat,
                      key1: Handle, key2: Handle, key3: Handle, route: Route)
    requires route.Managed? && route.end.ret == 0 && |listed| <= capacity && NoneFixed(listed)
    requires Accounted(capacity, owners, listed, room + 3, key1, key2, key3, route)
    ensures var wanted := Requested(key1, key2, key3);
            && (room <= capacity - |listed - route.end.evicted + wanted|
                <==> room <= capacity - |wanted + listed * owners|)
            && (route.demand <= capacity - |listed| || route.end.left == 0 ==>
                  room <= capacity - |listed - route.end.evicted + wanted|)
  {
    var wanted, end := Requested(key1, key2, key3), route.end;
    AtMostThree(key1, key2, key3);
    var slots: int := route.demand - (capacity - |listed|);
    if slots > 0 {
      SettledWanted(owners, listed, key1, key2, key3, slots, end);
    }
    hide Settled, Requested, NoneFixed;
    RoomExactly(owners, listed, wanted, end, capacity, route.demand, room);
  }

  /** What the demand of the stacked variant evicts, and that a call that fits its key in evicts as
      much as it may. */
  lemma AccountedStacked(capacity: nat, owners: set<Handle>, listed: set<Handle>, key1: Handle, route: Route)
    requires route.Managed? && |listed| <= capacity && NoneFixed(listed)
    requires Accounted(capacity, owners, listed, 0, key1, 0, 0, route)
    ensures var bound := if Missing(listed, key1) == 1 && |listed| == capacity then 1 else 0;
            && key1 !in route.end.evicted
            && |route.end.evicted| <= bound
            && (|listed - route.end.evicted + Requested(key1, 0, 0)| <= capacity ==> |route.end.evicted| == bound)
  {
  }

  // ----- The environment: what it answers to each TPM command and file operation, in the order they
  // ----- are made, is given from the start and not up to the manager.

  /** The code that the n-th operation fails with, or 0. */
  type Faults = nat -> uint32

  /** TPM_OWNER_CONTROL is answered for keys under owner control only. */
  function Fault(faults: Faults, n: nat): (code: uint32)
    ensures code != TPM_OWNER_CONTROL
  {
    if faults(n) == TPM_OWNER_CONTROL then ERR_BUFFER else faults(n)
  }

  /** What swapping out a key in the TPM returns and how many operations it makes: saving the context,
      opening the file, evicting the key. */
  function OutCode(faults: Faults, n: nat, owned: bool): uint32 {
    if owned then TPM_OWNER_CONTROL
    else if Fault(faults, n) != 0 then Fault(faults, n)
    else if Fault(faults, n + 1) != 0 then ERR_BAD_FILE
    else Fault(faults, n + 2)
  }

  function OutCalls(faults: Faults, n: nat, owned: bool): nat {
    if owned || Fault(faults, n) != 0 then 1 else if Fault(faults, n + 1) != 0 then 2 else 3
  }

  /** The same for swapping in: reading the file, loading the context, removing the file. */
  function InCode(faults: Faults, n: nat, there: bool, filed: bool, room: bool): uint32 {
    if Fault(faults, n) != 0 || !filed then ERR_BAD_FILE
    else if Fault(faults, n + 1) != 0 then Fault(faults, n + 1)
    else if there || !room then ERR_BUFFER
    else 0
  }

  function InCalls(faults: Faults, n: nat, there: bool, filed: bool, room: bool): nat {
    if Fault(faults, n) != 0 || !filed then 1
    else if InCode(faults, n, there, filed, room) != 0 then 2
    else 3
  }

  /** What the two queries return: a TPM that answers them does so truthfully. */
  function CapacityCode(faults: Faults, n: nat, answer: seq<byte>, capacity: nat): (code: uint32)
    ensures code == 0 && |answer| >= 4 ==> Load32(answer, 0) == capacity
  {
    if Fault(faults, n) != 0 then Fault(faults, n)
    else if |answer| >= 4 && Load32(answer, 0) != capacity then ERR_BUFFER
    else 0
  }

  predicate Lists(answer: seq<byte>, keys: set<Handle>) {
    IsHandleList(answer) && Distinct(Listed(answer)) && Elements(Listed(answer)) == keys
  }

  lemma ListsExactly(answer: seq<byte>, keys: set<Handle>)
    ensures Lists(answer, keys) <==>
              IsHandleList(answer) && Distinct(Listed(answer)) && Elements(Listed(answer)) == keys
  {
  }

  function HandlesCode(faults: Faults, n: nat, answer: seq<byte>, keys: set<Handle>): (code: uint32)
    ensures code == 0 ==> Lists(answer, keys)
  {
    if Fault(faults, n) != 0 then Fault(faults, n) else if !Lists(answer, keys) then ERR_BUFFER else 0
  }

  /** The codes that the swap-outs of the first k handles return, as far as the loop gets, and the
      number of operations made by then. */
  function Turns(faults: Faults, owners: set<Handle>, handles: seq<Handle>, keep: set<Handle>, n: nat,
                 slots: nat, k: nat)
    : (r: (seq<uint32>, nat))
    requires k <= |handles|
    ensures |r.0| <= k
  {
    if k == 0 then ([], n)
    else
      var (codes, m) := Turns(faults, owners, handles, keep, n, slots, k - 1);
      if |codes| < k - 1 || !Live(After(handles, keep, codes, slots)) then (codes, m)
      else if handles[k - 1] in keep then (codes + [0], m)
      else
        var owned := handles[k - 1] in owners;
        (codes + [OutCode(faults, m, owned)], m + OutCalls(faults, m, owned))
  }

  lemma TurnsNext(faults: Faults, owners: set<Handle>, handles: seq<Handle>, keep: set<Handle>, n: nat, slots: nat,
                  k: nat)
    requires 0 < k <= |handles|
    requires var codes := Turns(faults, owners, handles, keep, n, slots, k - 1).0;
             |codes| == k - 1 && Live(After(handles, keep, codes, slots))
    ensures var (codes, m) := Turns(faults, owners, handles, keep, n, slots, k - 1);
            var owned := handles[k - 1] in owners;
            Turns(faults, owners, handles, keep, n, slots, k) ==
            if handles[k - 1] in keep then (codes + [0], m)
            else (codes + [OutCode(faults, m, owned)], m + OutCalls(faults, m, owned))
  {
  }

  /** A loop that has ended makes no more turns. */
  lemma {:induction false} TurnsEnded(faults: Faults, owners: set<Handle>, handles: seq<Handle>, keep: set<Handle>,
                                      n: nat, slots: nat, j: nat, k: nat)
    requires j <= k <= |handles|
    requires var codes := Turns(faults, owners, handles, keep, n, slots, j).0;
             |codes| < j || !Live(After(handles, keep, codes, slots))
    ensures Turns(faults, owners, handles, keep, n, slots, k) == Turns(faults, owners, handles, keep, n, slots, j)
  {
    if j < k {
      TurnsEnded(faults, owners, handles, keep, n, slots, j, k - 1);
    }
  }

  /** How the eviction loop over the whole list ends, and the operations made by then. */
  function Evictions(faults: Faults, owners: set<Handle>, handles: seq<Handle>, keep: set<Handle>, n: nat, slots: int)
    : (Sweep, nat)
  {
    if slots <= 0 then (Sweep(0, 0, {}, 0), n)
    else
      var (codes, m) := Turns(faults, owners, handles, keep, n, slots, |handles|);
      (After(handles, keep, codes, slots), m)
  }

  /** The loop after its first |codes| turns, with m operations made. */
  ghost predicate Turning(faults: Faults, owners: set<Handle>, handles: seq<Handle>, keep: set<Handle>, n: nat,
                          slots: nat, codes: seq<uint32>, m: nat)
  {
    && |codes| <= |handles| && (codes, m) == Turns(faults, owners, handles, keep, n, slots, |codes|)
    && OwnersKnown(owners, handles, keep, codes)
  }

  lemma LoopStarts(faults: Faults, owners: set<Handle>, handles: seq<Handle>, keep: set<Handle>, n: nat, slots: nat)
    ensures Turning(faults, owners, handles, keep, n, slots, [], n)
  {
  }

  lemma LoopTurns(faults: Faults, owners: set<Handle>, handles: seq<Handle>, keep: set<Handle>, n: nat, slots: nat,
                  codes: seq<uint32>, m: nat, code: uint32, m': nat)
    requires |codes| < |handles| && Turning(faults, owners, handles, keep, n, slots, codes, m)
    requires Live(After(handles, keep, codes, slots))
    requires var h := handles[|codes|];
             if h in keep then code == 0 && m' == m
             else code == OutCode(faults, m, h in owners) && m' == m + OutCalls(faults, m, h in owners)
    ensures Turning(faults, owners, handles, keep, n, slots, codes + [code], m')
    ensures After(handles, keep, codes + [code], slots) ==
            Turn(After(handles, keep, codes, slots), handles[|codes|], keep, code)
  {
    hide Turns, After, OwnersKnown, OutCode, OutCalls;
    OutCodeOwner(faults, m, handles[|codes|] in owners);
    TurnsNext(faults, owners, handles, keep, n, slots, |codes| + 1);
    OwnersKnownOn(owners, handles, keep, codes, code);
    AfterNext(handles, keep, codes, code, slots);
  }

  lemma OutCodeOwner(faults: Faults, n: nat, owned: bool)
    ensures OutCode(faults, n, owned) == TPM_OWNER_CONTROL <==> owned
  {
  }

  lemma LoopEnds(faults: Faults, owners: set<Handle>, handles: seq<Handle>, keep: set<Handle>, n: nat, slots: nat,
                 codes: seq<uint32>, m: nat)
    requires Turning(faults, owners, handles, keep, n, slots, codes, m) && Distinct(handles) && slots > 0
    requires Live(After(handles, keep, codes, slots)) ==> |codes| == |handles|
    ensures var end := After(handles, keep, codes, slots);
            && (end, m) == Evictions(faults, owners, handles, keep, n, slots)
            && end.evicted !! keep && Settled(owners, Elements(handles), keep, slots, end)
  {
    hide Turns, After, OwnersKnown, Settled, Distinct;
    SweepEvictsOnly(handles, keep, codes, slots);
    SweepOutcome(owners, handles, keep, codes, slots);
    if |codes| < |handles| {
      TurnsEnded(faults, owners, handles, keep, n, slots, |codes|, |handles|);
    }
  }

  lemma EvictionsNone(faults: Faults, owners: set<Handle>, handles: seq<Handle>, keep: set<Handle>, n: nat, slots: int)
    requires slots <= 0
    ensures Evictions(faults, owners, handles, keep, n, slots) == (Sweep(0, 0, {}, 0), n)
  {
  }

  /** Where bringing the requested keys in stands: the return code, the operations made, the keys in the
      TPM and those outside the handle list with a file. */
  datatype Load = Load(ret: uint32, calls: nat, keys: set<Handle>, filed: set<Handle>)

  function Brought(faults: Faults, capacity: nat, listed: set<Handle>, l: Load, key: Handle): Load {
    if l.ret != 0 || Missing(listed, key) == 0 then l
    else
      var there, filed, room := key in l.keys, key in l.filed, |l.keys| < capacity;
      var code := InCode(faults, l.calls, there, filed, room);
      Load(code, l.calls + InCalls(faults, l.calls, there, filed, room),
           if code == 0 then l.keys + {key} else l.keys,
           if code == 0 && Fault(faults, l.calls + 2) == 0 then l.filed - {key} else l.filed)
  }

  function BroughtAll(faults: Faults, capacity: nat, listed: set<Handle>, l: Load,
                      key1: Handle, key2: Handle, key3: Handle): Load
  {
    Brought(faults, capacity, listed,
            Brought(faults, capacity, listed, Brought(faults, capacity, listed, l, key1), key2), key3)
  }

  /** No operation from the n-th on fails. */
  ghost predicate NoFaults(faults: Faults, n: nat) {
    forall k: nat :: k >= n ==> faults(k) == 0
  }

  /** A key is asked for once only, as far as it is to be loaded. */
  predicate AllDifferent(listed: set<Handle>, key1: Handle, key2: Handle, key3: Handle) {
    && (Missing(listed, key1) == 1 ==> key1 != key2 && key1 != key3)
    && (Missing(listed, key2) == 1 ==> key2 != key3)
  }

  /** Each key that is to be loaded has its swap file. */
  predicate AllFiled(listed: set<Handle>, filed: set<Handle>, key1: Handle, key2: Handle, key3: Handle) {
    && (Missing(listed, key1) == 1 ==> key1 in filed)
    && (Missing(listed, key2) == 1 ==> key2 in filed)
    && (Missing(listed, key3) == 1 ==> key3 in filed)
  }

  /** With nothing failing, a missing key is brought in exactly if it has a file and there is room. */
  lemma BroughtOne(faults: Faults, capacity: nat, listed: set<Handle>, l: Load, key: Handle)
    requires NoFaults(faults, l.calls) && l.ret == 0 && l.keys !! l.filed
    ensures var next := Brought(faults, capacity, listed, l, key);
            && NoFaults(faults, next.calls) && next.keys !! next.filed
            && (next.ret == 0 <==> Missing(listed, key) == 1 ==> key in l.filed && |l.keys| < capacity)
            && (next.ret == 0 ==> |next.keys| == |l.keys| + Missing(listed, key))
            && (next.ret == 0 ==>
                  forall h :: h in next.filed <==> h in l.filed && !(h == key && Missing(listed, key) == 1))
  {
  }

  /** With nothing failing, the requested keys are brought in exactly if each of them has its file, none
      is asked for twice, and there is room for all. */
  lemma BroughtExactly(faults: Faults, capacity: nat, listed: set<Handle>, l: Load,
                       key1: Handle, key2: Handle, key3: Handle)
    requires NoFaults(faults, l.calls) && l.ret == 0 && l.keys !! l.filed
    ensures var missing := Missing(listed, key1) + Missing(listed, key2) + Missing(listed, key3);
            BroughtAll(faults, capacity, listed, l, key1, key2, key3).ret == 0 <==>
              && AllDifferent(listed, key1, key2, key3) && AllFiled(listed, l.filed, key1, key2, key3)
              && (missing == 0 || |l.keys| + missing <= capacity)
  {
    var l1 := Brought(faults, capacity, listed, l, key1);
    var l2 := Brought(faults, capacity, listed, l1, key2);
    var l3 := Brought(faults, capacity, listed, l2, key3);
    assert l1.ret != 0 ==> l2 == l1;
    assert l2.ret != 0 ==> l3 == l2;
    hide Brought, NoFaults, Missing;
    BroughtOne(faults, capacity, listed, l, key1);
    if l1.ret == 0 {
      BroughtOne(faults, capacity, listed, l1, key2);
      if l2.ret == 0 {
        BroughtOne(faults, capacity, listed, l2, key3);
      }
    }
  }

  function Demand(listed: set<Handle>, key1: Handle, key2: Handle, room: nat): nat {
    room + Missing(listed, key1) + 2 * Missing(listed, key2)
  }

  /** A call once the queries are answered: the eviction loop, then the three keys. */
  function Manage(faults: Faults, capacity: nat, owners: set<Handle>, handles: seq<Handle>, n: nat, filed: set<Handle>,
                  key1: Handle, key2: Handle, key3: Handle, room: nat): (Route, Load)
  {
    var listed := Elements(handles);
    var demand := Demand(listed, key1, key2, room);
    var (end, m) := Evictions(faults, owners, handles, {key1, key2, key3}, n, demand - (capacity - |listed|));
    (Managed(demand, end),
     BroughtAll(faults, capacity, listed, Load(end.ret, m, listed - end.evicted, filed), key1, key2, key3))
  }

  /** How a call goes that is neither nested nor switched off, told from what the environment answers:
      a failed capacity query turns it away with 0, a short answer and a failed handle query with their
      codes, and nothing else does. */
  predicate Outcome(faults: Faults, answers: nat -> seq<byte>, capacity: nat, owners: set<Handle>, n: nat,
                    keys: set<Handle>, filed: set<Handle>, key1: Handle, key2: Handle, key3: Handle, room: nat,
                    route: Route, load: Load)
  {
    if CapacityCode(faults, n, answers(n), capacity) != 0 then route.TurnedAway? && load.ret == 0
    else if |answers(n)| < 4 then route.TurnedAway? && load.ret == ERR_BUFFER
    else
      var code := HandlesCode(faults, n + 1, answers(n + 1), keys);
      if code != 0 then route.TurnedAway? && load.ret == code
      else
        (route, load) ==
        Manage(faults, capacity, owners, Listed(answers(n + 1)), n + 2, filed, key1, key2, key3, room)
  }

  lemma ManageIs(faults: Faults, capacity: nat, owners: set<Handle>, handles: seq<Handle>, n: nat, listed: set<Handle>,
                 filed: set<Handle>, key1: Handle, key2: Handle, key3: Handle, room: nat, end: Sweep, m: nat)
    requires listed == Elements(handles)
    requires (end, m) == Evictions(faults, owners, handles, {key1, key2, key3}, n,
                                   Demand(listed, key1, key2, room) - (capacity - |listed|))
    ensures Manage(faults, capacity, owners, handles, n, filed, key1, key2, key3, room) ==
            (Managed(Demand(listed, key1, key2, room), end),
             BroughtAll(faults, capacity, listed, Load(end.ret, m, listed - end.evicted, filed), key1, key2, key3))
  {
  }

  lemma OutcomeManaged(faults: Faults, answers: nat -> seq<byte>, capacity: nat, owners: set<Handle>, n: nat,
                       keys: set<Handle>, filed: set<Handle>, key1: Handle, key2: Handle, key3: Handle, room: nat,
                       route: Route, load: Load)
    requires CapacityCode(faults, n, answers(n), capacity) == 0 && |answers(n)| >= 4
    requires HandlesCode(faults, n + 1, answers(n + 1), keys) == 0 && IsHandleList(answers(n + 1))
    requires var managed := Manage(faults, capacity, owners, Listed(answers(n + 1)), n + 2, filed, key1, key2, key3,
                                   room);
             route == managed.0 && load == managed.1
    ensures Outcome(faults, answers, capacity, owners, n, keys, filed, key1, key2, key3, room, route, load)
  {
  }

  lemma OutcomeTurnedAway(faults: Faults, answers: nat -> seq<byte>, capacity: nat, owners: set<Handle>, n: nat,
                          keys: set<Handle>, filed: set<Handle>, key1: Handle, key2: Handle, key3: Handle, room: nat,
                          load: Load)
    requires var code := CapacityCode(faults, n, answers(n), capacity);
             || (code != 0 && load.ret == 0)
             || (code == 0 && |answers(n)| < 4 && load.ret == ERR_BUFFER)
             || (code == 0 && |answers(n)| >= 4 && load.ret != 0 &&
                 load.ret == HandlesCode(faults, n + 1, answers(n + 1), keys))
    ensures Outcome(faults, answers, capacity, owners, n, keys, filed, key1, key2, key3, room, TurnedAway, load)
  {
  }

  /** The TPM tells its capacity and its keys. */
  predicate Truthful(answers: nat -> seq<byte>, capacity: nat, n: nat, keys: set<Handle>) {
    && |answers(n)| >= 4 && Load32(answers(n), 0) == capacity
    && Lists(answers(n + 1), keys)
  }

  lemma NoFaultTurns(faults: Faults, owners: set<Handle>, handles: seq<Handle>, keep: set<Handle>, n: nat, slots: nat,
                     k: nat)
    requires k <= |handles| && NoFaults(faults, n)
    ensures var (codes, m) := Turns(faults, owners, handles, keep, n, slots, k);
            && m >= n
            && forall i :: 0 <= i < |codes| ==>
                 codes[i] == if handles[i] !in keep && handles[i] in owners then TPM_OWNER_CONTROL else 0
  {
  }

  /** With nothing failing the loop returns 0 or, if it met a key under owner control, that code. */
  lemma NoFaultEvictions(faults: Faults, owners: set<Handle>, handles: seq<Handle>, keep: set<Handle>, n: nat,
                         slots: int)
    requires NoFaults(faults, n)
    ensures var (end, m) := Evictions(faults, owners, handles, keep, n, slots);
            && m >= n && (end.ret == 0 || end.ret == TPM_OWNER_CONTROL)
            && (slots <= 0 || Elements(handles) * owners <= keep ==> end.ret == 0)
  {
    if slots > 0 {
      NoFaultTurns(faults, owners, handles, keep, n, slots, |handles|);
      AfterReturns(handles, keep, Turns(faults, owners, handles, keep, n, slots, |handles|).0, slots);
    }
  }

  /** With nothing failing, a call is managed; it returns 0 exactly if its eviction loop did, each key to
      be loaded is asked for once and has its file, and the keys that stay leave room for them. */
  lemma NoFaultOutcome(faults: Faults, answers: nat -> seq<byte>, capacity: nat, owners: set<Handle>, n: nat,
                       keys: set<Handle>, filed: set<Handle>, key1: Handle, key2: Handle, key3: Handle, room: nat,
                       route: Route, load: Load)
    requires Outcome(faults, answers, capacity, owners, n, keys, filed, key1, key2, key3, room, route, load)
    requires NoFaults(faults, n) && Truthful(answers, capacity, n, keys) && filed !! keys
    ensures route.Managed?
    ensures var missing := Missing(keys, key1) + Missing(keys, key2) + Missing(keys, key3);
            load.ret == 0 <==>
              && route.end.ret == 0
              && AllDifferent(keys, key1, key2, key3) && AllFiled(keys, filed, key1, key2, key3)
              && (missing == 0 || |keys - route.end.evicted| + missing <= capacity)
    ensures route.demand <= capacity - |keys| || keys * owners <= {key1, key2, key3} ==> route.end.ret == 0
  {
    hide Evictions, Listed, Elements, Distinct, NoFaults, AllDifferent, AllFiled, Missing, Brought, Load32,
         CapacityCode, HandlesCode, Lists, Truthful;
    NoFaultQueries(faults, answers, capacity, n, keys);
    ListsExactly(answers(n + 1), keys);
    LaterFaults(faults, n, n + 2);
    var handles, keep := Listed(answers(n + 1)), {key1, key2, key3};
    var slots := Demand(keys, key1, key2, room) - (capacity - |keys|);
    NoFaultEvictions(faults, owners, handles, keep, n + 2, slots);
    var (end, m) := Evictions(faults, owners, handles, keep, n + 2, slots);
    var l := Load(end.ret, m, keys - end.evicted, filed);
    if end.ret == 0 {
      LaterFaults(faults, n, m);
      BroughtExactly(faults, capacity, keys, l, key1, key2, key3);
    } else {
      BroughtNothing(faults, capacity, keys, l, key1, key2, key3);
    }
  }

  lemma NoFaultQueries(faults: Faults, answers: nat -> seq<byte>, capacity: nat, n: nat, keys: set<Handle>)
    requires NoFaults(faults, n) && Truthful(answers, capacity, n, keys)
    ensures CapacityCode(faults, n, answers(n), capacity) == 0 && |answers(n)| >= 4
    ensures HandlesCode(faults, n + 1, answers(n + 1), keys) == 0 && Lists(answers(n + 1), keys)
  {
  }

  lemma LaterFaults(faults: Faults, n: nat, m: nat)
    requires NoFaults(faults, n) && m >= n
    ensures NoFaults(faults, m)
  {
  }

  lemma BroughtNothing(faults: Faults, capacity: nat, listed: set<Handle>, l: Load,
                       key1: Handle, key2: Handle, key3: Handle)
    requires l.ret != 0
    ensures BroughtAll(faults, capacity, listed, l, key1, key2, key3) == l
  {
  }

  /** The slots needed. The second test of key2 is the source's, made where key3 is meant. */
  method CountSlots(caps: seq<byte>, key1: Handle, key2: Handle, key3: Handle, room: nat)
    returns (neededslots: nat, intpm1: bool, intpm2: bool, intpm3: bool)
    requires IsHandleList(caps)
    ensures var listed := Elements(Listed(caps));
            && neededslots == Demand(listed, key1, key2, room)
            && neededslots == room + Missing(listed, key1) + 2 * Missing(listed, key2)
            && (intpm1 <==> Missing(listed, key1) == 0)
            && (intpm2 <==> Missing(listed, key2) == 0)
            && (intpm3 <==> Missing(listed, key3) == 0)
  {
    hide Missing, Listed, Elements;
    neededslots := room;
    intpm1 := IsKeyInTPM(caps, key1);
    if !intpm1 {
      neededslots := neededslots + 1;
    }
    intpm2 := IsKeyInTPM(caps, key2);
    if !intpm2 {
      neededslots := neededslots + 1;
    }
    intpm3 := IsKeyInTPM(caps, key3);
    if !intpm2 {
      neededslots := neededslots + 1;
    }
  }

  lemma MissingCount(listed: set<Handle>, evicted: set<Handle>, key1: Handle, key2: Handle, key3: Handle)
    requires evicted !! {key1, key2, key3} && AllDifferent(listed, key1, key2, key3)
    ensures |listed - evicted + Requested(key1, key2, key3)| ==
            |listed - evicted| + Missing(listed, key1) + Missing(listed, key2) + Missing(listed, key3)
  {
    var stay := listed - evicted;
    AllRequested(listed, evicted, key1, key2, key3);
    var a, b, c := ToLoad(listed, key1), ToLoad(listed, key2), ToLoad(listed, key3);
    assert stay !! a && stay + a !! b && stay + a + b !! c;
    assert |a| == Missing(listed, key1) && |b| == Missing(listed, key2) && |c| == Missing(listed, key3);
    hide Requested, Missing, ToLoad, AllDifferent;
  }

  /** With nothing failing, an ordinary call returns 0, and so loads all it is asked for, exactly if its
      eviction loop did, each key to be loaded is asked for once and has its file, and the requested keys
      fit beside those under owner control. */
  lemma NoFaultRoom(faults: Faults, answers: nat -> seq<byte>, capacity: nat, owners: set<Handle>, n: nat,
                    keys: set<Handle>, filed: set<Handle>, key1: Handle, key2: Handle, key3: Handle, room: nat,
                    route: Route, load: Load)
    requires Outcome(faults, answers, capacity, owners, n, keys, filed, key1, key2, key3, room + 3, route, load)
    requires NoFaults(faults, n) && Truthful(answers, capacity, n, keys) && filed !! keys
    requires |keys| <= capacity && NoneFixed(keys)
    requires route.Managed? ==> Accounted(capacity, owners, keys, room + 3, key1, key2, key3, route)
    ensures route.Managed?
    ensures load.ret == 0 <==>
              && route.end.ret == 0
              && AllDifferent(keys, key1, key2, key3) && AllFiled(keys, filed, key1, key2, key3)
              && |Requested(key1, key2, key3) + keys * owners| <= capacity
    ensures route.demand <= capacity - |keys| || keys * owners <= {key1, key2, key3} ==> route.end.ret == 0
  {
    hide Outcome, Truthful, NoFaults, NoneFixed, Missing, AllFiled, Requested, Settled;
    NoFaultOutcome(faults, answers, capacity, owners, n, keys, filed, key1, key2, key3, room + 3, route, load);
    var wanted, end := Requested(key1, key2, key3), route.end;
    if end.ret == 0 && AllDifferent(keys, key1, key2, key3) {
      AtMostThree(key1, key2, key3);
      if route.demand > capacity - |keys| {
        SettledWanted(owners, keys, key1, key2, key3, route.demand - (capacity - |keys|), end);
        SettledKeeps(owners, keys, {key1, key2, key3}, route.demand - (capacity - |keys|), end);
      }
      RoomExactly(owners, keys, wanted, end, capacity, route.demand, 0);
      MissingCount(keys, end.evicted, key1, key2, key3);
      var missing := Missing(keys, key1) + Missing(keys, key2) + Missing(keys, key3);
      if missing == 0 {
        Subset(keys - end.evicted, keys);
      }
    }
  }

  lemma SettledKeeps(owners: set<Handle>, listed: set<Handle>, keep: set<Handle>, slots: nat, end: Sweep)
    requires Settled(owners, listed, keep, slots, end)
    ensures end.evicted !! keep
  {
  }

  class KeySwapper {
    // The TPM, as far as it is seen here.
    const capacity: nat
    const ownerControlled: set<Handle>
    var resident: map<Handle, Key>
    // The swap directory, the environment and the guard against recursion.
    var files: map<Handle, Context>
    const swapDisabled: bool
    var inSwapping: bool
    // What the environment answers, and how many operations were made.
    const faults: Faults
    const answers: nat -> seq<byte>
    var calls: nat
    /** The state after every step that changed it. */
    ghost var trace: seq<Snapshot>

    ghost predicate Valid()
      reads this`resident
    {
      && |resident.Keys| <= capacity
      && forall h :: h in resident ==> !Fixed(h)
    }

    ghost function Now(): Snapshot
      reads this`resident, this`files, this`inSwapping
    {
      Snapshot(resident, files, inSwapping)
    }

    // ----- TPM commands and file operations: each may fail, and what they do when they succeed
    // ----- is what is assumed of the TPM and the file system.

    method GetMaxKeys() returns (ret: uint32, caps: seq<byte>)
      modifies this`calls
      ensures calls == old(calls) + 1 && caps == answers(old(calls))
      ensures ret == CapacityCode(faults, old(calls), caps, capacity)
    {
      caps := answers(calls);
      ret := CapacityCode(faults, calls, caps, capacity);
      calls := calls + 1;
    }

    method GetKeyHandles() returns (ret: uint32, caps: seq<byte>)
      modifies this`calls
      ensures calls == old(calls) + 1 && caps == answers(old(calls))
      ensures ret == HandlesCode(faults, old(calls), caps, resident.Keys)
    {
      caps := answers(calls);
      ret := HandlesCode(faults, calls, caps, resident.Keys);
      calls := calls + 1;
    }

    method SaveContext(h: Handle) returns (ret: uint32, context: Context)
      modifies this`calls
      ensures calls == old(calls) + 1
      ensures ret == if h in ownerControlled then TPM_OWNER_CONTROL
                     else if Fault(faults, old(calls)) != 0 then Fault(faults, old(calls))
                     else if h !in resident then ERR_BUFFER else 0
      ensures ret == 0 ==> context == Context(h, resident[h])
    {
      context := Context(h, if h in resident then resident[h] else []);
      ret := if h in ownerControlled then TPM_OWNER_CONTROL
             else if Fault(faults, calls) != 0 then Fault(faults, calls)
             else if h !in resident then ERR_BUFFER else 0;
      calls := calls + 1;
    }

    method EvictKey(h: Handle) returns (ret: uint32)
      modifies this`resident, this`trace, this`calls
      ensures calls == old(calls) + 1
      ensures ret == if h in ownerControlled then TPM_OWNER_CONTROL
                     else if h !in old(resident) then ERR_BUFFER else Fault(faults, old(calls))
      ensures ret == 0 ==> resident == old(resident) - {h} && trace == old(trace) + [Now()]
      ensures ret != 0 ==> resident == old(resident) && trace == old(trace)
    {
      ret := if h in ownerControlled then TPM_OWNER_CONTROL
             else if h !in resident then ERR_BUFFER else Fault(faults, calls);
      calls := calls + 1;
      if ret == 0 {
        resident := resident - {h};
        trace := trace + [Now()];
      }
    }

    /** Loading with keephandle = 1: the key comes back under the handle it was saved with. */
    method LoadContext(h: Handle, context: Context) returns (ret: uint32)
      requires !Fixed(h)
      modifies this`resident, this`trace, this`calls
      ensures calls == old(calls) + 1
      ensures ret == if Fault(faults, old(calls)) != 0 then Fault(faults, old(calls))
                     else if h in old(resident) || |old(resident).Keys| >= capacity then ERR_BUFFER else 0
      ensures ret == 0 ==> resident == old(resident)[h := context.key] && trace == old(trace) + [Now()]
      ensures ret != 0 ==> resident == old(resident) && trace == old(trace)
    {
      ret := if Fault(faults, calls) != 0 then Fault(faults, calls)
             else if h in resident || |resident.Keys| >= capacity then ERR_BUFFER else 0;
      calls := calls + 1;
      if ret == 0 {
        resident := resident[h := context.key];
        trace := trace + [Now()];
      }
    }

    /** fopen for writing, which truncates a file that is there. */
    method OpenForWriting(h: Handle) returns (isOpen: bool)
      modifies this`files, this`trace, this`calls
      ensures calls == old(calls) + 1 && (isOpen <==> Fault(faults, old(calls)) == 0)
      ensures isOpen ==> files == old(files) - {h} && trace == old(trace) + [Now()]
      ensures !isOpen ==> files == old(files) && trace == old(trace)
    {
      isOpen := Fault(faults, calls) == 0;
      calls := calls + 1;
      if isOpen {
        files := files - {h};
        trace := trace + [Now()];
      }
    }

    /** fwrite and fclose, whose results the source does not look at. */
    method WriteContext(h: Handle, context: Context)
      modifies this`files, this`trace
      ensures files == old(files)[h := context] && trace == old(trace) + [Now()]
    {
      files := files[h := context];
      trace := trace + [Now()];
    }

    method ReadFile(h: Handle) returns (ret: uint32, context: Context)
      modifies this`calls
      ensures calls == old(calls) + 1
      ensures ret == if Fault(faults, old(calls)) != 0 || h !in files then ERR_BAD_FILE else 0
      ensures ret == 0 ==> context == files[h]
    {
      context := if h in files then files[h] else Context(h, []);
      ret := if Fault(faults, calls) != 0 || h !in files then ERR_BAD_FILE else 0;
      calls := calls + 1;
    }

    method Unlink(h: Handle)
      modifies this`files, this`trace, this`calls
      ensures calls == old(calls) + 1
      ensures Fault(faults, old(calls)) == 0 ==> files == old(files) - {h} && trace == old(trace) + [Now()]
      ensures Fault(faults, old(calls)) != 0 ==> files == old(files) && trace == old(trace)
    {
      if Fault(faults, calls) == 0 {
        files := files - {h};
        trace := trace + [Now()];
      }
      calls := calls + 1;
    }

    // ----- The manager itself.

    method SwapOutKey(h: Handle, ghost keys: map<Handle, Key>) returns (ret: uint32)
      requires Valid() && inSwapping && Kept(Now(), keys)
      modifies this`resident, this`files, this`trace, this`calls
      ensures Valid() && Kept(Now(), keys) && Extends(trace, old(trace), keys)
      ensures SwappedOut(old(Now()), Now(), h, ret)
      ensures h in old(resident) ==> ret == OutCode(faults, old(calls), h in ownerControlled)
      ensures h in old(resident) ==> calls == old(calls) + OutCalls(faults, old(calls), h in ownerControlled)
      ensures ret == 0 ==> h !in ownerControlled
      ensures ret == TPM_OWNER_CONTROL ==> h in ownerControlled
    {
      hide Kept, Extends, SwappedOut, Fault;
      ExtendsItself(trace, keys);
      NothingSwappedOut(Now(), h);
      ghost var was := Now();
      var context;
      ret, context := SaveContext(h);
      if ret != 0 {
        return;
      }
      KeptTruncated(Now(), keys, h);
      var isOpen := OpenForWriting(h);
      if !isOpen {
        return ERR_BAD_FILE;
      }
      ghost var truncated := trace;
      ExtendsNext(old(trace), old(trace), Now(), keys);
      KeptWritten(Now(), keys, h);
      WriteContext(h, context);
      ExtendsNext(old(trace), truncated, Now(), keys);
      ghost var written := trace;
      KeptEvicted(Now(), keys, h);
      ret := EvictKey(h);
      if ret == 0 {
        ExtendsNext(old(trace), written, Now(), keys);
      }
      SwappedOutOr(was, Now(), h, ret);
    }

    method SwapInKey(h: Handle, ghost keys: map<Handle, Key>) returns (ret: uint32)
      requires Valid() && inSwapping && Kept(Now(), keys) && !Fixed(h)
      modifies this`resident, this`files, this`trace, this`calls
      ensures Valid() && Kept(Now(), keys) && Extends(trace, old(trace), keys)
      ensures ret == 0 ==> SwappedIn(old(Now()), Now(), h)
      ensures ret != 0 ==> resident == old(resident) && files == old(files)
      ensures var n, there, filed := old(calls), h in old(resident), h in old(files);
              var room := |old(resident).Keys| < capacity;
              && ret == InCode(faults, n, there, filed, room)
              && calls == n + InCalls(faults, n, there, filed, room)
              && (ret == 0 ==> files == if Fault(faults, n + 2) == 0 then old(files) - {h} else old(files))
    {
      var context;
      ret, context := ReadFile(h);
      if ret != 0 {
        return;
      }
      ret := LoadContext(h, context);
      if ret == 0 {
        Unlink(h);
      }
    }

    /** Swaps one requested key in unless it is there already or an earlier step failed. */
    method BringIn(failed: uint32, key: Handle, present: bool,
                   ghost listed: set<Handle>, ghost keys: map<Handle, Key>, ghost start: seq<Snapshot>)
      returns (ret: uint32)
      requires Valid() && inSwapping && Kept(Now(), keys) && Extends(trace, start, keys)
      requires present <==> Missing(listed, key) == 0
      modifies this`resident, this`files, this`trace, this`calls
      ensures Valid() && Kept(Now(), keys) && Extends(trace, start, keys)
      ensures failed != 0 ==> ret == failed
      ensures ret == 0 ==> resident.Keys == old(resident).Keys + ToLoad(listed, key)
      ensures ret != 0 ==> resident == old(resident)
      ensures Load(ret, calls, resident.Keys, files.Keys - listed) ==
              Brought(faults, capacity, listed,
                      Load(failed, old(calls), old(resident).Keys, old(files).Keys - listed), key)
    {
      ret := failed;
      if ret == 0 && !present {
        ret := SwapInKey(key, keys);
        ExtendsOn(trace, old(trace), start, keys);
      }
    }

    /** The three keys, one after the other. */
    method BringAll(failed: uint32, key1: Handle, key2: Handle, key3: Handle, intpm1: bool, intpm2: bool, intpm3: bool,
                    ghost listed: set<Handle>, ghost keys: map<Handle, Key>, ghost start: seq<Snapshot>)
      returns (ret: uint32)
      requires Valid() && inSwapping && Kept(Now(), keys) && Extends(trace, start, keys)
      requires (intpm1 <==> Missing(listed, key1) == 0) && (intpm2 <==> Missing(listed, key2) == 0)
      requires intpm3 <==> Missing(listed, key3) == 0
      modifies this`resident, this`files, this`trace, this`calls
      ensures Valid() && Kept(Now(), keys) && Extends(trace, start, keys)
      ensures var loads := ToLoad(listed, key1) + ToLoad(listed, key2) + ToLoad(listed, key3);
              && old(resident).Keys <= resident.Keys <= old(resident).Keys + loads
              && (ret == 0 ==> failed == 0 && resident.Keys == old(resident).Keys + loads)
      ensures Load(ret, calls, resident.Keys, files.Keys - listed) ==
              BroughtAll(faults, capacity, listed,
                         Load(failed, old(calls), old(resident).Keys, old(files).Keys - listed), key1, key2, key3)
    {
      hide Kept, Extends, Missing, ToLoad, Brought;
      ret := BringIn(failed, key1, intpm1, listed, keys, start);
      ret := BringIn(ret, key2, intpm2, listed, keys, start);
      ret := BringIn(ret, key3, intpm3, listed, keys, start);
    }

    method SwapOutKeys(needed: nat, key1: Handle, key2: Handle, key3: Handle, caps: seq<byte>,
                       ghost keys: map<Handle, Key>)
      returns (ret: uint32, ghost end: Sweep)
      requires Valid() && inSwapping && Kept(Now(), keys) && needed > 0
      requires IsHandleList(caps) && Distinct(Listed(caps)) && Elements(Listed(caps)) == resident.Keys
      modifies this`resident, this`files, this`trace, this`calls
      ensures Valid() && Kept(Now(), keys) && Extends(trace, old(trace), keys)
      ensures ret == end.ret && Swept(old(resident), end.evicted, Now())
      ensures resident.Keys == old(resident).Keys - end.evicted
      ensures end.evicted !! {key1, key2, key3}
      ensures Settled(ownerControlled, old(resident).Keys, {key1, key2, key3}, needed, end)
      ensures (end, calls) ==
              Evictions(faults, ownerControlled, Listed(caps), {key1, key2, key3}, old(calls), needed)
      ensures files.Keys - old(resident).Keys == old(files).Keys - old(resident).Keys
    {
      hide Kept, Distinct, Elements, Swept, SwappedOut, Extends, Settled, After, Turning, Evictions, OutCode,
           OutCalls;
      ExtendsItself(trace, keys);
      NoneSwept(Now());
      ghost var keep, handles, was := {key1, key2, key3}, Listed(caps), resident;
      ret := 0;
      ghost var codes: seq<uint32> := [];
      var neededslots := needed;
      end := After(handles, keep, codes, needed);
      AfterNone(handles, keep, needed);
      LoopStarts(faults, ownerControlled, handles, keep, old(calls), needed);
      var ctr := 2;
      while ctr < |caps|
        invariant ctr == 2 + 4 * |codes| && |codes| <= |handles|
        invariant Valid() && inSwapping && Kept(Now(), keys) && Extends(trace, old(trace), keys)
        invariant end == After(handles, keep, codes, needed) && Live(end)
        invariant ret == end.ret && neededslots == end.left
        invariant Swept(was, end.evicted, Now())
        invariant Turning(faults, ownerControlled, handles, keep, old(calls), needed, codes, calls)
        invariant files.Keys - was.Keys == old(files).Keys - was.Keys
      {
        var handle := Load32(caps, ctr);
        assert handle == handles[|codes|];
        ghost var before := calls;
        if handle != key1 && handle != key2 && handle != key3 {
          NotYetEvicted(handles, keep, codes, needed);
          ElementsHas(handles, |codes|);
          SweptHas(was, end.evicted, Now(), handle);
          ghost var state, traceBefore := Now(), trace;
          ret := SwapOutKey(handle, keys);
          ExtendsOn(trace, traceBefore, old(trace), keys);
          SweptOn(was, end.evicted, state, handle, ret, Now());
          FilesElsewhere(state, Now(), handle, ret, was.Keys);
        }
        ghost var code := if handle in keep then 0 else ret;
        LoopTurns(faults, ownerControlled, handles, keep, old(calls), needed, codes, before, code, calls);
        codes, end := codes + [code], Turn(end, handle, keep, code);
        if ret != 0 && ret != TPM_OWNER_CONTROL {
          break;
        }
        if ret == 0 {
          neededslots := neededslots - 1;
          if neededslots == 0 {
            break;
          }
        }
        ctr := ctr + 4;
      }
      SweptKeys(was, end.evicted, Now());
      LoopEnds(faults, ownerControlled, handles, keep, old(calls), needed, codes, calls);
    }

    /** Evicts keys if there are fewer slots than needed. */
    method MakeRoom(key1: Handle, key2: Handle, key3: Handle, room: nat, tpmkeyroom: nat, caps: seq<byte>,
                    ghost keys: map<Handle, Key>)
      returns (ret: uint32, intpm1: bool, intpm2: bool, intpm3: bool, ghost route: Route)
      requires Valid() && inSwapping && Kept(Now(), keys) && tpmkeyroom == capacity
      requires IsHandleList(caps) && Distinct(Listed(caps)) && Elements(Listed(caps)) == resident.Keys
      modifies this`resident, this`files, this`trace, this`calls
      ensures Valid() && Kept(Now(), keys) && Extends(trace, old(trace), keys)
      ensures && (intpm1 <==> Missing(old(resident).Keys, key1) == 0)
              && (intpm2 <==> Missing(old(resident).Keys, key2) == 0)
              && (intpm3 <==> Missing(old(resident).Keys, key3) == 0)
      ensures route.Managed? && ret == route.end.ret && route.end.evicted !! {key1, key2, key3}
      ensures resident.Keys == old(resident).Keys - route.end.evicted
      ensures Accounted(capacity, ownerControlled, old(resident).Keys, room, key1, key2, key3, route)
      ensures var listed := old(resident).Keys;
              var demand := Demand(listed, key1, key2, room);
              var (end, m) := Evictions(faults, ownerControlled, Listed(caps), {key1, key2, key3}, old(calls),
                                        demand - (capacity - |listed|));
              route == Managed(demand, end) && calls == m
      ensures files.Keys - old(resident).Keys == old(files).Keys - old(resident).Keys
    {
      hide Kept, Extends, Distinct, Elements, Settled, Missing, Load32, Listed, Swept, Evictions, Accounted,
           Demand;
      ExtendsItself(trace, keys);
      ret := 0;
      ghost var listed := resident.Keys;
      ListedCount(caps);
      var neededslots;
      neededslots, intpm1, intpm2, intpm3 := CountSlots(caps, key1, key2, key3, room);
      var keysintpm := (|caps| - 2) / 4;
      var slots: int := neededslots - (tpmkeyroom - keysintpm);
      ghost var end := Sweep(0, 0, {}, 0);
      if slots > 0 {
        ret, end := SwapOutKeys(slots, key1, key2, key3, caps, keys);
      } else {
        EvictionsNone(faults, ownerControlled, Listed(caps), {key1, key2, key3}, calls, slots);
      }
      route := Managed(neededslots, end);
      AccountedIs(capacity, ownerControlled, listed, room, key1, key2, key3, neededslots, end);
    }

    /** Evictions first, as far as they are needed, then the three keys. */
    method ManageKeys(key1: Handle, key2: Handle, key3: Handle, room: nat, tpmkeyroom: nat, caps: seq<byte>,
                      ghost keys: map<Handle, Key>)
      returns (ret: uint32, ghost route: Route)
      requires Valid() && inSwapping && Kept(Now(), keys) && tpmkeyroom == capacity
      requires IsHandleList(caps) && Distinct(Listed(caps)) && Elements(Listed(caps)) == resident.Keys
      modifies this`resident, this`files, this`trace, this`calls
      ensures Valid() && Kept(Now(), keys) && Extends(trace, old(trace), keys)
      ensures route.Managed? && route.end.evicted !! {key1, key2, key3}
      ensures Accounted(capacity, ownerControlled, old(resident).Keys, room, key1, key2, key3, route)
      ensures var stay := old(resident).Keys - route.end.evicted;
              && stay <= resident.Keys <= stay + Requested(key1, key2, key3)
              && (ret == 0 ==> route.end.ret == 0 && resident.Keys == stay + Requested(key1, key2, key3))
      ensures var managed := Manage(faults, capacity, ownerControlled, Listed(caps), old(calls),
                                    old(files).Keys - old(resident).Keys, key1, key2, key3, room);
              && route == managed.0
              && Load(ret, calls, resident.Keys, files.Keys - old(resident).Keys) == managed.1
    {
      hide Kept, Extends, Distinct, Elements, Accounted, Missing, Requested, ToLoad, Load32, Listed, Evictions, Demand,
           BroughtAll, Manage;
      ghost var listed, filed, n := resident.Keys, files.Keys - resident.Keys, calls;
      var intpm1, intpm2, intpm3;
      ret, intpm1, intpm2, intpm3, route := MakeRoom(key1, key2, key3, room, tpmkeyroom, caps, keys);
      ManageIs(faults, capacity, ownerControlled, Listed(caps), n, listed, filed, key1, key2, key3, room,
               route.end, calls);
      ret := BringAll(ret, key1, key2, key3, intpm1, intpm2, intpm3, listed, keys, old(trace));
      AllRequested(listed, route.end.evicted, key1, key2, key3);
    }

    /** The capacity and the handles. Only a failure of the second query is passed on as it is. */
    method QueryTpm() returns (ret: uint32, ok: bool, tpmkeyroom: nat, caps: seq<byte>)
      modifies this`calls
      ensures ok ==>
                && CapacityCode(faults, old(calls), answers(old(calls)), capacity) == 0 && |answers(old(calls))| >= 4
                && HandlesCode(faults, old(calls) + 1, answers(old(calls) + 1), resident.Keys) == 0
                && calls == old(calls) + 2 && tpmkeyroom == capacity && caps == answers(old(calls) + 1)
                && IsHandleList(caps) && Distinct(Listed(caps)) && Elements(Listed(caps)) == resident.Keys
      ensures !ok ==>
                var code := CapacityCode(faults, old(calls), answers(old(calls)), capacity);
                || (code != 0 && ret == 0)
                || (code == 0 && |answers(old(calls))| < 4 && ret == ERR_BUFFER)
                || (code == 0 && |answers(old(calls))| >= 4 && ret != 0 &&
                    ret == HandlesCode(faults, old(calls) + 1, answers(old(calls) + 1), resident.Keys))
    {
      hide CapacityCode, HandlesCode, Lists, Listed, Distinct, Elements, Load32;
      ok, tpmkeyroom := false, 0;
      ret, caps := GetMaxKeys();
      if ret != 0 {
        return 0, ok, tpmkeyroom, caps;
      } else if |caps| < 4 {
        return ERR_BUFFER, ok, tpmkeyroom, caps;
      }
      tpmkeyroom := Load32(caps, 0);
      ret, caps := GetKeyHandles();
      if ret != 0 {
        return;
      }
      ListsExactly(caps, resident.Keys);
      ok := true;
    }

    /** Brings the requested keys in and, short of slots for them and for `room` more, evicts
        others first. Nested calls change nothing; the guard that a call sets is cleared again. */
    method NeedKeysRoomGeneral(key1: Handle, key2: Handle, key3: Handle, room: nat, ghost keys: map<Handle, Key>)
      returns (ret: uint32, ghost route: Route)
      requires Valid() && Kept(Now(), keys)
      modifies this`resident, this`files, this`inSwapping, this`trace, this`calls
      ensures Valid() && Kept(Now(), keys) && Extends(trace, old(trace), keys)
      ensures inSwapping == old(inSwapping)
      ensures route == TurnedAway ==> resident == old(resident) && files == old(files) && trace == old(trace)
      ensures old(inSwapping) || swapDisabled ==> ret == 0 && route == TurnedAway && calls == old(calls)
      ensures !old(inSwapping) && !swapDisabled ==>
                Outcome(faults, answers, capacity, ownerControlled, old(calls), old(resident).Keys,
                        old(files).Keys - old(resident).Keys, key1, key2, key3, room,
                        route, Load(ret, calls, resident.Keys, files.Keys - old(resident).Keys))
      ensures route.Managed? ==>
        && Accounted(capacity, ownerControlled, old(resident).Keys, room, key1, key2, key3, route)
        && route.end.evicted !! {key1, key2, key3}
        && var stay := old(resident).Keys - route.end.evicted;
           && stay <= resident.Keys <= stay + Requested(key1, key2, key3)
           && (ret == 0 ==> route.end.ret == 0 && resident.Keys == stay + Requested(key1, key2, key3))
    {
      hide Kept, Extends, Distinct, Elements, Accounted, Missing, Requested, ToLoad, Load32, Listed, Evictions, Brought,
           CapacityCode, HandlesCode, Demand, Outcome, Lists, Manage, Fixed, IsHandleList, InCode, InCalls, BroughtAll;
      ghost var n, resident0, filed0 := calls, resident.Keys, files.Keys - resident.Keys;
      route := TurnedAway;
      ExtendsItself(trace, keys);
      if inSwapping {
        return 0, route;
      }
      if swapDisabled {
        return 0, route;
      }
      inSwapping := true;
      KeptWhileSwapping(resident, files, keys);
      var ok, tpmkeyroom, caps;
      ret, ok, tpmkeyroom, caps := QueryTpm();
      if !ok {
        inSwapping := false;
        OutcomeTurnedAway(faults, answers, capacity, ownerControlled, n, resident0, filed0, key1, key2, key3, room,
                          Load(ret, calls, resident0, filed0));
        return;
      }
      ret, route := ManageKeys(key1, key2, key3, room, tpmkeyroom, caps, keys);
      OutcomeManaged(faults, answers, capacity, ownerControlled, n, resident0, filed0, key1, key2, key3, room, route,
                     Load(ret, calls, resident.Keys, files.Keys - resident0));
      inSwapping := false;
      KeptWhileSwapping(resident, files, keys);
    }

    /** The room guarantee. A call that was not turned away and returned 0 has every requested key
        loaded. It leaves `room` slots plus one for each stacked transport free if there was no need to
        evict or the eviction loop stopped on its counter, and otherwise exactly when the requested
        keys and those under owner control leave that much of the TPM. */
    method NeedKeysRoom(key1: Handle, key2: Handle, key3: Handle, room: nat, transports: nat,
                        ghost keys: map<Handle, Key>)
      returns (ret: uint32, ghost route: Route)
      requires Valid() && Kept(Now(), keys)
      modifies this`resident, this`files, this`inSwapping, this`trace, this`calls
      ensures Valid() && Kept(Now(), keys) && Extends(trace, old(trace), keys)
      ensures inSwapping == old(inSwapping)
      ensures route == TurnedAway ==> resident == old(resident) && files == old(files) && trace == old(trace)
      ensures old(inSwapping) || swapDisabled ==> ret == 0 && route == TurnedAway && calls == old(calls)
      ensures !old(inSwapping) && !swapDisabled ==>
                Outcome(faults, answers, capacity, ownerControlled, old(calls), old(resident).Keys,
                        old(files).Keys - old(resident).Keys, key1, key2, key3, room + transports + 3,
                        route, Load(ret, calls, resident.Keys, files.Keys - old(resident).Keys))
      ensures NoFaults(faults, old(calls)) && Truthful(answers, capacity, old(calls), old(resident).Keys)
              && !old(inSwapping) && !swapDisabled ==>
                var listed, filed := old(resident).Keys, old(files).Keys - old(resident).Keys;
                && route.Managed?
                && (ret == 0 <==>
                      && route.end.ret == 0
                      && AllDifferent(listed, key1, key2, key3) && AllFiled(listed, filed, key1, key2, key3)
                      && |Requested(key1, key2, key3) + listed * ownerControlled| <= capacity)
                && (route.demand <= capacity - |listed| || listed * ownerControlled <= {key1, key2, key3} ==>
                      route.end.ret == 0)
      ensures route.Managed? ==>
        && route.end.evicted !! Requested(key1, key2, key3) + ownerControlled
        && old(resident).Keys - route.end.evicted <= resident.Keys
        && (var listed, free := old(resident).Keys, capacity - |old(resident).Keys|;
            && route.demand == room + transports + 3 + Missing(listed, key1) + 2 * Missing(listed, key2)
            && |route.end.evicted| <= if route.demand > free then route.demand - free else 0)
      ensures ret == 0 && route.Managed? ==>
        var pinned := Requested(key1, key2, key3) + old(resident).Keys * ownerControlled;
        && Requested(key1, key2, key3) <= resident.Keys
        && (room + transports <= capacity - |resident.Keys| <==> room + transports <= capacity - |pinned|)
        && (route.demand <= capacity - |old(resident).Keys| || route.end.left == 0 ==>
              room + transports <= capacity - |resident.Keys|)
    {
      hide Kept, Extends, Outcome, Lists, Elements;
      ret, route := NeedKeysRoomGeneral(key1, key2, key3, room + transports + 3, keys);
      ghost var listed := old(resident).Keys;
      assert NoneFixed(listed);
      ghost var n, filed := old(calls), old(files).Keys - old(resident).Keys;
      if NoFaults(faults, n) && Truthful(answers, capacity, n, listed) && !old(inSwapping) && !swapDisabled {
        NoFaultRoom(faults, answers, capacity, ownerControlled, n, listed, filed, key1, key2, key3, room + transports,
                    route, Load(ret, calls, resident.Keys, files.Keys - listed));
      }
      if ret == 0 && route != TurnedAway {
        AccountedRoom(capacity, ownerControlled, listed, room + transports, key1, key2, key3, route);
      }
    }

    /** The variant for stacked calls: it makes room for its one key only, evicting a single key
        when the TPM is full without it and nothing otherwise. */
    method NeedKeysRoomStacked(key1: Handle, ghost keys: map<Handle, Key>) returns (ret: uint32, ghost route: Route)
      requires Valid() && Kept(Now(), keys)
      modifies this`resident, this`files, this`inSwapping, this`trace, this`calls
      ensures Valid() && Kept(Now(), keys) && Extends(trace, old(trace), keys)
      ensures inSwapping == old(inSwapping)
      ensures route == TurnedAway ==> resident == old(resident) && files == old(files) && trace == old(trace)
      ensures old(inSwapping) || swapDisabled ==> ret == 0 && route == TurnedAway && calls == old(calls)
      ensures !old(inSwapping) && !swapDisabled ==>
                Outcome(faults, answers, capacity, ownerControlled, old(calls), old(resident).Keys,
                        old(files).Keys - old(resident).Keys, key1, 0, 0, 0,
                        route, Load(ret, calls, resident.Keys, files.Keys - old(resident).Keys))
      ensures NoFaults(faults, old(calls)) && Truthful(answers, capacity, old(calls), old(resident).Keys)
              && !old(inSwapping) && !swapDisabled ==>
                var listed, filed := old(resident).Keys, old(files).Keys - old(resident).Keys;
                && route.Managed?
                && (ret == 0 <==>
                      && route.end.ret == 0
                      && AllDifferent(listed, key1, 0, 0) && AllFiled(listed, filed, key1, 0, 0)
                      && (Missing(listed, key1) == 0 || |listed - route.end.evicted| + 1 <= capacity))
                && (route.demand <= capacity - |listed| || listed * ownerControlled <= {key1, 0, 0} ==>
                      route.end.ret == 0)
      ensures route.Managed? ==>
        var stay := old(resident).Keys - route.end.evicted;
        var bound := if Missing(old(resident).Keys, key1) == 1 && |old(resident).Keys| == capacity then 1 else 0;
        && key1 !in route.end.evicted && |route.end.evicted| <= bound
        && stay <= resident.Keys <= stay + Requested(key1, 0, 0)
        && (ret == 0 ==> resident.Keys == stay + Requested(key1, 0, 0) && |route.end.evicted| == bound)
    {
      hide Kept, Extends, Outcome, Lists, Elements;
      ret, route := NeedKeysRoomGeneral(key1, 0, 0, 0, keys);
      ghost var listed := old(resident).Keys;
      assert NoneFixed(listed);
      ghost var n, filed := old(calls), old(files).Keys - old(resident).Keys;
      if NoFaults(faults, n) && Truthful(answers, capacity, n, listed) && !old(inSwapping) && !swapDisabled {
        NoFaultOutcome(faults, answers, capacity, ownerControlled, n, listed, filed, key1, 0, 0, 0,
                       route, Load(ret, calls, resident.Keys, files.Keys - listed));
      }
      if route.Managed? {
        AccountedStacked(capacity, ownerControlled, listed, key1, route);
      }
    }

    /** Any sequence of calls keeps every key, in each state it passes through. */
    method Serve(requests: seq<Request>, ghost keys: map<Handle, Key>)
      requires Valid() && Kept(Now(), keys)
      modifies this`resident, this`files, this`inSwapping, this`trace, this`calls
      ensures Valid() && Kept(Now(), keys) && Extends(trace, old(trace), keys)
      ensures inSwapping == old(inSwapping)
    {
      hide Kept, Extends;
      ExtendsItself(trace, keys);
      for i := 0 to |requests|
        invariant Valid() && Kept(Now(), keys) && Extends(trace, old(trace), keys)
        invariant inSwapping == old(inSwapping)
      {
        ghost var before := trace;
        match requests[i] {
          case Ordinary(key1, key2, key3, room, transports) =>
            var _, _ := NeedKeysRoom(key1, key2, key3, room, transports, keys);
          case Stacked(key1) =>
            var _, _ := NeedKeysRoomStacked(key1, keys);
        }
        ExtendsOn(trace, before, old(trace), keys);
      }
    }
  }
}
