/** The eviction loop of the key residency manager, as a left fold over the handles it visits,
    and the arithmetic that its safety margin rests on. */
module EvictionSweep {
  import opened Bytes

  type Handle = uint32

  const TPM_OWNER_CONTROL: uint32 := 79

  /** Where the loop stands: the carried return code, the counter, the keys evicted so far and
      the number of turns that only skipped a protected key and were charged all the same. */
  datatype Sweep = Sweep(ret: uint32, left: nat, evicted: set<Handle>, charged: nat)

  predicate Live(s: Sweep) {
    (s.ret == 0 || s.ret == TPM_OWNER_CONTROL) && s.left > 0
  }

  /** One turn. A protected key leaves the return code of an earlier turn in place, and that
      stale code decides whether the counter goes down. */
  function Turn(s: Sweep, h: Handle, keep: set<Handle>, code: uint32): Sweep
    requires Live(s)
  {
    var ret := if h in keep then s.ret else code;
    Sweep(ret,
          if ret == 0 then s.left - 1 else s.left,
          if h !in keep && code == 0 then s.evicted + {h} else s.evicted,
          if h in keep && ret == 0 then s.charged + 1 else s.charged)
  }

  /** The loop after |codes| turns, codes[i] being what swapping out handles[i] returned. */
  function After(handles: seq<Handle>, keep: set<Handle>, codes: seq<uint32>, slots: nat): Sweep
    requires |codes| <= |handles|
  {
    if codes == [] then Sweep(0, slots, {}, 0)
    else
      var last := |codes| - 1;
      var s := After(handles, keep, codes[..last], slots);
      if Live(s) then Turn(s, handles[last], keep, codes[last]) else s
  }

  lemma AfterNone(handles: seq<Handle>, keep: set<Handle>, slots: nat)
    ensures After(handles, keep, [], slots) == Sweep(0, slots, {}, 0)
  {
  }

  lemma AfterNext(handles: seq<Handle>, keep: set<Handle>, codes: seq<uint32>, code: uint32, slots: nat)
    requires |codes| < |handles| && Live(After(handles, keep, codes, slots))
    ensures After(handles, keep, codes + [code], slots) ==
            Turn(After(handles, keep, codes, slots), handles[|codes|], keep, code)
  {
  }

  /** The loop returns 0 or the code of a swap-out it made. */
  lemma {:induction false} AfterReturns(handles: seq<Handle>, keep: set<Handle>, codes: seq<uint32>, slots: nat)
    requires |codes| <= |handles|
    ensures var ret := After(handles, keep, codes, slots).ret;
            ret == 0 || exists i :: 0 <= i < |codes| && handles[i] !in keep && codes[i] == ret
  {
    if codes != [] {
      var last := |codes| - 1;
      var before := codes[..last];
      AfterReturns(handles, keep, before, slots);
      var ret := After(handles, keep, before, slots).ret;
      if ret != 0 {
        var i :| 0 <= i < |before| && handles[i] !in keep && before[i] == ret;
        assert codes[i] == ret;
      }
    }
  }

  predicate Distinct<T(==)>(s: seq<T>) {
    forall i, j :: 0 <= i < j < |s| ==> s[i] != s[j]
  }

  lemma DistinctCount<T>(s: seq<T>)
    requires Distinct(s)
    ensures |Elements(s)| == |s|
  {
    if s != [] {
      var front := s[..|s| - 1];
      DistinctCount(front);
      assert Elements(s) == Elements(front) + {s[|s| - 1]};
    }
  }

  /** Among the handles visited, h is one whose swap-out returned `code`. */
  predicate Answered(handles: seq<Handle>, codes: seq<uint32>, h: Handle, code: uint32)
    requires |codes| <= |handles|
  {
    exists i :: 0 <= i < |codes| && handles[i] == h && codes[i] == code
  }

  /** Only visited keys whose swap-out returned 0 are evicted, and never a protected one. */
  lemma {:induction false} SweepEvictsOnly(handles: seq<Handle>, keep: set<Handle>, codes: seq<uint32>, slots: nat)
    requires |codes| <= |handles|
    ensures forall h :: h in After(handles, keep, codes, slots).evicted ==>
              h !in keep && Answered(handles, codes, h, 0)
  {
    if codes != [] {
      var last := |codes| - 1;
      var before := codes[..last];
      SweepEvictsOnly(handles, keep, before, slots);
      forall h | h in After(handles, keep, codes, slots).evicted
        ensures h !in keep && Answered(handles, codes, h, 0)
      {
        if h in After(handles, keep, before, slots).evicted {
          var i :| 0 <= i < |before| && handles[i] == h && before[i] == 0;
          assert codes[i] == 0;
        } else {
          assert handles[last] == h && codes[last] == 0;
        }
      }
    }
  }

  /** Evictions plus charged skips are the counter's decrease, and no more skips are charged
      than there are protected keys among those visited. */
  lemma {:induction false} SweepAccounting(handles: seq<Handle>, keep: set<Handle>, codes: seq<uint32>, slots: nat)
    requires Distinct(handles) && |codes| <= |handles|
    ensures var s := After(handles, keep, codes, slots);
            && |s.evicted| + s.charged + s.left == slots
            && s.charged <= |keep * Elements(handles[..|codes|])|
  {
    if codes != [] {
      var last := |codes| - 1;
      var s := After(handles, keep, codes[..last], slots);
      SweepAccounting(handles, keep, codes[..last], slots);
      ProtectedSeen(handles, keep, last);
      if Live(s) {
        NotYetEvicted(handles, keep, codes[..last], slots);
        TurnAccounting(s, handles[last], keep, codes[last]);
      }
    }
  }

  lemma TurnAccounting(s: Sweep, h: Handle, keep: set<Handle>, code: uint32)
    requires Live(s) && h !in s.evicted
    ensures var t := Turn(s, h, keep, code);
            && |t.evicted| + t.charged + t.left == |s.evicted| + s.charged + s.left
            && t.charged <= s.charged + if h in keep then 1 else 0
  {
  }

  lemma NotYetEvicted(handles: seq<Handle>, keep: set<Handle>, codes: seq<uint32>, slots: nat)
    requires Distinct(handles) && |codes| < |handles|
    ensures handles[|codes|] !in After(handles, keep, codes, slots).evicted
  {
    SweepEvictsOnly(handles, keep, codes, slots);
  }

  lemma ProtectedSeen(handles: seq<Handle>, keep: set<Handle>, n: nat)
    requires Distinct(handles) && n < |handles|
    ensures |keep * Elements(handles[..n + 1])| ==
            |keep * Elements(handles[..n])| + if handles[n] in keep then 1 else 0
  {
    var seen, h := Elements(handles[..n]), handles[n];
    assert handles[..n + 1] == handles[..n] + [h];
    assert Elements(handles[..n + 1]) == seen + {h};
    if h in keep {
      assert keep * (seen + {h}) == keep * seen + {h};
    } else {
      assert keep * (seen + {h}) == keep * seen;
    }
  }

  /** A loop that runs off the end of the list has left nothing it could have evicted. */
  lemma {:induction false} SweepComplete(handles: seq<Handle>, keep: set<Handle>, codes: seq<uint32>, slots: nat)
    requires |codes| <= |handles| && Live(After(handles, keep, codes, slots))
    ensures forall i :: 0 <= i < |codes| ==>
              || handles[i] in keep
              || codes[i] == TPM_OWNER_CONTROL
              || handles[i] in After(handles, keep, codes, slots).evicted
  {
    if codes != [] {
      var last := |codes| - 1;
      SweepComplete(handles, keep, codes[..last], slots);
      assert forall i :: 0 <= i < last ==> codes[..last][i] == codes[i];
    }
  }

  /** TPM_OWNER_CONTROL was answered for keys under owner control, and 0 for others. */
  ghost predicate OwnersKnown(owners: set<Handle>, handles: seq<Handle>, keep: set<Handle>, codes: seq<uint32>)
    requires |codes| <= |handles|
  {
    forall i :: 0 <= i < |codes| && handles[i] !in keep ==>
      && (codes[i] == TPM_OWNER_CONTROL ==> handles[i] in owners)
      && (codes[i] == 0 ==> handles[i] !in owners)
  }

  lemma OwnersKnownOn(owners: set<Handle>, handles: seq<Handle>, keep: set<Handle>, codes: seq<uint32>, code: uint32)
    requires |codes| < |handles| && OwnersKnown(owners, handles, keep, codes)
    requires handles[|codes|] !in keep ==>
               && (code == TPM_OWNER_CONTROL ==> handles[|codes|] in owners)
               && (code == 0 ==> handles[|codes|] !in owners)
    ensures OwnersKnown(owners, handles, keep, codes + [code])
  {
  }

  /** How a loop has ended, whatever it returned: evictions and charged skips make up the decrease
      of the counter, and a loop that ran off the end evicted all that could be evicted. */
  ghost predicate Settled(owners: set<Handle>, listed: set<Handle>, keep: set<Handle>, slots: nat, end: Sweep) {
    && end.evicted <= listed - keep - owners
    && |end.evicted| + end.charged + end.left == slots
    && end.charged <= |keep * listed|
    && (Live(end) ==> end.evicted == listed - keep - owners)
  }

  lemma SweepOutcome(owners: set<Handle>, handles: seq<Handle>, keep: set<Handle>, codes: seq<uint32>, slots: nat)
    requires Distinct(handles) && |codes| <= |handles|
    requires OwnersKnown(owners, handles, keep, codes)
    requires Live(After(handles, keep, codes, slots)) ==> |codes| == |handles|
    ensures Settled(owners, Elements(handles), keep, slots, After(handles, keep, codes, slots))
  {
    var end, listed := After(handles, keep, codes, slots), Elements(handles);
    SweepEvictsOnly(handles, keep, codes, slots);
    SweepAccounting(handles, keep, codes, slots);
    Subset(keep * Elements(handles[..|codes|]), keep * listed);
    if Live(end) {
      SweepComplete(handles, keep, codes, slots);
    }
  }

  /** The loop with nothing refused, up to the turn at which the counter reaches zero. */
  lemma {:induction false} SweepUnrefused(handles: seq<Handle>, keep: set<Handle>, codes: seq<uint32>, slots: nat)
    requires |codes| <= |handles| && |codes| <= slots
    requires forall i :: 0 <= i < |codes| ==> codes[i] == 0
    ensures var s := After(handles, keep, codes, slots);
            && s.ret == 0 && s.left == slots - |codes|
            && s.evicted == Elements(handles[..|codes|]) - keep
  {
    if codes != [] {
      var last := |codes| - 1;
      SweepUnrefused(handles, keep, codes[..last], slots);
      assert handles[..last + 1] == handles[..last] + [handles[last]];
    }
  }

  /** Three units of margin are needed: on a full TPM that lists three requested keys first, asking
      for |others| free slots frees as many as that less what the margin lacks of 3. */
  lemma MarginIsTight(k1: Handle, k2: Handle, k3: Handle, others: seq<Handle>, margin: nat)
    requires Distinct([k1, k2, k3] + others) && margin <= 3 <= |others| + margin
    ensures var end := After([k1, k2, k3] + others, {k1, k2, k3}, seq(|others| + margin, _ => 0), |others| + margin);
            end.ret == 0 && end.left == 0 && |end.evicted| == |others| + margin - 3
  {
    var handles, keep, slots := [k1, k2, k3] + others, {k1, k2, k3}, |others| + margin;
    var gone := others[..slots - 3];
    SweepUnrefused(handles, keep, seq(slots, _ => 0), slots);
    assert handles[..slots] == [k1, k2, k3] + gone;
    assert forall i :: 0 <= i < |gone| ==> gone[i] == handles[i + 3];
    assert Elements([k1, k2, k3] + gone) - keep == Elements(gone) by {
      forall h | h in gone ensures h !in keep {
        var i :| 0 <= i < |gone| && gone[i] == h;
        assert handles[i + 3] == h && handles[0] == k1 && handles[1] == k2 && handles[2] == k3;
      }
    }
    DistinctCount(gone);
  }

  /** Running off the end of the list returns 0 just the same: here a full TPM of one slot holds the
      requested key, and nothing is evicted though four slots were asked for. */
  lemma RunsOffTheEnd()
    ensures After([1], {1}, [0], 4) == Sweep(0, 3, {}, 1)
  {
  }

  /** The room guarantee and the exact condition it holds under. `listed` are the keys in the
      TPM, `wanted` the requested ones, `owners` those under owner control. With slots for `room`
      plus 3 demanded, `room` slots are free in the end if and only if the keys that cannot leave
      allow it. */
  lemma RoomExactly(owners: set<Handle>, listed: set<Handle>, wanted: set<Handle>, end: Sweep,
                    capacity: nat, demand: nat, room: nat)
    requires |listed| <= capacity && |wanted| <= 3 && demand >= room + 3 && end.ret == 0
    requires demand <= capacity - |listed| ==> end.evicted == {}
    requires demand > capacity - |listed| ==> Settled(owners, listed, wanted, demand - (capacity - |listed|), end)
    ensures var final, pinned := listed - end.evicted + wanted, wanted + listed * owners;
            && pinned <= final
            && (room <= capacity - |final| <==> room <= capacity - |pinned|)
            && (demand <= capacity - |listed| || end.left == 0 ==> room <= capacity - |final|)
  {
    var final, pinned := listed - end.evicted + wanted, wanted + listed * owners;
    FinalCount(listed, wanted, end.evicted);
    Subset(pinned, final);
    if demand > capacity - |listed| && end.left > 0 {
      assert final == pinned;
    }
  }

  lemma FinalCount(listed: set<Handle>, wanted: set<Handle>, evicted: set<Handle>)
    requires evicted <= listed - wanted
    ensures |listed - evicted + wanted| + |evicted| + |wanted * listed| == |listed| + |wanted|
  {
    var stay, missing, had := listed - evicted, wanted - listed, wanted * listed;
    assert listed - evicted + wanted == stay + missing && stay !! missing;
    assert wanted == missing + had && missing !! had;
    assert listed == stay + evicted && stay !! evicted;
  }

  lemma Subset<T>(a: set<T>, b: set<T>)
    requires a <= b
    ensures |a| <= |b|
  {
    assert b == a + (b - a);
  }
}
