/** PCR selections as 24-bit maps and as selection bytes, and the composite hash over the values. */
module Pcr {
  import opened Bytes

  const REGISTERS: nat := 24

  /** sizeof(struct pcrinfo): the 45 bytes of its fields and one of padding to an even size. */
  const INFO_SIZE: nat := 46

  /** `work` is the map w shifted down by i bits. */
  ghost predicate Shifted(work: nat, w: nat, i: nat) {
    forall k: nat :: Bit(work, k) <==> Bit(w, i + k)
  }

  lemma ShiftOne(work: nat, w: nat, i: nat)
    requires Shifted(work, w, i)
    ensures work % 2 == 1 <==> Bit(w, i)
    ensures Shifted(work / 2, w, i + 1)
  {
    assert Bit(work, 0) <==> Bit(w, i + 0);
    forall k: nat ensures Bit(work / 2, k) <==> Bit(w, i + 1 + k) {
      assert Bit(work, k + 1) <==> Bit(w, i + (k + 1));
    }
  }

  /** The registers below n that a map selects, in ascending order. */
  function Selected(w: nat, n: nat): (regs: seq<nat>)
    ensures |regs| <= n
  {
    if n == 0 then []
    else if Bit(w, n - 1) then Selected(w, n - 1) + [n - 1]
    else Selected(w, n - 1)
  }

  /** TPM_PCR_SELECTION's bytes for the low 24 bits of a map. */
  function SelectBytes(w: nat): (s: seq<byte>)
    ensures |s| == 3
  {
    [w % 0x100, w / 0x100 % 0x100, w / 0x100 / 0x100 % 0x100]
  }

  type Code = c: uint32 | c != 0 witness 1

  /** What reading registers gives: their values, or the code of the first read that fails. */
  datatype Reading<T> = Value(value: T) | Failure(code: Code)

  /** What one read of each register gives; the registers do not change in between. */
  type Registers = nat -> Reading<Digest>

  function Gathered(tpm: Registers, regs: seq<nat>): (r: Reading<seq<Digest>>)
    ensures r.Value? ==> |r.value| == |regs|
  {
    if regs == [] then Value([])
    else
      var front := Gathered(tpm, regs[..|regs| - 1]);
      if front.Failure? then front
      else match tpm(regs[|regs| - 1])
        case Value(v) => Value(front.value + [v])
        case Failure(code) => Failure(code)
  }

  function Flat(values: seq<Digest>): (s: seq<byte>)
    ensures |s| == 20 * |values|
  {
    if values == [] then [] else Flat(values[..|values| - 1]) + values[|values| - 1]
  }

  /** TPM_PCR_COMPOSITE on the wire: sized selection bytes and sized values. */
  function Composite(select: seq<byte>, values: seq<Digest>): seq<byte>
    requires |select| < 0x1_0000 && 20 * |values| < 0x1_0000_0000
  {
    BE16(|select|) + select + BE32(20 * |values|) + Flat(values)
  }

  /** TPM_PCR_INFO on the wire, with one digest for creation and release. */
  function Info(select: seq<byte>, digest: Digest): seq<byte>
    requires |select| < 0x1_0000
  {
    BE16(|select|) + select + digest + digest
  }

  // ----- TSS_GenPCRInfo.

  method PcrRead(tpm: Registers, i: nat, values: array<byte>, at: nat) returns (ret: uint32)
    requires at + 20 <= values.Length
    modifies values
    ensures match tpm(i)
            case Value(v) => ret == 0 && values[..at + 20] == old(values[..at]) + v
            case Failure(code) => ret == code && values[..] == old(values[..])
  {
    match tpm(i)
    case Value(v) =>
      Copy(values, at, v);
      ret := 0;
    case Failure(code) =>
      ret := code;
  }

  method BuildSelect(pcrmap: uint32) returns (select: array<byte>)
    ensures fresh(select) && select[..] == SelectBytes(pcrmap)
  {
    select := new byte[3](_ => 0);
    var work: uint32 := pcrmap;
    for i := 0 to 3
      invariant work == if i == 0 then pcrmap else if i == 1 then pcrmap / 0x100
                        else pcrmap / 0x100 / 0x100 / (if i == 2 then 1 else 0x100)
      invariant select[..i] == SelectBytes(pcrmap)[..i]
    {
      select[i] := work % 0x100;
      work := work / 0x100;
    }
  }

  method CountRegisters(pcrmap: uint32) returns (numregs: nat)
    ensures numregs == |Selected(pcrmap, REGISTERS)|
  {
    numregs := 0;
    var work: uint32 := pcrmap;
    assert Shifted(work, pcrmap, 0);
    hide Bit, Shifted;
    for i := 0 to REGISTERS
      invariant Shifted(work, pcrmap, i)
      invariant numregs == |Selected(pcrmap, i)|
    {
      ShiftOne(work, pcrmap, i);
      if work % 2 == 1 {
        numregs := numregs + 1;
      }
      work := work / 2;
    }
  }

  /** Every value is written inside the array, in order, and fills it exactly. */
  method GatherValues(tpm: Registers, pcrmap: uint32, values: array<byte>) returns (ret: uint32)
    requires values.Length == 20 * |Selected(pcrmap, REGISTERS)|
    modifies values
    ensures match Gathered(tpm, Selected(pcrmap, REGISTERS))
            case Value(vs) => ret == 0 && values[..] == Flat(vs)
            case Failure(code) => ret == code
  {
    var work: uint32 := pcrmap;
    var j := 0;
    ghost var vs: seq<Digest> := [];
    assert Shifted(work, pcrmap, 0) && Selected(pcrmap, 0) == [];
    assert Gathered(tpm, []) == Value(vs) && Flat(vs) == [];
    hide Gathered, Flat, Bit, Shifted, Selected;
    for i := 0 to REGISTERS
      invariant Shifted(work, pcrmap, i)
      invariant j == |Selected(pcrmap, i)|
      invariant Gathered(tpm, Selected(pcrmap, i)) == Value(vs) && |vs| == j
      invariant 20 * j <= values.Length && values[..20 * j] == Flat(vs)
    {
      ShiftOne(work, pcrmap, i);
      SelectedNext(pcrmap, i);
      SelectedAppend(pcrmap, i + 1, REGISTERS);
      if work % 2 == 1 {
        GatheredNext(tpm, Selected(pcrmap, i), i);
        ret := PcrRead(tpm, i, values, 20 * j);
        if ret != 0 {
          GatheredFails(tpm, Selected(pcrmap, REGISTERS), j + 1);
          return;
        }
        FlatNext(vs, tpm(i).value);
        vs := vs + [tpm(i).value];
        j := j + 1;
      }
      work := work / 2;
    }
    ret := 0;
    assert values[..] == values[..20 * j];
  }

  lemma SelectedNext(w: nat, i: nat)
    ensures Selected(w, i + 1) == if Bit(w, i) then Selected(w, i) + [i] else Selected(w, i)
  {
  }

  lemma GatheredNext(tpm: Registers, regs: seq<nat>, i: nat)
    ensures Gathered(tpm, regs + [i]) == match Gathered(tpm, regs)
      case Failure(code) => Failure(code)
      case Value(vs) => match tpm(i)
        case Failure(code) => Failure(code)
        case Value(v) => Value(vs + [v])
  {
  }

  lemma FlatNext(values: seq<Digest>, v: Digest)
    ensures Flat(values + [v]) == Flat(values) + v
  {
  }

  lemma {:induction false} GatheredFails(tpm: Registers, regs: seq<nat>, n: nat)
    requires n <= |regs| && Gathered(tpm, regs[..n]).Failure?
    ensures Gathered(tpm, regs) == Gathered(tpm, regs[..n])
  {
    if n < |regs| {
      assert regs[..|regs| - 1][..n] == regs[..n];
      GatheredFails(tpm, regs[..|regs| - 1], n);
    } else {
      assert regs[..n] == regs;
    }
  }

  /** The composite hash, fed piece by piece. */
  method HashComposite(sha1: Hash, select: array<byte>, numregs: nat, values: array<byte>) returns (digest: Digest)
    requires select.Length == 3 && values.Length == 20 * numregs < 0x1_0000_0000
    ensures digest == sha1(BE16(3) + select[..] + BE32(20 * numregs) + values[..])
  {
    var fed := BE16(3) + select[..] + BE32(20 * numregs);
    for i := 0 to numregs
      invariant fed == BE16(3) + select[..] + BE32(20 * numregs) + values[..20 * i]
    {
      fed := fed + values[20 * i..20 * i + 20];
    }
    assert values[..] == values[..20 * numregs];
    digest := sha1(fed);
  }

  /** What the caller's buffer starts with afterwards: the structure and its one byte of padding. */
  function InfoOf(sha1: Hash, pcrmap: uint32, values: seq<Digest>, padding: byte): (s: seq<byte>)
    requires |values| <= REGISTERS
  {
    Info(SelectBytes(pcrmap), sha1(Composite(SelectBytes(pcrmap), values))) + [padding]
  }

  method GenPcrInfo(tpm: Registers, sha1: Hash, padding: byte, pcrmap: uint32, pcrinfo: array?<byte>, len: uint32)
    returns (ret: uint32, newLen: uint32)
    requires pcrinfo != null ==> pcrinfo.Length >= INFO_SIZE
    modifies if pcrinfo == null then {} else {pcrinfo}
    ensures pcrinfo == null ==> ret == ERR_NULL_ARG
    ensures pcrinfo != null ==>
              var regs := Selected(pcrmap, REGISTERS);
              match Gathered(tpm, regs)
              case Failure(code) => ret == code && newLen == len && pcrinfo[..] == old(pcrinfo[..])
              case Value(vs) =>
                && ret == 0
                && if regs == [] then newLen == 0 && pcrinfo[..] == old(pcrinfo[..])
                   else && newLen == INFO_SIZE
                        && pcrinfo[..] == InfoOf(sha1, pcrmap, vs, padding) + old(pcrinfo[INFO_SIZE..])
  {
    ret, newLen := 0, len;
    if pcrinfo == null {
      return ERR_NULL_ARG, len;
    }
    var select := BuildSelect(pcrmap);
    var numregs := CountRegisters(pcrmap);
    if numregs == 0 {
      return 0, 0;
    }
    var values := new byte[20 * numregs];
    ret := GatherValues(tpm, pcrmap, values);
    if ret != 0 {
      return;
    }
    var digest := HashComposite(sha1, select, numregs, values);
    Copy(pcrinfo, 0, BE16(3) + select[..] + digest + digest + [padding]);
    return 0, INFO_SIZE;
  }

  /** The structure has 45 bytes; the length told is one more, as it counts the padding. */
  lemma LengthCountsPadding(sha1: Hash, pcrmap: uint32, values: seq<Digest>, padding: byte)
    requires |values| <= REGISTERS
    ensures |InfoOf(sha1, pcrmap, values, padding)| == INFO_SIZE
    ensures InfoOf(sha1, pcrmap, values, padding)[..INFO_SIZE - 1] ==
            Info(SelectBytes(pcrmap), sha1(Composite(SelectBytes(pcrmap), values)))
  {
  }

  // ----- Maps and lists.

  lemma {:induction false} SelectedAppend(w: nat, n: nat, m: nat)
    requires n <= m
    ensures |Selected(w, n)| <= |Selected(w, m)| && Selected(w, n) == Selected(w, m)[..|Selected(w, n)|]
  {
    if n < m {
      SelectedAppend(w, n, m - 1);
    }
  }

  /** A register is listed exactly if its bit is set, once, and in ascending order. */
  lemma {:induction false} SelectedIs(w: nat, n: nat)
    ensures forall i: nat :: i in Selected(w, n) <==> i < n && Bit(w, i)
    ensures forall j, k :: 0 <= j < k < |Selected(w, n)| ==> Selected(w, n)[j] < Selected(w, n)[k]
  {
    if n > 0 {
      SelectedIs(w, n - 1);
      var front := Selected(w, n - 1);
      assert forall j :: 0 <= j < |front| ==> front[j] in front;
    }
  }

  /** A map cut above its m lowest bits. */
  function Low(w: nat, m: nat): nat {
    if m == 0 then 0 else w % 2 + 2 * Low(w / 2, m - 1)
  }

  function High(w: nat, m: nat): nat {
    if m == 0 then w else High(w / 2, m - 1)
  }

  lemma {:induction false} BitOfCut(w: nat, m: nat, i: nat)
    ensures Bit(w, i) == if i < m then Bit(Low(w, m), i) else Bit(High(w, m), i - m)
  {
    if m > 0 && i > 0 {
      BitOfCut(w / 2, m - 1, i - 1);
    }
  }

  lemma CutTwo(w: nat, m: nat)
    requires m >= 2
    ensures Low(w, m) == w % 4 + 4 * Low(w / 4, m - 2) && High(w, m) == High(w / 4, m - 2)
  {
  }

  lemma CutByte(w: nat)
    ensures Low(w, 8) == w % 0x100 && High(w, 8) == w / 0x100
  {
    var w1 := w / 4;
    var w2 := w1 / 4;
    var w3 := w2 / 4;
    var w4 := w3 / 4;
    CutTwo(w, 8);
    CutTwo(w1, 6);
    CutTwo(w2, 4);
    CutTwo(w3, 2);
    CutNothing(w4);
    hide Low, High;
    DigitsOfByte(w, w1, w2, w3, w4, w % 4, w1 % 4, w2 % 4, w3 % 4);
  }

  lemma DigitsOfByte(w: nat, w1: nat, w2: nat, w3: nat, w4: nat, r0: nat, r1: nat, r2: nat, r3: nat)
    requires r0 < 4 && r1 < 4 && r2 < 4 && r3 < 4
    requires w == 4 * w1 + r0 && w1 == 4 * w2 + r1 && w2 == 4 * w3 + r2 && w3 == 4 * w4 + r3
    ensures r0 + 4 * (r1 + 4 * (r2 + 4 * r3)) == w % 0x100 && w4 == w / 0x100
  {
  }

  lemma CutNothing(w: nat)
    ensures Low(w, 0) == 0 && High(w, 0) == w
  {
  }

  lemma BitOfByte(w: nat, i: nat)
    ensures Bit(w, i) == if i < 8 then Bit(w % 0x100, i) else Bit(w / 0x100, i - 8)
  {
    BitOfCut(w, 8, i);
    CutByte(w);
  }

  /** The selection bytes hold a register's bit where section 8.1 of the TPM structures puts it. */
  lemma SelectionBits(w: nat, i: nat)
    requires i < REGISTERS
    ensures Bit(SelectBytes(w)[i / 8], i % 8) == Bit(w, i)
  {
    BitOfByte(w, i);
    if i >= 8 {
      BitOfByte(w / 0x100, i - 8);
    }
    if i >= 16 {
      BitOfByte(w / 0x100 / 0x100, i - 16);
    }
  }

  /** Reading three selection bytes as a word and cutting it up again gives them back, whatever the
      fourth byte holds. */
  lemma WordRoundTrip(select: seq<byte>, x: byte)
    requires |select| == 3
    ensures SelectBytes(LoadLE32(select + [x], 0)) == select
  {
    WordBytes(select + [x]);
  }

  lemma WordBytes(s: seq<byte>)
    requires |s| == 4
    ensures SelectBytes(LoadLE32(s, 0)) == s[..3]
  {
    var b3: int, b2: int, b1: int, b0: int := s[3], s[2], s[1], s[0];
    DivByte(b3, b2);
    DivByte(b3 * 0x100 + b2, b1);
    DivByte((b3 * 0x100 + b2) * 0x100 + b1, b0);
  }

  // ----- The display of a selection and of whether it matches the registers.

  /** The registers below n that selection bytes select, in ascending order. */
  function Shown(select: seq<byte>, n: nat): (regs: seq<nat>)
    requires n <= 8 * |select|
    ensures |regs| <= n
  {
    if n == 0 then []
    else if Bit(select[(n - 1) / 8], (n - 1) % 8) then Shown(select, n - 1) + [n - 1]
    else Shown(select, n - 1)
  }

  lemma {:induction false} ShownIsSelected(select: seq<byte>, w: nat, n: nat)
    requires |select| <= 3 && select == SelectBytes(w)[..|select|] && n <= 8 * |select|
    ensures Shown(select, n) == Selected(w, n)
  {
    if n > 0 {
      ShownIsSelected(select, w, n - 1);
      SelectionBits(w, n - 1);
    }
  }

  datatype Verdict = Unselected | Unread(code: Code) | Matches(yes: bool)

  /** TPM_PCR_SELECTION with its three bytes of room, copied into a word of which `junk` is what was
      there before. */
  function WordOf(select: seq<byte>, junk: seq<byte>): uint32
    requires |select| <= 3 && |junk| == 4
  {
    LoadLE32(select + junk[|select|..], 0)
  }

  lemma WordKeeps(select: seq<byte>, junk: seq<byte>)
    requires |select| <= 3 && |junk| == 4
    ensures select == SelectBytes(WordOf(select, junk))[..|select|]
  {
    WordBytes(select + junk[|select|..]);
    hide LoadLE32, SelectBytes;
  }

  method ShowReadPcrs(tpm: Registers, sha1: Hash, padding: byte, select: seq<byte>, junk: seq<byte>,
                      digestAtRelease: Digest)
    returns (shown: seq<nat>, verdict: Verdict)
    requires |select| <= 3 && |junk| == 4
    ensures shown == Shown(select, 8 * |select|)
    ensures verdict ==
            if shown == [] then Unselected
            else
              var w := WordOf(select, junk);
              match Gathered(tpm, Selected(w, REGISTERS))
              case Failure(code) => Unread(code)
              case Value(vs) => Matches(sha1(Composite(SelectBytes(w), vs)) == digestAtRelease)
    ensures |select| == 3 && shown != [] ==>
              verdict == match Gathered(tpm, shown)
                         case Failure(code) => Unread(code)
                         case Value(vs) => Matches(sha1(Composite(select, vs)) == digestAtRelease)
  {
    hide Composite, InfoOf, LoadLE32, SelectBytes, Gathered;
    shown := [];
    for i := 0 to 8 * |select|
      invariant shown == Shown(select, i)
    {
      if Bit(select[i / 8], i % 8) {
        shown := shown + [i];
      }
    }
    if shown == [] {
      return shown, Unselected;
    }
    var scratch := new byte[256];
    var pcrmap := WordOf(select, junk);
    WordKeeps(select, junk);
    ShownIsSelected(select, pcrmap, 8 * |select|);
    SelectedAppend(pcrmap, 8 * |select|, REGISTERS);
    var ret, _ := GenPcrInfo(tpm, sha1, padding, pcrmap, scratch, 0);
    if ret != 0 {
      return shown, Unread(ret);
    }
    assert |select| == 3 ==> SelectBytes(pcrmap)[..3] == SelectBytes(pcrmap);
    ghost var vs := Gathered(tpm, Selected(pcrmap, REGISTERS)).value;
    InfoDigest(sha1, pcrmap, vs, padding, scratch[INFO_SIZE..]);
    assert scratch[..][5..25] == scratch[5..25];
    return shown, Matches(scratch[5..25] == digestAtRelease);
  }

  lemma InfoDigest(sha1: Hash, pcrmap: uint32, values: seq<Digest>, padding: byte, rest: seq<byte>)
    requires |values| <= REGISTERS
    ensures (InfoOf(sha1, pcrmap, values, padding) + rest)[5..25] == sha1(Composite(SelectBytes(pcrmap), values))
  {
  }

  /** What is hashed is the composite of the displayed selection exactly when that has three bytes. */
  lemma HashedAsShownExactly(select: seq<byte>, junk: seq<byte>, values: seq<Digest>, shownValues: seq<Digest>)
    requires |select| <= 3 && |junk| == 4 && |values| <= REGISTERS && |shownValues| <= REGISTERS
    requires |select| == 3 ==> values == shownValues
    ensures Composite(SelectBytes(WordOf(select, junk)), values) == Composite(select, shownValues) <==> |select| == 3
  {
    WordKeeps(select, junk);
    assert Composite(select, shownValues)[1] == |select|;
    assert Composite(SelectBytes(WordOf(select, junk)), values)[1] == 3;
  }

  lemma {:induction false} FlatInjective(a: seq<Digest>, b: seq<Digest>)
    requires Flat(a) == Flat(b)
    ensures a == b
  {
    if a != [] && b != [] {
      var m, n := |a| - 1, |b| - 1;
      SplitConcat(Flat(a[..m]), a[m], Flat(b[..n]), b[n]);
      FlatInjective(a[..m], b[..n]);
      assert a == a[..m] + [a[m]] && b == b[..n] + [b[n]];
    }
  }

  /** A composite determines the selection and every value: two with the same bytes agree on
      which registers are meant and on what they hold. */
  lemma CompositeInjective(s: seq<byte>, vs: seq<Digest>, t: seq<byte>, us: seq<Digest>)
    requires |s| <= 3 && |t| <= 3 && |vs| <= REGISTERS && |us| <= REGISTERS
    requires Composite(s, vs) == Composite(t, us)
    ensures s == t && vs == us
  {
    assert Composite(s, vs)[1] == |s| && Composite(t, us)[1] == |t|;
    SplitConcat(BE16(|s|) + s + BE32(20 * |vs|), Flat(vs), BE16(|t|) + t + BE32(20 * |us|), Flat(us));
    SplitConcat(BE16(|s|) + s, BE32(20 * |vs|), BE16(|t|) + t, BE32(20 * |us|));
    SplitConcat(BE16(|s|), s, BE16(|t|), t);
    FlatInjective(vs, us);
  }
}
