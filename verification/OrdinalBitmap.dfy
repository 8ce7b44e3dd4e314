/** The 256-bit map of audited ordinals, as a set. */
module OrdinalBitmap {
  import opened Bytes

  type Bitmap = s: seq<bv8> | |s| == 32 witness seq(32, i => 0)

  function Mask(bit: nat): bv8
    requires bit < 8
  {
    1 << bit
  }

  /** The byte of the map that an ordinal falls in; ordinals from 256 on alias smaller ones. */
  function Index(ord: uint32): nat {
    ord % 0x100 / 8
  }

  function Set(b: Bitmap, ord: uint32): Bitmap {
    b[Index(ord) := b[Index(ord)] | Mask(ord % 8)]
  }

  function Clear(b: Bitmap, ord: uint32): Bitmap {
    b[Index(ord) := b[Index(ord)] & (Mask(ord % 8) ^ 0xff)]
  }

  predicate Test(b: Bitmap, ord: uint32) {
    ord < 0x100 && b[Index(ord)] & Mask(ord % 8) != 0
  }

  /** The set the map stands for. */
  function Members(b: Bitmap): set<uint32> {
    set o: uint32 | 0 <= o < 0x100 && Test(b, o)
  }

  lemma MaskMeetsSet(b: bv8, i: nat, j: nat)
    requires i < 8 && j < 8
    ensures (b | Mask(i)) & Mask(j) != 0 <==> i == j || b & Mask(j) != 0
  {
  }

  lemma MaskMeetsClear(b: bv8, i: nat, j: nat)
    requires i < 8 && j < 8
    ensures (b & (Mask(i) ^ 0xff)) & Mask(j) != 0 <==> i != j && b & Mask(j) != 0
  {
  }

  lemma SameOrdinal(ord: uint32, o: uint32)
    requires o < 0x100
    ensures o == ord % 0x100 <==> Index(ord) == Index(o) && ord % 8 == o % 8
  {
  }

  lemma TestSet(b: Bitmap, ord: uint32, o: uint32)
    requires o < 0x100
    ensures Test(Set(b, ord), o) <==> Test(b, o) || o == ord % 0x100
  {
    SameOrdinal(ord, o);
    MaskMeetsSet(b[Index(ord)], ord % 8, o % 8);
    hide Mask, Index;
  }

  lemma TestClear(b: Bitmap, ord: uint32, o: uint32)
    requires o < 0x100
    ensures Test(Clear(b, ord), o) <==> Test(b, o) && o != ord % 0x100
  {
    SameOrdinal(ord, o);
    MaskMeetsClear(b[Index(ord)], ord % 8, o % 8);
    hide Mask, Index;
  }

  /** Setting and clearing an ordinal's bit are adding it to the set and taking it out. */
  lemma SetRefines(b: Bitmap, ord: uint32)
    ensures Members(Set(b, ord)) == Members(b) + {ord % 0x100}
  {
    hide Test, Set;
    forall o: uint32 | o < 0x100 {
      TestSet(b, ord, o);
    }
  }

  lemma ClearRefines(b: Bitmap, ord: uint32)
    ensures Members(Clear(b, ord)) == Members(b) - {ord % 0x100}
  {
    hide Test, Clear;
    forall o: uint32 | o < 0x100 {
      TestClear(b, ord, o);
    }
  }

  function SetAll(b: Bitmap, ords: seq<uint32>): Bitmap {
    if ords == [] then b else Set(SetAll(b, ords[..|ords| - 1]), ords[|ords| - 1])
  }

  lemma {:induction false} SetAllRefines(b: Bitmap, ords: seq<uint32>)
    requires forall i :: 0 <= i < |ords| ==> ords[i] < 0x100
    ensures Members(SetAll(b, ords)) == Members(b) + Elements(ords)
  {
    if ords != [] {
      var rest, o := ords[..|ords| - 1], ords[|ords| - 1];
      assert ords == rest + [o];
      assert SetAll(b, ords) == Set(SetAll(b, rest), o);
      hide SetAll, Members, Set, Elements;
      SetAllRefines(b, rest);
      SetRefines(SetAll(b, rest), o);
      ElementsAppend(rest, o);
      calc {
        Members(SetAll(b, ords));
        Members(SetAll(b, rest)) + {o};
        Members(b) + Elements(rest) + {o};
        Members(b) + (Elements(rest) + {o});
        Members(b) + Elements(ords);
      }
    }
  }
}
