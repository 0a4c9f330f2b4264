/** Assignment of fuse bytes and of all the fuses (flashc.c, lines 481 to 505, 530 to 546 and 573 to 610). */
module FuseBytes {
  import opened Arith
  import opened Bits
  import opened FlashHardware
  import opened FlashAccess
  import opened GpFuses

  /** Byte k of the fuses ANDed with bits. */
  function ByteAnded(fuses: seq<bool>, k: nat, bits: seq<bool>): seq<bool>
    requires |fuses| == 64 && |bits| == 8
  {
    seq(64, j requires 0 <= j < 64 => if j / 8 == k then fuses[j] && bits[j % 8] else fuses[j])
  }

  /** The bytes of word below k, except byte skip, over a register of erased fuses. */
  function Restored(word: seq<bool>, k: nat, skip: nat): seq<bool>
    requires |word| == 64
  {
    seq(64, j requires 0 <= j < 64 => j / 8 >= k || j / 8 == skip || word[j])
  }

  /** flashc_write_gp_fuse_byte: the index is masked, the value clears fuses. */
  method WriteByte(c: FlashController, index: nat, value: nat)
    requires c.Valid() && value < 256
    modifies c
    ensures c.Valid() && old(c.log) < c.log && c.errorStatus == AllErrors(c.log[|old(c.log)|..])
    ensures c.cells == old(c.cells) && c.burns == old(c.burns)
    ensures c.errorStatus == NO_ERRORS ==> c.fuses == ByteAnded(old(c.fuses), index % 8, BitsOf(value, 8))
  {
    c.IssueCommand(PGPFB, index % 8 + 8 * value);
    OneCommand(old(c.log), c.log[|old(c.log)|]);
    ByteCommand(old(c.fuses), index % 8, value);
  }

  lemma ByteCommand(fuses: seq<bool>, k: nat, value: nat)
    requires |fuses| == 64 && k < 8
    ensures FusesAfter(fuses, PGPFB, k + 8 * value) == ByteAnded(fuses, k, BitsOf(value, 8))
  {
    hide BitsOf;
    assert (k + 8 * value) % 8 == k && (k + 8 * value) / 8 == value;
    var after, goal := FusesAfter(fuses, PGPFB, k + 8 * value), ByteAnded(fuses, k, BitsOf(value, 8));
    forall j | 0 <= j < 64
      ensures after[j] == goal[j]
    {
      assert 8 * k <= j < 8 * k + 8 <==> j / 8 == k;
    }
  }

  /** flashc_erase_all_gp_fuses. */
  method EraseAll(c: FlashController, check: bool) returns (erased: bool)
    requires c.Valid()
    modifies c
    ensures c.Valid() && old(c.log) < c.log && c.errorStatus == AllErrors(c.log[|old(c.log)|..])
    ensures c.cells == old(c.cells) && c.burns == old(c.burns)
    ensures c.errorStatus == NO_ERRORS ==> c.fuses == Trues(64)
    ensures erased <==> !check || c.fuses == Trues(64)
  {
    hide FromBits, Pow2, ReadAll;
    c.IssueCommand(EAGPF, -1);
    OneCommand(old(c.log), c.log[|old(c.log)|]);
    ReadAllIsFuses(c);
    TruesOnly(c.fuses);
    erased := if check then ReadAll(c) == Pow2(64) - 1 else true;
  }

  /** Bits are all set exactly when their number is the largest one. */
  lemma TruesOnly(bits: seq<bool>)
    ensures FromBits(bits) == Pow2(|bits|) - 1 <==> bits == Trues(|bits|)
  {
    TruesValue(|bits|);
    BitsOfFromBits(bits);
    BitsOfFromBits(Trues(|bits|));
  }

  /** Byte k of a number is byte k of its bits. */
  lemma ByteBits(word: seq<bool>, k: nat)
    requires |word| == 64 && k < 8
    ensures BitsOf(Shr(FromBits(word), 8 * k) % 256, 8) == word[8 * k..8 * k + 8]
  {
    hide Shr, FromBits, BitsOf;
    ShrFromBits(word, 8 * k);
    var rest := word[8 * k..];
    LowBits(rest, 8);
    Pow2Plus8(0);
    BitsOfFromBits(rest[..8]);
    assert rest[..8] == word[8 * k..8 * k + 8];
  }

  /** Writing byte k restores it; byte skip needs no write. */
  lemma RestoreNext(word: seq<bool>, k: nat, skip: nat)
    requires |word| == 64 && k < 8
    ensures k != skip ==> ByteAnded(Restored(word, k, skip), k, word[8 * k..8 * k + 8]) == Restored(word, k + 1, skip)
    ensures k == skip ==> Restored(word, k, skip) == Restored(word, k + 1, skip)
  {
    if k != skip {
      var written, goal := ByteAnded(Restored(word, k, skip), k, word[8 * k..8 * k + 8]), Restored(word, k + 1, skip);
      forall j | 0 <= j < 64
        ensures written[j] == goal[j]
      {
        if j / 8 == k {
          assert j == 8 * k + j % 8;
        }
      }
    }
  }

  /** flashc_read_gp_fuse_byte. */
  function ReadByte(c: FlashController, index: nat): nat
    requires |c.fuses| == 64
    reads c
  {
    Shr(ReadAll(c), 8 * (index % 8)) % 256
  }

  lemma ReadByteBits(c: FlashController, index: nat)
    requires |c.fuses| == 64
    ensures var k := index % 8; BitsOf(ReadByte(c, index), 8) == c.fuses[8 * k..8 * k + 8]
  {
    ReadAllIsFuses(c);
    ByteBits(c.fuses, index % 8);
  }

  /**
   flashc_erase_gp_fuse_byte: erases all fuses, then writes the other bytes back. An index above 7 matches no
   byte, so everything is written back, and the check finds the byte that the masked index designates as it was.
   */
  method EraseByte(c: FlashController, index: nat, check: bool) returns (erased: bool)
    requires c.Valid()
    modifies c
    ensures c.Valid() && old(c.log) < c.log && c.errorStatus == AllErrors(c.log[|old(c.log)|..])
    ensures c.cells == old(c.cells) && c.burns == old(c.burns)
    ensures c.errorStatus == NO_ERRORS ==> c.fuses == Restored(old(c.fuses), 8, index)
    ensures c.errorStatus == NO_ERRORS ==>
      (erased <==> !check || index < 8 || old(c.fuses)[8 * (index % 8)..8 * (index % 8) + 8] == Trues(8))
  {
    hide Restored, ByteAnded, AllErrors, BitsOf, FromBits, Shr, ReadAll;
    ReadAllIsFuses(c);
    var value := ReadAll(c);
    ghost var word := c.fuses;
    var _ := EraseAll(c, false);
    var error := c.errorStatus;
    var current := 0;
    RestoreNone(word, index);
    ShrNone(FromBits(word));
    while current < 8
      invariant 0 <= current <= 8 && c.Valid() && value == Shr(FromBits(word), 8 * current)
      invariant old(c.log) < c.log && error == AllErrors(c.log[|old(c.log)|..])
      invariant c.cells == old(c.cells) && c.burns == old(c.burns)
      invariant error == NO_ERRORS ==> c.fuses == Restored(word, current, index)
    {
      ghost var log1 := c.log;
      RestoreNext(word, current, index);
      ByteBits(word, current);
      ShrByte(FromBits(word), 8 * current);
      if current != index {
        WriteByte(c, current, value % 256);
        error := error.Or(c.errorStatus);
        ErrorsAddUp(|old(c.log)|, log1, c.log);
      }
      current, value := current + 1, value / 256;
    }
    c.errorStatus := error;
    if error == NO_ERRORS {
      ErasedByteRead(c, word, index);
    }
    erased := if check then ReadByte(c, index) == 0xFF else true;
  }

  lemma ErasedByteRead(c: FlashController, word: seq<bool>, index: nat)
    requires |c.fuses| == 64 == |word| && c.fuses == Restored(word, 8, index)
    ensures var k := index % 8; ReadByte(c, index) == 0xFF <==> index < 8 || word[8 * k..8 * k + 8] == Trues(8)
  {
    hide FromBits, BitsOf;
    var k := index % 8;
    ReadByteBits(c, index);
    AllOnes8();
    FromBitsOf(ReadByte(c, index), 8);
    Pow2Plus8(0);
    TruesValue(8);
    if index < 8 {
      assert c.fuses[8 * k..8 * k + 8] == Trues(8);
    } else {
      assert c.fuses == word;
    }
  }

  lemma RestoreNone(word: seq<bool>, skip: nat)
    requires |word| == 64
    ensures Restored(word, 0, skip) == Trues(64)
  {
  }

  lemma ShrNone(v: nat)
    ensures Shr(v, 0) == v
  {
  }

  lemma ShrByte(v: nat, n: nat)
    ensures Shr(v, n) / 256 == Shr(v, n + 8)
  {
    var x := Shr(v, n);
    ShrTwice(v, n, 8);
    ShrTwice(x, 2, 6);
    ShrTwice(x / 4, 2, 4);
    ShrTwice(x / 16, 2, 2);
    ShrBy2(x);
    ShrBy2(x / 4);
    ShrBy2(x / 16);
    ShrBy2(x / 64);
  }

  lemma ShrBy2(x: nat)
    ensures Shr(x, 2) == x / 4
  {
    assert Shr(x, 2) == Shr(x / 2, 1) == Shr(x / 2 / 2, 0);
  }

  /** flashc_write_all_gp_fuses: over erased fuses, the fuses become the value. */
  method WriteAll(c: FlashController, value0: nat)
    requires c.Valid() && value0 < Pow2(64)
    modifies c
    ensures c.Valid() && old(c.log) < c.log && c.errorStatus == AllErrors(c.log[|old(c.log)|..])
    ensures c.cells == old(c.cells) && c.burns == old(c.burns)
    ensures c.errorStatus == NO_ERRORS ==> c.fuses == WordAnded(old(c.fuses), BitsOf(value0, 64), 8)
  {
    hide WordAnded, ByteAnded, AllErrors, BitsOf, FromBits, Shr, Pow2;
    var error, value, index := NO_ERRORS, value0, 0;
    ghost var word := BitsOf(value0, 64);
    FromBitsOf(value0, 64);
    ModUnique(value0, Pow2(64), 0, value0);
    ShrNone(value0);
    NoCommands(c.log);
    AndedNone(c.fuses, word);
    while index < 8
      invariant 0 <= index <= 8 && c.Valid() && value == Shr(value0, 8 * index)
      invariant old(c.log) <= c.log && error == AllErrors(c.log[|old(c.log)|..]) && (index > 0 ==> old(c.log) < c.log)
      invariant c.cells == old(c.cells) && c.burns == old(c.burns)
      invariant error == NO_ERRORS ==> c.fuses == WordAnded(old(c.fuses), word, index)
    {
      ghost var log1 := c.log;
      ByteBits(word, index);
      AndedNext(old(c.fuses), word, index);
      ShrByte(value0, 8 * index);
      WriteByte(c, index, value % 256);
      error := error.Or(c.errorStatus);
      ErrorsAddUp(|old(c.log)|, log1, c.log);
      index, value := index + 1, value / 256;
    }
    c.errorStatus := error;
  }

  /** The fuses with their bytes below k ANDed with those of word. */
  function WordAnded(fuses: seq<bool>, word: seq<bool>, k: nat): seq<bool>
    requires |fuses| == 64 == |word|
  {
    seq(64, j requires 0 <= j < 64 => fuses[j] && (j / 8 < k ==> word[j]))
  }

  lemma AndedNone(fuses: seq<bool>, word: seq<bool>)
    requires |fuses| == 64 == |word|
    ensures WordAnded(fuses, word, 0) == fuses
  {
  }

  lemma AndedNext(fuses: seq<bool>, word: seq<bool>, k: nat)
    requires |fuses| == 64 == |word| && k < 8
    ensures ByteAnded(WordAnded(fuses, word, k), k, word[8 * k..8 * k + 8]) == WordAnded(fuses, word, k + 1)
  {
    var written, goal := ByteAnded(WordAnded(fuses, word, k), k, word[8 * k..8 * k + 8]), WordAnded(fuses, word, k + 1);
    forall j | 0 <= j < 64
      ensures written[j] == goal[j]
    {
      if j / 8 == k {
        assert j == 8 * k + j % 8;
      }
    }
  }

  /** What setting byte index to bits leaves: for an index above 7, the old byte is ANDed instead of replaced. */
  function ByteSet(fuses: seq<bool>, index: nat, bits: seq<bool>): (after: seq<bool>)
    requires |fuses| == 64 && |bits| == 8
    ensures |after| == 64
  {
    seq(64, j requires 0 <= j < 64 => if j / 8 == index % 8 then bits[j % 8] && (index < 8 || fuses[j]) else fuses[j])
  }

  /** flashc_set_gp_fuse_byte, in all three branches. */
  method SetByte(c: FlashController, index: nat, value: nat)
    requires c.Valid() && value < 256
    modifies c
    ensures c.Valid() && old(c.log) < c.log && c.errorStatus == AllErrors(c.log[|old(c.log)|..])
    ensures c.cells == old(c.cells) && c.burns == old(c.burns)
    ensures c.errorStatus == NO_ERRORS ==> c.fuses == ByteSet(old(c.fuses), index, BitsOf(value, 8))
  {
    hide Restored, ByteAnded, ByteSet, AllErrors, BitsOf;
    ByteSetParts(c.fuses, index, value);
    match value {
      case 0xFF =>
        var _ := EraseByte(c, index, false);
      case 0 =>
        WriteByte(c, index, 0);
      case _ =>
        var _ := EraseByte(c, index, false);
        ghost var log1 := c.log;
        var error := c.errorStatus;
        WriteByte(c, index, value);
        c.errorStatus := c.errorStatus.Or(error);
        ErrorsAddUp(|old(c.log)|, log1, c.log);
    }
  }

  lemma ByteSetParts(fuses: seq<bool>, index: nat, value: nat)
    requires |fuses| == 64 && value < 256
    ensures value == 0xFF ==> Restored(fuses, 8, index) == ByteSet(fuses, index, BitsOf(value, 8))
    ensures value == 0 ==> ByteAnded(fuses, index % 8, BitsOf(value, 8)) == ByteSet(fuses, index, BitsOf(value, 8))
    ensures ByteAnded(Restored(fuses, 8, index), index % 8, BitsOf(value, 8)) == ByteSet(fuses, index, BitsOf(value, 8))
  {
    if value == 0xFF {
      AllOnes8();
    } else if value == 0 {
      AllZeros8();
    }
  }

  lemma AllOnes8()
    ensures BitsOf(0xFF, 8) == Trues(8)
  {
    TruesValue(8);
    Pow2Plus8(0);
    BitsOfFromBits(Trues(8));
  }

  lemma AllZeros8()
    ensures forall i :: 0 <= i < 8 ==> !BitsOf(0, 8)[i]
  {
    forall i | 0 <= i < 8
      ensures !BitsOf(0, 8)[i]
    {
      BitsOfBit(0, 8, i);
      ShrZero(i);
    }
  }

  lemma {:induction false} ShrZero(n: nat)
    ensures Shr(0, n) == 0
  {
    if n > 0 {
      ShrZero(n - 1);
    }
  }

  /**
   The byte becomes the value exactly when the index is in 0..7, or no bit of the value has to be set; either
   way the other seven bytes stay as they were.
   */
  lemma ByteAssignment(fuses: seq<bool>, index: nat, bits: seq<bool>)
    requires |fuses| == 64 && |bits| == 8
    ensures var k := index % 8; var after := ByteSet(fuses, index, bits);
      && (after[8 * k..8 * k + 8] == bits <==> index < 8 || forall i :: 0 <= i < 8 && bits[i] ==> fuses[8 * k + i])
      && forall j :: 0 <= j < 64 && j / 8 != k ==> after[j] == fuses[j]
  {
    var k := index % 8;
    var after := ByteSet(fuses, index, bits);
    forall i | 0 <= i < 8
      ensures after[8 * k + i] == (bits[i] && (index < 8 || fuses[8 * k + i]))
    {
      assert (8 * k + i) / 8 == k && (8 * k + i) % 8 == i;
    }
    if after[8 * k..8 * k + 8] == bits {
      forall i | 0 <= i < 8
        ensures after[8 * k + i] == bits[i]
      {
        assert after[8 * k..8 * k + 8][i] == bits[i];
      }
    }
  }

  /** An index above 7 sets nothing: over cleared fuses, byte 8 stays clear. */
  lemma LargeIndexFails()
    ensures var fuses := seq(64, _ => false); ByteSet(fuses, 8, BitsOf(1, 8)) == fuses
  {
  }

  /** flashc_set_all_gp_fuses yields exactly the value. */
  method SetAll(c: FlashController, value: nat)
    requires c.Valid() && value < Pow2(64)
    modifies c
    ensures c.Valid() && old(c.log) < c.log && c.errorStatus == AllErrors(c.log[|old(c.log)|..])
    ensures c.cells == old(c.cells) && c.burns == old(c.burns)
    ensures c.errorStatus == NO_ERRORS ==> ReadAll(c) == value
  {
    hide WordAnded, AllErrors, BitsOf, FromBits, Pow2;
    ErasedThenWritten(c.fuses, value);
    if value == Pow2(64) - 1 {
      var _ := EraseAll(c, false);
    } else if value == 0 {
      WriteAll(c, 0);
    } else {
      var _ := EraseAll(c, false);
      ghost var log1 := c.log;
      var error := c.errorStatus;
      WriteAll(c, value);
      c.errorStatus := c.errorStatus.Or(error);
      ErrorsAddUp(|old(c.log)|, log1, c.log);
    }
    ReadAllIsFuses(c);
  }

  lemma ErasedThenWritten(fuses: seq<bool>, value: nat)
    requires |fuses| == 64 && value < Pow2(64)
    ensures FromBits(Trues(64)) == Pow2(64) - 1
    ensures FromBits(WordAnded(Trues(64), BitsOf(value, 64), 8)) == value
    ensures value == 0 ==> FromBits(WordAnded(fuses, BitsOf(value, 64), 8)) == value
  {
    hide Pow2, FromBits;
    var bits := BitsOf(value, 64);
    TruesValue(64);
    FromBitsOf(value, 64);
    ModUnique(value, Pow2(64), 0, value);
    assert WordAnded(Trues(64), bits, 8) == bits;
    if value == 0 {
      forall i | 0 <= i < 64
        ensures !bits[i]
      {
        BitsOfBit(0, 64, i);
        ShrZero(i);
      }
      assert WordAnded(fuses, bits, 8) == bits;
    }
  }
}
