/**
The bootloader protected size (flashc.c, lines 352 to 374): a page count rounded up to a power of two, kept inverted
in fuses.
*/
module Bootloader {
  import opened Arith
  import opened Bits
  import opened Common
  import opened FlashHardware
  import opened FlashAccess
  import opened GpFuses
  import opened FuseBytes

  /** The BOOTPROT bit-field: where it is and how wide. */
  datatype Field = Field(offset: nat, width: nat) {
    ghost predicate Valid() {
      0 < width < 64 && offset + width <= 64
    }

    /** The largest value of the field. */
    function Top(): nat { Pow2(width) - 1 }
  }

  /** Leading zeros of a 32-bit number. */
  function Clz(x: nat): int {
    32 - BitLength(x)
  }

  /** A page shifted left by k. */
  function Doubled(page: nat, k: nat): nat {
    page * Pow2(k)
  }

  /** The size a field value stands for. */
  function SizeOf(field: Field, page: nat, value: nat): nat {
    if value < field.Top() then Doubled(page, field.Top() - value) else 0
  }

  /** flashc_get_bootloader_protected_size. */
  function GetProtectedSize(c: FlashController, field: Field, page: nat): nat
    requires |c.fuses| == 64
    reads c
  {
    SizeOf(field, page, ReadBitfieldOf(ReadAll(c), field.offset, field.width))
  }

  /** A 32-bit number as the min and max macros take it: as a signed one. */
  function Signed(x: nat): int {
    if x < 0x8000_0000 then x else x - 0x1_0000_0000
  }

  /** The value lines 365 to 372 put into the field for a requested size. */
  function FieldValue(field: Field, page: nat, size: nat): int
    requires 0 < page
  {
    field.Top() - if size != 0
      then 32 - Clz((Min(Max(Signed(size), page * 2), Doubled(page, field.Top())) + page - 1) / page * 2 - 1) - 1
      else 0
  }

  /** k page-doublings are enough for n bytes, and k - 1 are not. */
  ghost predicate Rounds(page: nat, n: nat, k: nat) {
    0 < k && Doubled(page, k - 1) < n <= Doubled(page, k)
  }

  /** 31 - clz(2m - 1) is the logarithm of m, rounded up. */
  lemma CeilLog(m: nat)
    requires 2 <= m
    ensures var k := 32 - Clz(m * 2 - 1) - 1;
      0 < k && Pow2(k - 1) < m <= Pow2(k)
  {
    var x := m * 2 - 1;
    BitLengthBounds(x);
    var k := BitLength(x) - 1;
    assert x >= 3 && BitLength(x) == 2 + BitLength(x / 2 / 2) by {
      assert BitLength(x) == 1 + BitLength(x / 2) && x / 2 >= 1;
    }
    assert k >= 1;
    assert Pow2(k) == 2 * Pow2(k - 1) && Pow2(k + 1) == 2 * Pow2(k);
  }

  /** Pages of n bytes, rounded up: m pages exceed q pages exactly when n bytes do. */
  lemma CeilDiv(n: nat, page: nat, q: nat)
    requires 0 < page
    ensures (n + page - 1) / page > q <==> n > page * q
  {
    var a := n + page - 1;
    var m, r := a / page, a % page;
    assert a == page * m + r && 0 <= r < page;
    CeilDivOf(n, page, m, r, q);
  }

  lemma CeilDivOf(n: nat, page: nat, m: nat, r: nat, q: nat)
    requires n + page - 1 == page * m + r && r < page
    ensures m > q <==> n > page * q
  {
    ScaledOrder(page, m, q);
  }

  lemma RoundedUp(page: nat, n: nat)
    requires 0 < page && page * 2 <= n
    ensures Rounds(page, n, 32 - Clz((n + page - 1) / page * 2 - 1) - 1)
  {
    CeilDiv(n, page, 1);
    var m := (n + page - 1) / page;
    CeilLog(m);
    var k := 32 - Clz(m * 2 - 1) - 1;
    CeilDiv(n, page, Pow2(k - 1));
    CeilDiv(n, page, Pow2(k));
  }

  /** Page doublings grow with their exponent. */
  lemma SizesGrow(page: nat, j: nat, k: nat)
    requires j <= k
    ensures Doubled(page, j) <= Doubled(page, k)
  {
    Pow2Monotonic(j, k);
    ScaledOrder(page, Pow2(j), Pow2(k));
  }

  /** What a request must yield: 0 for 0; the least supported size that holds it; or the largest supported size. */
  ghost predicate LeastSupported(field: Field, page: nat, size: nat, result: nat) {
    if size == 0 then result == 0
    else
      && (exists k :: 1 <= k <= field.Top() && result == Doubled(page, k))
      && (size <= Doubled(page, field.Top()) ==>
            size <= result && forall k :: 1 <= k <= field.Top() && size <= Doubled(page, k) ==>
              result <= Doubled(page, k))
      && (size > Doubled(page, field.Top()) ==> result == Doubled(page, field.Top()))
  }

  /** What a request yields; one of 2^31 or more is taken for a negative number, and yields two pages. */
  lemma RequestRounds(field: Field, page: nat, size: nat)
    requires field.Valid() && 0 < page && size < 0x1_0000_0000
    ensures 0 <= FieldValue(field, page, size) <= field.Top()
    ensures var result := SizeOf(field, page, FieldValue(field, page, size));
      if size < 0x8000_0000 then LeastSupported(field, page, size, result) else result == page * 2
  {
    hide Pow2, Clz, LeastSupported, Doubled;
    TopIsPositive(field);
    if size == 0 {
      NoRequest(field, page);
    } else {
      var request := if size < 0x8000_0000 then size else page * 2;
      var n := Min(Max(Signed(size), page * 2), Doubled(page, field.Top()));
      assert n == Min(Max(request, page * 2), Doubled(page, field.Top()));
      var k := RoundedField(field, page, request, n);
      if size >= 0x8000_0000 {
        TwoPagesAreLeast(field, page, Doubled(page, k));
      }
    }
  }

  lemma RoundedField(field: Field, page: nat, request: nat, n: nat) returns (k: nat)
    requires field.Valid() && 0 < page && 0 < request
    requires n == Min(Max(request, page * 2), Doubled(page, field.Top()))
    ensures k == 32 - Clz((n + page - 1) / page * 2 - 1) - 1
    ensures 0 < k <= field.Top() && LeastSupported(field, page, request, Doubled(page, k))
  {
    hide Pow2, Clz, LeastSupported, Doubled;
    TopIsPositive(field);
    SizesGrow(page, 1, field.Top());
    TwoPages(page);
    RoundedUp(page, n);
    k := 32 - Clz((n + page - 1) / page * 2 - 1) - 1;
    IsLeast(field, page, request, k);
  }

  lemma TopIsPositive(field: Field)
    requires field.Valid()
    ensures field.Top() >= 1
  {
    Pow2Monotonic(1, field.width);
  }

  lemma TwoPages(page: nat)
    ensures Doubled(page, 1) == page * 2
  {
    assert Pow2(1) == 2;
  }

  lemma TwoPagesAreLeast(field: Field, page: nat, result: nat)
    requires 0 < page && field.Valid() && LeastSupported(field, page, page * 2, result)
    ensures result == page * 2
  {
    hide Doubled;
    TopIsPositive(field);
    TwoPages(page);
    SizesGrow(page, 1, field.Top());
  }

  lemma NoRequest(field: Field, page: nat)
    ensures LeastSupported(field, page, 0, 0)
  {
  }

  lemma IsLeast(field: Field, page: nat, size: nat, k: nat)
    requires 0 < page && 0 < size && field.Valid()
    requires Rounds(page, Min(Max(size, page * 2), Doubled(page, field.Top())), k)
    ensures k <= field.Top()
    ensures LeastSupported(field, page, size, Doubled(page, k))
  {
    hide Pow2, Doubled;
    var top, n := field.Top(), Min(Max(size, page * 2), Doubled(page, field.Top()));
    if k > top {
      SizesGrow(page, top, k - 1);
    }
    TopIsPositive(field);
    TwoPages(page);
    SizesGrow(page, 1, top);
    if size > Doubled(page, top) {
      if k < top {
        SizesGrow(page, k, top);
      }
    }
    forall j | 1 <= j <= top && size <= Doubled(page, j)
      ensures Doubled(page, k) <= Doubled(page, j)
    {
      SizesGrow(page, 1, j);
      SizesGrow(page, j, top);
      if j <= k - 1 {
        SizesGrow(page, j, k - 1);
      } else {
        SizesGrow(page, k, j);
      }
    }
  }

  /**
   flashc_set_bootloader_protected_size: without an error it returns, and the fuses keep, the least supported
   size that holds the request; but two pages for a request of 2^31 or more, which max compares as a negative number.
   */
  method SetProtectedSize(c: FlashController, field: Field, page: nat, size: nat) returns (result: nat)
    requires c.Valid() && field.Valid() && 0 < page
    requires size < 0x1_0000_0000 && Doubled(page, field.Top()) + page <= 0x8000_0000
    modifies c
    ensures c.Valid() && old(c.log) <= c.log && c.errorStatus == AllErrors(c.log[|old(c.log)|..])
    ensures c.cells == old(c.cells) && c.burns == old(c.burns) && result == GetProtectedSize(c, field, page)
    ensures c.errorStatus == NO_ERRORS ==>
      if size < 0x8000_0000 then LeastSupported(field, page, size, result) else result == page * 2
    ensures c.errorStatus == NO_ERRORS ==>
      (size == 0 <==> forall j :: field.offset <= j < field.offset + field.width ==> c.fuses[j])
    ensures c.errorStatus == NO_ERRORS ==>
      forall j :: 0 <= j < 64 && !(field.offset <= j < field.offset + field.width) ==> c.fuses[j] == old(c.fuses)[j]
  {
    hide LeastSupported, FieldValue, AllErrors, ReadAll, ReadBitfieldOf, SizeOf, Assigned, BitsOf, Pow2, FromBits;
    RequestRounds(field, page, size);
    ghost var fuses0 := c.fuses;
    var value := FieldValue(field, page, size);
    SetBitfield(c, field.offset, field.width, value);
    ReadAllIsFuses(c);
    FieldReadBack(fuses0, field, value);
    result := GetProtectedSize(c, field, page);
    UnprotectedIffErased(c, field, page);
    ZeroOnlyForZero(field, page, size, result);
  }

  lemma ZeroOnlyForZero(field: Field, page: nat, size: nat, result: nat)
    requires 0 < page
    ensures (if size < 0x8000_0000 then LeastSupported(field, page, size, result) else result == page * 2) ==>
      (result == 0 <==> size == 0)
  {
    forall k: nat
      ensures Doubled(page, k) > 0
    {
      ScaledOrder(page, Pow2(k), 0);
    }
  }

  lemma OutsideField(offset: nat, width: nat, j: nat)
    requires offset + width <= 64 && 0 < width && j < 64 && !(offset <= j < offset + width)
    ensures Offset(offset, j) >= width
  {
  }

  lemma FieldReadBack(fuses: seq<bool>, field: Field, value: nat)
    requires |fuses| == 64 && field.Valid() && value <= field.Top()
    ensures var after := Assigned(fuses, field.offset, BitsOf(value, field.width));
      && ReadBitfieldOf(FromBits(after), field.offset, field.width) == value
      && forall j :: 0 <= j < 64 && !(field.offset <= j < field.offset + field.width) ==> after[j] == fuses[j]
  {
    hide Pow2, FromBits, Assigned, BitsOf, ReadBitfieldOf;
    forall j | 0 <= j < 64 && !(field.offset <= j < field.offset + field.width)
      ensures Offset(field.offset, j) >= field.width
    {
      OutsideField(field.offset, field.width, j);
    }
    BitfieldRoundTrip(fuses, field.offset, field.width, value);
    ModUnique(value, Pow2(field.width), 0, value);
  }

  // ----- What the fuses of the field mean

  /** The fuses of the field, the least significant first. An erased fuse is true. */
  function FieldFuses(c: FlashController, field: Field): seq<bool>
    requires |c.fuses| == 64 && field.offset + field.width <= 64
    reads c
  {
    c.fuses[field.offset..field.offset + field.width]
  }

  /** The number the fuses of the field form. */
  function FieldNumber(c: FlashController, field: Field): nat
    requires |c.fuses| == 64 && field.offset + field.width <= 64
    reads c
  {
    FromBits(FieldFuses(c, field))
  }

  /** The getter reads the number inverted: pages are doubled as often as the number is below all ones. */
  lemma SizeOfNumber(c: FlashController, field: Field, page: nat)
    requires |c.fuses| == 64 && field.Valid()
    ensures FieldNumber(c, field) <= Pow2(field.width) - 1
    ensures var below := Pow2(field.width) - 1 - FieldNumber(c, field);
      GetProtectedSize(c, field, page) == if below == 0 then 0 else page * Pow2(below)
  {
    hide FromBits, Pow2;
    ReadAllIsFuses(c);
    ReadBitfieldBits(c.fuses, field.offset, field.width);
    FromBitsBound(FieldFuses(c, field));
  }

  /** Nothing is protected exactly when every fuse of the field is erased. */
  lemma UnprotectedIffErased(c: FlashController, field: Field, page: nat)
    requires |c.fuses| == 64 && field.Valid() && 0 < page
    ensures GetProtectedSize(c, field, page) == 0 <==>
            forall j :: field.offset <= j < field.offset + field.width ==> c.fuses[j]
  {
    hide FromBits, Pow2;
    SizeOfNumber(c, field, page);
    var bits := FieldFuses(c, field);
    TruesOnly(bits);
    var below := Pow2(field.width) - 1 - FieldNumber(c, field);
    ScaledOrder(page, Pow2(below), 0);
    if bits == Trues(field.width) {
      forall j | field.offset <= j < field.offset + field.width
        ensures c.fuses[j]
      {
        assert bits[j - field.offset];
      }
    }
    assert (forall j :: field.offset <= j < field.offset + field.width ==> c.fuses[j]) ==> bits == Trues(field.width);
  }

  /** One below all ones protects two pages, and each further step down doubles the size. */
  lemma SizeDoubles(c: FlashController, d: FlashController, field: Field, page: nat)
    requires |c.fuses| == 64 && |d.fuses| == 64 && field.Valid() && 0 < page
    ensures FieldNumber(c, field) == Pow2(field.width) - 2 ==> GetProtectedSize(c, field, page) == 2 * page
    ensures GetProtectedSize(c, field, page) != 0 && FieldNumber(d, field) + 1 == FieldNumber(c, field) ==>
      GetProtectedSize(d, field, page) == 2 * GetProtectedSize(c, field, page)
  {
    hide FieldNumber, GetProtectedSize;
    SizeOfNumber(c, field, page);
    SizeOfNumber(d, field, page);
    var below := Pow2(field.width) - 1 - FieldNumber(c, field);
    assert page * Pow2(below + 1) == 2 * (page * Pow2(below));
    assert Pow2(1) == 2;
  }
}
