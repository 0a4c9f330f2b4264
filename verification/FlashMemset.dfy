/** flashc_memset64 and its narrow wrappers: fill any range of flash addresses with a repeated big-endian pattern. */
module FlashMemset {
  import opened Arith
  import opened BigEndian
  import opened Common
  import opened FlashHardware
  import opened FlashAccess
  import opened FlashPages
  import opened FlashMemcpy

  /** What the double-word at any aligned address holds where the pattern covers it. */
  ghost predicate IsSource(source: seq<Byte>, src: nat, dst: int) {
    |source| == 8 && forall i :: 0 <= i < 8 ==> source[i] == ByteAt(src, 8, (i - dst) % 8)
  }

  /** The index in a double-word of pattern byte 7 - m; it is its own inverse. */
  function Lane(dst: int, m: int): (i: int)
    ensures 0 <= i < 8
    ensures 0 <= m < 8 ==> (dst - 1 - i) % 8 == m
  {
    (dst - 1 - m) % 8
  }

  /** Lines 730 to 735: lays the pattern out by absolute alignment; stops once only zero bytes are left. */
  method BuildSource(dst: int, src: nat) returns (source: seq<Byte>)
    requires src < Pow256(8)
    ensures IsSource(source, src, dst)
  {
    hide Lane, LowByte;
    FirstLane(dst);
    source := [0, 0, 0, 0, 0, 0, 0, 0];
    ZeroByte();
    var i, rest := (dst % 8 - 1) % 8, src;
    ghost var n := 0;
    ShiftedAway(src, 8);
    while rest != 0
      invariant 0 <= n <= 8 && i == Lane(dst, n) && rest == Shifted(src, n) && |source| == 8
      invariant forall k :: 0 <= k < 8 ==>
        source[k] == if Lane(dst, k) < n then LowByte(Shifted(src, Lane(dst, k))) else 0
      decreases rest
    {
      NextLane(dst, n);
      ShiftedTwice(src, n, 1);
      source := source[i := LowByte(rest)];
      i, rest, n := (i - 1) % 8, rest / 256, n + 1;
    }
    forall k | 0 <= k < 8
      ensures source[k] == ByteAt(src, 8, (k - dst) % 8)
    {
      LaneIsByte(dst, k);
      var m := Lane(dst, k);
      if n <= m {
        ShiftedTwice(src, n, m - n);
        ShiftedZero(m - n);
      }
    }
  }

  lemma ZeroByte()
    ensures LowByte(0) == 0
  {
  }

  lemma FirstLane(dst: int)
    ensures Lane(dst, 0) == (dst % 8 - 1) % 8
  {
  }

  lemma NextLane(dst: int, n: int)
    requires 0 <= n < 8
    ensures Lane(dst, n + 1) == (Lane(dst, n) - 1) % 8
    ensures forall k :: 0 <= k < 8 ==> (k == Lane(dst, n) <==> Lane(dst, k) == n)
  {
  }

  lemma LaneIsByte(dst: int, k: int)
    requires 0 <= k < 8
    ensures Lane(dst, k) == 7 - (k - dst) % 8
  {
  }

  lemma {:induction false} ShiftedZero(n: nat)
    ensures Shifted(0, n) == 0
  {
    if n > 0 {
      ShiftedZero(n - 1);
    }
  }

  /** Lines 779 to 816: from the start of the page to the first double-word boundary after the destination. */
  method SetStart(c: FlashController, source: seq<Byte>, dest0: int, end: int, dword: array<Byte>,
                  base: int, ghost image: seq<Byte>, ghost clean: bool)
    returns (dest: int)
    requires c.Valid() && c.g.IsPage(base) && Nested(base, base + c.g.page, dest0, end) && dest0 < end
    requires Filled(c, image, base, base, clean) && dword.Length == 8 && |source| == 8 && base <= dest0
    requires Patterned(c.g, c.cells, image, base, source, dest0, end)
    modifies c`buffer, c`pageNumber, c`stores, dword
    ensures c.Valid() && dest % 8 == 0 && base <= dest <= AlignDown(end, 8) && dest <= base + c.g.page
    ensures dest < AlignDown(end, 8) ==> dest0 <= dest
    ensures Filled(c, image, base, dest, clean)
    ensures end < base + c.g.page && end % 8 != 0 ==> DwordHolds(dword, image, base, AlignDown(end, 8), end % 8)
  {
    hide Patterned, AlignDown, DwordHolds, Filled, Geometry.Valid, Geometry.IsPage;
    dest := dest0;
    SetDword(dword, source);
    PatternAround(c.g, c.cells, image, base, source, dest0, end);
    if dest % 8 == 0 {
      AlignedDown(dest);
      if end < base + c.g.page {
        PatternAtEnd(c.g, c.cells, image, base, source, dest0, end, dword);
      }
    }
    if dest != base {
      var slot := AlignDown(dest, 8);
      FillFromFlash(c, base, slot, image, base, clean);
      if dest % 8 != 0 {
        dest := SetFirstDword(c, source, dest, slot, end, dword, image, base, clean);
      }
    }
  }

  /** Lines 797 to 815: the double-word of an unaligned destination; kept in the buffer if it is the last one. */
  method SetFirstDword(c: FlashController, source: seq<Byte>, dest0: int, slot: int, end: int, dword: array<Byte>,
                       ghost image: seq<Byte>, ghost base: int, ghost clean: bool)
    returns (dest: int)
    requires c.Valid() && c.g.IsPage(base) && Nested(base, base + c.g.page, dest0, end) && dest0 < end
    requires dest0 % 8 != 0 && slot == AlignDown(dest0, 8)
    requires Filled(c, image, base, slot, clean) && dword.Length == 8 == |source| && base <= dest0 &&
             dword[..] == source
    requires Patterned(c.g, c.cells, image, base, source, dest0, end)
    modifies c`buffer, c`pageNumber, c`stores, dword
    ensures c.Valid() && dest % 8 == 0 && base <= dest <= AlignDown(end, 8) && dest <= base + c.g.page
    ensures dest < AlignDown(end, 8) ==> dest0 <= dest
    ensures Filled(c, image, base, dest, clean)
    ensures end < base + c.g.page && end % 8 != 0 ==> DwordHolds(dword, image, base, AlignDown(end, 8), end % 8)
  {
    hide Patterned, AlignDown, DwordHolds, Filled, Geometry.Valid, Geometry.IsPage;
    PatchPattern(c, dest0, slot, end, dword, image, base, source);
    SameOrNextDword(dest0, end);
    dest := slot;
    if dest < AlignDown(end, 8) {
      DwordIsSlice(dword, image, base, slot);
      StoreNext(c, dest, dword[..], image, base, clean);
      dest := dest + 8;
      SetDword(dword, source);
      if end < base + c.g.page {
        PatternAtEnd(c.g, c.cells, image, base, source, dest0, end, dword);
      }
    }
  }

  /** Around the covered range the image is flash; inside it, aligned double-words are the pattern. */
  lemma PatternAround(g: Geometry, cells: Cells, image: seq<Byte>, base: int, source: seq<Byte>, lo: int, hi: int)
    requires |source| == 8 && Patterned(g, cells, image, base, source, lo, hi) && base <= lo
    ensures |image| == g.page
    ensures forall a :: base <= a < base + g.page && (a < lo || hi <= a) ==> a in cells && image[a - base] == cells[a]
  {
  }

  /** A double-word buffer holding the pattern holds the image of the last double-word, below the end. */
  lemma PatternAtEnd(g: Geometry, cells: Cells, image: seq<Byte>, base: int, source: seq<Byte>, lo: int, hi: int,
                     dword: array<Byte>)
    requires |source| == 8 && Patterned(g, cells, image, base, source, lo, hi)
    requires dword.Length == 8 && dword[..] == source
    requires base <= lo <= AlignDown(hi, 8) && AlignDown(hi, 8) + 8 <= base + g.page
    ensures DwordHolds(dword, image, base, AlignDown(hi, 8), hi % 8)
  {
    hide Mod8;
    forall i | 0 <= i < hi % 8
      ensures dword[i] == image[AlignDown(hi, 8) - base + i]
    {
      assert dword[i] == source[i];
      Mod8OfSlot(AlignDown(hi, 8), i);
      assert base + (AlignDown(hi, 8) - base + i) == AlignDown(hi, 8) + i;
    }
  }

  method SetDword(dword: array<Byte>, v: seq<Byte>)
    requires dword.Length == 8 == |v|
    modifies dword
    ensures dword[..] == v
  {
    forall i | 0 <= i < 8 {
      dword[i] := v[i];
    }
  }

  function Mod8(a: int): (r: int)
    ensures 0 <= r < 8
  {
    a % 8
  }

  lemma Mod8OfSlot(slot: int, k: int)
    requires slot % 8 == 0 && 0 <= k < 8
    ensures Mod8(slot + k) == k
  {
  }

  /** The image of a page that the pattern covers from lo to hi. */
  ghost predicate Patterned(g: Geometry, cells: Cells, image: seq<Byte>, base: int, source: seq<Byte>, lo: int, hi: int)
    requires |source| == 8
  {
    && |image| == g.page
    && (forall a :: base <= a < base + g.page ==> a in cells)
    && forall i :: 0 <= i < |image| ==>
         image[i] == if lo <= base + i < hi then source[Mod8(base + i)] else cells[base + i]
  }

  /** Lines 802 and 803: the double-word at slot holds flash data below dest, and the pattern from there on. */
  method PatchPattern(c: FlashController, dest: int, slot: int, end: int, dword: array<Byte>,
                      ghost image: seq<Byte>, ghost base: int, ghost source: seq<Byte>)
    requires dword.Length == 8 == |source| && slot == AlignDown(dest, 8) && base <= slot &&
             slot + 8 <= base + c.g.page && base <= dest
    requires Patterned(c.g, c.cells, image, base, source, dest, end) && dest < end && dword[..] == source
    modifies dword
    ensures DwordHolds(dword, image, base, slot, if end < slot + 8 then end - slot else 8)
  {
    PatternAround(c.g, c.cells, image, base, source, dest, end);
    CoveredPart(c.g, c.cells, image, base, source, dest, end, slot);
    hide Patterned, AlignDown, Mod8;
    var tmp, i := slot, 0;
    while i < dest % 8
      invariant 0 <= i <= dest % 8 && tmp == slot + i
      invariant DwordHolds(dword, image, base, slot, i)
      invariant forall k :: i <= k < 8 ==> dword[k] == source[k]
    {
      dword[i] := c.cells[tmp];
      tmp, i := tmp + 1, i + 1;
    }
  }

  lemma CoveredPart(g: Geometry, cells: Cells, image: seq<Byte>, base: int, source: seq<Byte>, lo: int, hi: int,
                    slot: int)
    requires |source| == 8 && Patterned(g, cells, image, base, source, lo, hi)
    requires slot == AlignDown(lo, 8) && base <= slot && slot + 8 <= base + g.page
    ensures forall k :: lo % 8 <= k < 8 && slot + k < hi ==> source[k] == image[slot - base + k]
  {
    hide Mod8;
    forall k | lo % 8 <= k < 8 && slot + k < hi
      ensures source[k] == image[slot - base + k]
    {
      Mod8OfSlot(slot, k);
      assert base + (slot - base + k) == slot + k;
    }
  }

  /** Lines 771 to 846: fills the page buffer with the page of the destination. */
  method SetPageBuffer(c: FlashController, source: seq<Byte>, dest0: int, end: int, dword: array<Byte>,
                       base: int, incomplete: bool, ghost image: seq<Byte>, ghost clean: bool)
    returns (dest: int)
    requires c.Valid() && c.g.IsPage(base) && Nested(base, base + c.g.page, dest0, end) && dest0 < end && base <= dest0
    requires Filled(c, image, base, base, clean) && dword.Length == 8 && |source| == 8
    requires Patterned(c.g, c.cells, image, base, source, dest0, end)
    requires incomplete <==> end < base + c.g.page
    modifies c`buffer, c`pageNumber, c`stores, dword
    ensures c.Valid() && Filled(c, image, base, base + c.g.page, clean)
    ensures if end < base + c.g.page then end <= dest <= base + c.g.page else dest == base + c.g.page
  {
    hide Patterned, DwordHolds, Filled, Geometry.Valid, Geometry.IsPage;
    PatternAround(c.g, c.cells, image, base, source, dest0, end);
    var end64, top := AlignDown(end, 8), base + c.g.page;
    var sourceEnd := if end64 < top then end64 else top;
    dest := SetStart(c, source, dest0, end, dword, base, image, clean);
    dest := SetDwords(c, source, dest, sourceEnd, dest0, end, image, base, clean);
    if incomplete {
      // The double-word buffer already holds the pattern, so nothing is read from a source.
      dest := FillEnd(c, [], dest, 0, end, true, dword, image, base, clean);
    }
  }

  /** Lines 819 and 820: whole double-words of the pattern. */
  method SetDwords(c: FlashController, source: seq<Byte>, start: int, stop: int, ghost lo: int, ghost hi: int,
                   ghost image: seq<Byte>, ghost base: int, ghost clean: bool)
    returns (dest: int)
    requires c.Valid() && c.g.IsPage(base) && Filled(c, image, base, start, clean) && |source| == 8
    requires base <= start <= stop <= base + c.g.page && start % 8 == 0 && stop % 8 == 0
    requires start < stop ==> lo <= start && stop <= hi
    requires Patterned(c.g, c.cells, image, base, source, lo, hi)
    modifies c`buffer, c`pageNumber, c`stores
    ensures c.Valid() && Filled(c, image, base, stop, clean) && dest == stop
  {
    hide Patterned, Geometry.Valid, Geometry.IsPage, Filled;
    dest := start;
    var i := (stop - dest) / 8;
    while i > 0
      invariant 0 <= i && start <= dest && stop == dest + 8 * i
      invariant c.Valid() && Filled(c, image, base, dest, clean)
    {
      WholeDword(c.g, c.cells, image, base, source, lo, hi, dest);
      StoreNext(c, dest, source, image, base, clean);
      dest, i := dest + 8, i - 1;
    }
  }

  lemma WholeDword(g: Geometry, cells: Cells, image: seq<Byte>, base: int, source: seq<Byte>, lo: int, hi: int,
                   slot: int)
    requires |source| == 8 && Patterned(g, cells, image, base, source, lo, hi)
    requires base <= slot && slot + 8 <= base + g.page && lo <= slot && slot + 8 <= hi && slot % 8 == 0
    ensures source == image[slot - base..slot - base + 8]
  {
    hide Mod8;
    forall k | 0 <= k < 8
      ensures source[k] == image[slot - base + k]
    {
      Mod8OfSlot(slot, k);
      assert base + (slot - base + k) == slot + k;
    }
  }

  /** Lines 766 to 875: fills the page buffer with the page of the destination, and commits it. */
  method SetPage(c: FlashController, source: seq<Byte>, dest0: int, end: int, erase: bool, error0: Errors,
                 dword: array<Byte>, ghost base: int, ghost src: nat, ghost dst: int, ghost n: nat, ghost start: nat)
    returns (dest: int, error: Errors, ghost stop: int, ghost image: seq<Byte>)
    requires c.Valid() && c.g.IsPage(base) && base <= dest0 < base + c.g.page && dword.Length == 8
    requires dst <= dest0 < end <= dst + n && IsSource(source, src, dst)
    requires start <= |c.log| && error0 == AllErrors(c.log[start..])
    modifies c, dword
    ensures c.Valid() && c.fuses == old(c.fuses)
    ensures old(c.log) <= c.log && error == AllErrors(c.log[start..])
    ensures IsImage(c.g, old(c.cells), image, base, dst, Pattern(src, 8, n), dest0, end)
    ensures error == NO_ERRORS ==> error0 == NO_ERRORS && c.cells == Programmed(old(c.cells), base, image, erase)
    ensures OutsideUnchanged(c.g, old(c.cells), c.cells, base)
    ensures c.burns == old(c.burns) + [Burn(base, Slots(base, c.g.page / 8))]
    ensures if end < base + c.g.page then end <= stop <= base + c.g.page else stop == base + c.g.page
    ensures dest == if c.g.InArray(base) && c.g.ArrayEnd() <= stop then c.g.user else stop
    ensures dest0 < dest
  {
    PageInFlash(c.g, base);
    DwordsNest(base, base + c.g.page, dest0, end);
    AlignDownUnique(dest0, base, c.g.page);
    image := Image(c.g, c.cells, base, dst, Pattern(src, 8, n), dest0, end);
    ImageIsPatterned(c.g, c.cells, image, base, source, src, dst, n, dest0, end);
    ghost var log0 := c.log;
    ClearPageBuffer(c);
    error := error0.Or(c.errorStatus);
    ErrorsAddUp(start, log0, c.log);
    assert image[..0] + Ones(|image|) == Ones(|image|);
    IncompleteEnd(c.g, base, dest0, end);
    var incomplete := AlignDown(dest0, c.g.page) >= AlignDown(end, c.g.page);
    dest := SetPageBuffer(c, source, dest0, end, dword, AlignDown(dest0, c.g.page), incomplete, image,
                          error == NO_ERRORS);
    stop := dest;
    dest, error := CommitPage(c, dest, erase, error, image, base, start);
  }

  lemma ImageIsPatterned(g: Geometry, cells: Cells, image: seq<Byte>, base: int, source: seq<Byte>, src: nat,
                         dst: int, n: nat, lo: int, hi: int)
    requires IsSource(source, src, dst) && IsImage(g, cells, image, base, dst, Pattern(src, 8, n), lo, hi)
    ensures Patterned(g, cells, image, base, source, lo, hi)
  {
    hide Mod8, ByteAt;
    forall i | 0 <= i < |image|
      ensures image[i] == if lo <= base + i < hi then source[Mod8(base + i)] else cells[base + i]
    {
      Mod8Difference(base + i, dst);
    }
  }

  lemma Mod8Difference(a: int, b: int)
    ensures (Mod8(a) - b) % 8 == (a - b) % 8
  {
  }

  /** flashc_memset64: byte k of a covered range is big-endian byte k mod 8 of src, wherever the range was clipped. */
  method Memset64(c: FlashController, dst: int, src: nat, nbytes: nat, erase: bool) returns (r: int)
    requires c.Valid() && src < 0x1_0000_0000_0000_0000
    modifies c
    ensures c.Valid() && r == dst && c.fuses == old(c.fuses)
    ensures old(c.log) <= c.log && c.errorStatus == AllErrors(c.log[|old(c.log)|..])
    ensures c.errorStatus == NO_ERRORS ==> c.cells == Overlay(old(c.cells), dst, Pattern(src, 8, nbytes), erase)
    ensures c.errorStatus == NO_ERRORS && erase ==> Numbered(c.g, c.cells, dst, nbytes, 8, src)
    // Over a blank destination no erase is needed.
    ensures c.errorStatus == NO_ERRORS && IsBlank(old(c.cells), dst, dst + nbytes) ==>
      c.cells == Overlay(old(c.cells), dst, Pattern(src, 8, nbytes), true)
    ensures old(c.burns) <= c.burns && EachPageOnce(c.g, c.burns[|old(c.burns)|..], dst, nbytes)
    ensures OnlyBurned(c.g, c.burns[|old(c.burns)|..], old(c.cells), c.cells)
  {
    hide Progress, Clipped, IsImage, Programmed, OutsideUnchanged, EachPageOnce, OnlyBurned, Overlay, IsSource,
      IsBlank, Numbered;
    var error := NO_ERRORS;
    PowersOf256();
    var source := BuildSource(dst, src);
    var dest, end := Clip(c.g, dst, nbytes);
    var dword := new Byte[8];
    ghost var data, first := Pattern(src, 8, nbytes), dest;
    ghost var cells0, burns0, start := c.cells, c.burns, |c.log|;
    ghost var done := ProgressStarts(c.g, cells0, burns0, dst, data, erase, dest, end);
    assert c.log[start..] == [];
    while dest < end
      invariant c.Valid() && c.fuses == old(c.fuses) && first <= dest
      invariant Progress(c.g, c.cells, c.burns, cells0, burns0, dst, data, erase, dest, end, done, error)
      invariant old(c.log) <= c.log && error == AllErrors(c.log[start..])
      decreases end - dest
    {
      ghost var cells1, burns1, dest1, error1 := c.cells, c.burns, dest, error;
      ProgressHere(c.g, cells1, burns1, cells0, burns0, dst, data, erase, first, dest, end, done, error);
      ghost var stop, image;
      dest, error, stop, image := SetPage(c, source, dest, end, erase, error, dword, done, src, dst, nbytes, start);
      ProgressStep(c.g, cells1, burns1, cells0, burns0, dst, data, erase, first, dest1, end, done, error1,
                   image, c.cells, c.burns, stop, dest, error);
      done := NextDone(c.g, done, stop);
    }
    ProgressEnds(c.g, c.cells, c.burns, cells0, burns0, dst, data, erase, first, dest, end, done, error);
    BlankNeedsNoErase(cells0, dst, data, erase);
    OverlayNumbered(c.g, cells0, dst, src, 8, nbytes);
    c.errorStatus := error;
    r := dst;
  }

  method Memset32(c: FlashController, dst: int, src: nat, nbytes: nat, erase: bool) returns (r: int)
    requires c.Valid() && src < 0x1_0000_0000
    modifies c
    ensures c.Valid() && r == dst
    ensures old(c.log) <= c.log && c.errorStatus == AllErrors(c.log[|old(c.log)|..])
    ensures c.errorStatus == NO_ERRORS ==> c.cells == Overlay(old(c.cells), dst, Pattern(src, 4, nbytes), erase)
    ensures c.errorStatus == NO_ERRORS && erase ==> Numbered(c.g, c.cells, dst, nbytes, 4, src)
    ensures old(c.burns) <= c.burns && EachPageOnce(c.g, c.burns[|old(c.burns)|..], dst, nbytes)
    ensures OnlyBurned(c.g, c.burns[|old(c.burns)|..], old(c.cells), c.cells) && c.fuses == old(c.fuses)
  {
    assert forall a :: a in c.cells <==> c.g.InFlash(a);
    hide EachPageOnce, OnlyBurned, Overlay, Pattern, IsBlank, AllErrors, FlashController.Valid, Numbered;
    var twice := src + src * 0x1_0000_0000;
    Doubles(src, 4, nbytes);
    OverlayNumbered(c.g, c.cells, dst, src, 4, nbytes);
    assert twice < Modulus(8) && Pattern(twice, 8, nbytes) == Pattern(src, 4, nbytes);
    hide Modulus;
    r := Memset64(c, dst, twice, nbytes, erase);
  }

  method Memset16(c: FlashController, dst: int, src: nat, nbytes: nat, erase: bool) returns (r: int)
    requires c.Valid() && src < 0x1_0000
    modifies c
    ensures c.Valid() && r == dst
    ensures old(c.log) <= c.log && c.errorStatus == AllErrors(c.log[|old(c.log)|..])
    ensures c.errorStatus == NO_ERRORS ==> c.cells == Overlay(old(c.cells), dst, Pattern(src, 2, nbytes), erase)
    ensures c.errorStatus == NO_ERRORS && erase ==> Numbered(c.g, c.cells, dst, nbytes, 2, src)
    ensures old(c.burns) <= c.burns && EachPageOnce(c.g, c.burns[|old(c.burns)|..], dst, nbytes)
    ensures OnlyBurned(c.g, c.burns[|old(c.burns)|..], old(c.cells), c.cells) && c.fuses == old(c.fuses)
  {
    assert forall a :: a in c.cells <==> c.g.InFlash(a);
    hide EachPageOnce, OnlyBurned, Overlay, Pattern, IsBlank, AllErrors, FlashController.Valid, Numbered;
    var twice := src + src * 0x1_0000;
    Doubles(src, 2, nbytes);
    OverlayNumbered(c.g, c.cells, dst, src, 2, nbytes);
    assert twice < Modulus(4) && Pattern(twice, 4, nbytes) == Pattern(src, 2, nbytes);
    hide Modulus;
    r := Memset32(c, dst, twice, nbytes, erase);
  }

  method Memset8(c: FlashController, dst: int, src: nat, nbytes: nat, erase: bool) returns (r: int)
    requires c.Valid() && src < 0x100
    modifies c
    ensures c.Valid() && r == dst
    ensures old(c.log) <= c.log && c.errorStatus == AllErrors(c.log[|old(c.log)|..])
    ensures c.errorStatus == NO_ERRORS ==> c.cells == Overlay(old(c.cells), dst, seq(nbytes, _ => LowByte(src)), erase)
    ensures old(c.burns) <= c.burns && EachPageOnce(c.g, c.burns[|old(c.burns)|..], dst, nbytes)
    ensures OnlyBurned(c.g, c.burns[|old(c.burns)|..], old(c.cells), c.cells) && c.fuses == old(c.fuses)
  {
    hide EachPageOnce, OnlyBurned, Overlay, AllErrors, FlashController.Valid, Numbered;
    Doubles(src, 1, nbytes);
    assert Pattern(src, 1, nbytes) == seq(nbytes, _ => LowByte(src));
    r := Memset16(c, dst, src + src * 0x100, nbytes, erase);
  }

  /**
   Each round of n bytes at dst that lies in flash, w bytes long, holds the number v, most significant byte first:
   what the order of the bytes in memory means, independently of how the pattern is computed.
   */
  ghost predicate Numbered(g: Geometry, cells: Cells, dst: int, n: nat, w: nat, v: nat)
    requires 0 < w
  {
    forall a :: dst <= a && a + w <= dst + n && (a - dst) % w == 0 && (forall b :: a <= b < a + w ==> g.InFlash(b)) ==>
      HoldsNumber(cells, a, w, v)
  }

  lemma OverlayNumbered(g: Geometry, cells: Cells, dst: int, v: nat, w: nat, n: nat)
    requires w in {1, 2, 4, 8} && v < Modulus(w) && forall a :: a in cells <==> g.InFlash(a)
    ensures Numbered(g, Overlay(cells, dst, Pattern(v, w, n), true), dst, n, w, v)
  {
    PowersOf256();
    PatternValue(v, w);
    hide Value, Pow256, Pattern, Overlay, Geometry.InFlash;
    var data := Pattern(v, w, n);
    forall a | dst <= a && a + w <= dst + n && (a - dst) % w == 0 && (forall b :: a <= b < a + w ==> g.InFlash(b))
      ensures HoldsNumber(Overlay(cells, dst, data, true), a, w, v)
    {
      PatternRepeats(v, w, n, a - dst);
      PatternLength(v, w, n);
      OverlaidCells(cells, dst, data, a, w);
    }
  }

  lemma PatternLength(v: nat, w: nat, n: nat)
    requires 0 < w
    ensures |Pattern(v, w, n)| == n
  {
  }

  lemma OverlaidCells(cells: Cells, dst: int, data: seq<Byte>, a: int, w: nat)
    requires dst <= a && a + w <= dst + |data| && forall b :: a <= b < a + w ==> b in cells
    ensures var after := Overlay(cells, dst, data, true);
      (forall b :: a <= b < a + w ==> b in after) && CellsAt(after, a, w) == data[a - dst..a - dst + w]
  {
  }

  function Modulus(w: nat): nat {
    match w case 1 => 0x100 case 2 => 0x1_0000 case 4 => 0x1_0000_0000 case _ => 0x1_0000_0000_0000_0000
  }

  lemma Doubles(v: nat, w: nat, n: nat)
    requires w in {1, 2, 4} && v < Modulus(w)
    ensures v + v * Modulus(w) < Modulus(2 * w)
    ensures Pattern(v + v * Modulus(w), 2 * w, n) == Pattern(v, w, n)
  {
    PowersOf256();
    DoubledPattern(v, w, n);
  }

  lemma PowersOf256()
    ensures Pow256(1) == Modulus(1) && Pow256(2) == Modulus(2) && Pow256(4) == Modulus(4) && Pow256(8) == Modulus(8)
  {
    assert Pow256(2) == 256 * Pow256(1) && Pow256(3) == 256 * Pow256(2) && Pow256(4) == 256 * Pow256(3);
    assert Pow256(5) == 256 * Pow256(4) && Pow256(6) == 256 * Pow256(5) && Pow256(7) == 256 * Pow256(6) &&
           Pow256(8) == 256 * Pow256(7);
  }
}
