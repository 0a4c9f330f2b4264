/** flashc_memcpy: copies a byte range to any flash address, whatever its alignment, length or clipping. */
module FlashMemcpy {
  import opened Arith
  import opened Common
  import opened FlashHardware
  import opened FlashAccess
  import opened FlashPages

  /** Bytes [0, k) of the double-word at slot are final, as the image has them. */
  ghost predicate DwordHolds(dword: array<Byte>, image: seq<Byte>, base: int, slot: int, k: int)
    requires dword.Length == 8 && k <= 8
    reads dword
  {
    && base <= slot <= base + |image| - 8
    && forall i :: 0 <= i < k ==> dword[i] == image[slot - base + i]
  }

  /** The source bytes [from, to) are the image bytes shifted by shift. */
  ghost predicate SourceHolds(src: seq<Byte>, image: seq<Byte>, shift: int, from: int, to: int) {
    from < to ==>
      && 0 <= from && to <= |src| && 0 <= from + shift && to + shift <= |image|
      && forall k :: from <= k < to ==> src[k] == image[k + shift]
  }

  /** From address a on, the image of the page is what flash holds. */
  ghost predicate FlashTail(cells: Cells, image: seq<Byte>, base: int, a: int) {
    base <= a && forall b :: a <= b < base + |image| ==> b in cells && image[b - base] == cells[b]
  }

  /** Lines 970 to 975: the double-word at slot holds flash data below dest, and source data from there on. */
  method PatchStart(c: FlashController, src: seq<Byte>, dest: int, source0: int, slot: int, end: int,
                    dword: array<Byte>, ghost image: seq<Byte>, ghost base: int, ghost dst: int, ghost n: nat)
    returns (source: int)
    requires dword.Length == 8 && slot == AlignDown(dest, 8) && base <= slot && slot + 8 <= base + c.g.page
    requires dest % 8 != 0 && dst <= dest < end <= dst + n && n + 6 <= |src| && source0 == dest - dst
    requires IsImage(c.g, c.cells, image, base, dst, src[..n], dest, end)
    modifies dword
    ensures source == slot + 8 - dst
    ensures DwordHolds(dword, image, base, slot, if end < slot + 8 then end - slot else 8)
  {
    var tmp, i := slot, 0;
    source := source0;
    while i < dest % 8
      invariant 0 <= i <= dest % 8 && tmp == slot + i
      invariant DwordHolds(dword, image, base, slot, i)
    {
      dword[i] := c.cells[tmp];
      tmp, i := tmp + 1, i + 1;
    }
    while i < 8
      invariant dest % 8 <= i <= 8 && source == slot + i - dst
      invariant DwordHolds(dword, image, base, slot, if end < slot + i then end - slot else i)
    {
      dword[i] := src[source];
      assert slot + i < end ==> image[slot - base + i] == src[..n][source];
      source, i := source + 1, i + 1;
    }
  }

  /** Lines 950 to 990: from the start of the page to the first double-word boundary after the destination. */
  method FillStart(c: FlashController, src: seq<Byte>, dest0: int, source0: int, end: int, dword: array<Byte>,
                   base: int, ghost image: seq<Byte>, ghost dst: int, ghost n: nat, ghost clean: bool)
    returns (dest: int, source: int, pending: bool)
    requires c.Valid() && c.g.IsPage(base) && Nested(base, base + c.g.page, dest0, end)
    requires Filled(c, image, base, base, clean) && dword.Length == 8
    requires n + 6 <= |src| && dest0 < end <= dst + n && dst <= dest0 && source0 == dest0 - dst
    requires IsImage(c.g, c.cells, image, base, dst, src[..n], dest0, end)
    modifies c`buffer, c`pageNumber, c`stores, dword
    ensures c.Valid() && dest % 8 == 0 && base <= dest <= AlignDown(end, 8) && dest <= base + c.g.page
    ensures Filled(c, image, base, dest, clean)
    ensures !pending ==> source == dest - dst && dest0 <= dest
    ensures pending ==>
      && end < base + c.g.page && dest == AlignDown(end, 8) && end % 8 != 0
      && DwordHolds(dword, image, base, dest, end % 8)
  {
    hide AlignDown, DwordHolds, Filled, IsImage, Geometry.Valid, Geometry.IsPage;
    dest, source, pending := dest0, source0, false;
    OutsideIsFlash(c.g, c.cells, image, base, dst, src[..n], dest0, end);
    if dest != base {
      var slot := AlignDown(dest, 8);
      FillFromFlash(c, base, slot, image, base, clean);
      if dest % 8 != 0 {
        dest, source, pending := FillFirstDword(c, src, dest, source, slot, end, dword, image, base, dst, n, clean);
      } else {
        AlignedDown(dest);
      }
    } else {
      AlignedDown(dest);
    }
  }

  /** Lines 970 to 988: the double-word of an unaligned destination; it stays pending if it is the last one. */
  method FillFirstDword(c: FlashController, src: seq<Byte>, dest0: int, source0: int, slot: int, end: int,
                        dword: array<Byte>, ghost image: seq<Byte>, ghost base: int, ghost dst: int, ghost n: nat,
                        ghost clean: bool)
    returns (dest: int, source: int, pending: bool)
    requires c.Valid() && c.g.IsPage(base) && Nested(base, base + c.g.page, dest0, end)
    requires dest0 % 8 != 0 && slot == AlignDown(dest0, 8) && Filled(c, image, base, slot, clean) && dword.Length == 8
    requires n + 6 <= |src| && dest0 < end <= dst + n && dst <= dest0 && source0 == dest0 - dst && |image| == c.g.page
    requires IsImage(c.g, c.cells, image, base, dst, src[..n], dest0, end)
    modifies c`buffer, c`pageNumber, c`stores, dword
    ensures c.Valid() && dest % 8 == 0 && base <= dest <= AlignDown(end, 8) && dest <= base + c.g.page
    ensures Filled(c, image, base, dest, clean)
    ensures !pending ==> source == dest - dst && dest0 <= dest
    ensures pending ==>
      && end < base + c.g.page && dest == AlignDown(end, 8) && end % 8 != 0
      && DwordHolds(dword, image, base, dest, end % 8)
  {
    hide AlignDown, DwordHolds, Filled, IsImage, Geometry.Valid, Geometry.IsPage;
    source := PatchStart(c, src, dest0, source0, slot, end, dword, image, base, dst, n);
    SameOrNextDword(dest0, end);
    dest, pending := slot, false;
    if dest < AlignDown(end, 8) {
      DwordIsSlice(dword, image, base, slot);
      StoreNext(c, dest, dword[..], image, base, clean);
      dest := dest + 8;
    } else {
      pending := true;
    }
  }

  /** Outside the data, the image of a page is what flash holds. */
  lemma OutsideIsFlash(g: Geometry, cells: Cells, image: seq<Byte>, base: int, dst: int, data: seq<Byte>, lo: int,
                       hi: int)
    requires IsImage(g, cells, image, base, dst, data, lo, hi)
    ensures |image| == g.page
    ensures forall a :: base <= a < base + g.page && (a < lo || hi <= a) ==> a in cells && image[a - base] == cells[a]
  {
  }

  lemma TailIsFlash(g: Geometry, cells: Cells, image: seq<Byte>, base: int, dst: int, data: seq<Byte>, lo: int, hi: int)
    requires IsImage(g, cells, image, base, dst, data, lo, hi) && base <= hi
    ensures FlashTail(cells, image, base, hi)
  {
  }

  lemma DwordIsSlice(dword: array<Byte>, image: seq<Byte>, base: int, slot: int)
    requires dword.Length == 8 && DwordHolds(dword, image, base, slot, 8)
    ensures base <= slot <= base + |image| - 8 && dword[..] == image[slot - base..slot - base + 8]
  {
  }

  lemma SameOrNextDword(dest: int, end: int)
    requires dest < end && dest % 8 != 0
    ensures AlignDown(dest, 8) < dest < AlignDown(dest, 8) + 8
    ensures AlignDown(dest, 8) < AlignDown(end, 8) ==> AlignDown(dest, 8) + 8 <= AlignDown(end, 8) < end + 1
    ensures AlignDown(dest, 8) >= AlignDown(end, 8) ==>
      AlignDown(dest, 8) == AlignDown(end, 8) == end - end % 8 && end % 8 != 0 && end < AlignDown(dest, 8) + 8
  {
  }

  lemma AlignedDown(a: int)
    requires a % 8 == 0
    ensures AlignDown(a, 8) == a
  {
  }

  /** The double-words of dest and end against a page from base to top. */
  ghost predicate Nested(base: int, top: int, dest: int, end: int) {
    && base <= AlignDown(dest, 8) <= dest < AlignDown(dest, 8) + 8 <= top
    && AlignDown(dest, 8) <= AlignDown(end, 8)
    && base % 8 == 0 && top % 8 == 0 && AlignDown(dest, 8) % 8 == 0 && (AlignDown(dest, 8) - base) % 8 == 0
    && (AlignDown(end, 8) - base) % 8 == 0 && AlignDown(end, 8) % 8 == 0 && AlignDown(end, 8) <= end
    && (end < top ==> AlignDown(end, 8) + 8 <= top) && end == AlignDown(end, 8) + end % 8 &&
       (top <= end ==> top <= AlignDown(end, 8))
    && (AlignDown(dest, 8) < AlignDown(end, 8) ==> AlignDown(dest, 8) + 8 <= AlignDown(end, 8))
  }

  lemma DwordsNest(base: int, top: int, dest: int, end: int)
    requires base % 8 == 0 && top % 8 == 0 && base <= dest < top && dest < end
    ensures Nested(base, top, dest, end)
  {
  }

  /** Lines 994 to 1015: whole double-words, read with the widest access the source alignment allows. */
  method CopyDwords(c: FlashController, src: seq<Byte>, srcAddress: int, dest0: int, source0: int, stop: int,
                    dword: array<Byte>, ghost image: seq<Byte>, ghost base: int, ghost clean: bool)
    returns (dest: int, source: int)
    requires c.Valid() && c.g.IsPage(base) && Filled(c, image, base, dest0, clean) && dword.Length == 8
    requires dest0 <= stop <= base + c.g.page && (stop - base) % 8 == 0
    requires SourceHolds(src, image, dest0 - base - source0, source0, source0 + stop - dest0)
    modifies c`buffer, c`pageNumber, c`stores, dword
    ensures c.Valid() && Filled(c, image, base, stop, clean)
    ensures dest == stop && source == source0 + stop - dest0
    ensures dest0 == stop ==> unchanged(dword)
  {
    dest, source := dest0, source0;
    var width := match (srcAddress + source) % 4 { case 0 => 8 case 2 => 2 case _ => 1 };
    var i := (stop - dest) / 8;
    assert stop == dest + 8 * i by {
      SumOfMultiples(stop - base, dest - base, 8);
    }
    while i > 0
      invariant 0 <= i && dest0 <= dest && stop == dest + 8 * i && source == source0 + dest - dest0
      invariant c.Valid() && Filled(c, image, base, dest, clean)
      invariant dest0 == stop ==> unchanged(dword)
    {
      var v := src[source..source + 8];
      forall k | 0 <= k < 8
        ensures v[k] == image[dest - base + k]
      {
        assert src[source + k] == image[source + k - source0 + dest0 - base];
      }
      assert v == image[dest - base..dest - base + 8];
      if width != 8 {
        ReadDword(src, source, width, dword);
        v := dword[..];
      }
      StoreNext(c, dest, v, image, base, clean);
      source, dest, i := source + 8, dest + 8, i - 1;
    }
  }

  /** Reads a double-word from the source by half-words or by bytes. */
  method ReadDword(src: seq<Byte>, source0: int, width: int, dword: array<Byte>)
    requires dword.Length == 8 && width in {1, 2} && 0 <= source0 && source0 + 8 <= |src|
    modifies dword
    ensures dword[..] == src[source0..source0 + 8]
  {
    var source, j := source0, 0;
    while j < 8 / width
      invariant 0 <= j <= 8 / width && source == source0 + width * j
      invariant forall k :: 0 <= k < width * j ==> dword[k] == src[source0 + k]
    {
      if width == 2 {
        dword[2 * j], dword[2 * j + 1] := src[source], src[source + 1];
      } else {
        dword[j] := src[source];
      }
      source, j := source + width, j + 1;
    }
  }

  /** Lines 1021 to 1041: the last double-word holds source data below end, and flash data from there on. */
  method PatchEnd(c: FlashController, src: seq<Byte>, slot: int, source0: int, end: int, pending: bool,
                  dword: array<Byte>, ghost image: seq<Byte>, ghost base: int)
    requires dword.Length == 8 && slot == AlignDown(end, 8) && base <= slot &&
             (end % 8 != 0 ==> slot + 8 <= base + |image|)
    requires FlashTail(c.cells, image, base, end)
    requires pending && end % 8 != 0 ==> DwordHolds(dword, image, base, slot, end % 8)
    requires !pending ==> SourceHolds(src, image, slot - base - source0, source0, source0 + end - slot)
    modifies dword
    ensures end % 8 != 0 ==> DwordHolds(dword, image, base, slot, 8)
  {
    var tmp, source, i := end, source0, 0;
    if pending {
      i := end % 8;
    } else {
      while i < end % 8
        invariant 0 <= i <= end % 8 && source == source0 + i
        invariant i > 0 ==> DwordHolds(dword, image, base, slot, i)
      {
        dword[i] := src[source];
        source, i := source + 1, i + 1;
      }
    }
    if end % 8 != 0 {
      while i < 8
        invariant end % 8 <= i <= 8 && tmp == slot + i
        invariant DwordHolds(dword, image, base, slot, i)
      {
        dword[i] := c.cells[tmp];
        tmp, i := tmp + 1, i + 1;
      }
    }
  }

  /** Lines 1018 to 1051: from the end of the data to the end of the page. */
  method FillEnd(c: FlashController, src: seq<Byte>, dest0: int, source0: int, end: int, pending: bool,
                 dword: array<Byte>, ghost image: seq<Byte>, ghost base: int, ghost clean: bool)
    returns (dest: int)
    requires c.Valid() && c.g.IsPage(base) && Filled(c, image, base, dest0, clean) && dword.Length == 8
    requires dest0 == AlignDown(end, 8) && base < end < base + c.g.page
    requires FlashTail(c.cells, image, base, end)
    requires pending && end % 8 != 0 ==> DwordHolds(dword, image, base, dest0, end % 8)
    requires !pending ==> SourceHolds(src, image, dest0 - base - source0, source0, source0 + end - dest0)
    modifies c`buffer, c`pageNumber, c`stores, dword
    ensures c.Valid() && Filled(c, image, base, base + c.g.page, clean)
    ensures end <= dest <= base + c.g.page
  {
    PageInFlash(c.g, base);
    LastDword(base, base + c.g.page, end);
    dest := dest0;
    PatchEnd(c, src, dest, source0, end, pending, dword, image, base);
    var tmp := end;
    if end % 8 != 0 {
      assert dword[..] == image[dest - base..dest - base + 8];
      StoreNext(c, dest, dword[..], image, base, clean);
      dest := dest + 8;
      tmp := dest;
    }
    FillToPageEnd(c, tmp, image, base, clean);
  }

  lemma LastDword(base: int, top: int, end: int)
    requires base % 8 == 0 && top % 8 == 0 && base < end < top
    ensures base <= AlignDown(end, 8) && AlignDown(end, 8) + 8 <= top
  {
  }

  /** Lines 942 to 1051: fills the page buffer with the page of the destination. */
  method FillPage(c: FlashController, src: seq<Byte>, srcAddress: int, dest0: int, source0: int, end: int,
                  dword: array<Byte>,
                  base: int, incomplete: bool, ghost image: seq<Byte>, ghost dst: int, ghost n: nat, ghost clean: bool)
    returns (dest: int, source: int)
    requires c.Valid() && c.g.IsPage(base) && Nested(base, base + c.g.page, dest0, end)
    requires Filled(c, image, base, base, clean) && dword.Length == 8
    requires n + 6 <= |src| && dest0 < end <= dst + n && dst <= dest0 && source0 == dest0 - dst
    requires IsImage(c.g, c.cells, image, base, dst, src[..n], dest0, end)
    requires incomplete <==> end < base + c.g.page
    modifies c`buffer, c`pageNumber, c`stores, dword
    ensures c.Valid() && Filled(c, image, base, base + c.g.page, clean)
    ensures if end < base + c.g.page then end <= dest <= base + c.g.page
            else dest == base + c.g.page && source == dest - dst
  {
    hide AlignDown, Geometry.IsPage, Geometry.Valid, IsImage, Filled, DwordHolds, FlashTail;
    var end64, top := AlignDown(end, 8), base + c.g.page;
    var sourceEnd := if end64 < top then end64 else top;
    var pending;
    dest, source, pending := FillStart(c, src, dest0, source0, end, dword, base, image, dst, n, clean);
    if !pending {
      SourceIsImage(src, image, base, dst, n, dest0, end, c.g, c.cells, source, source + sourceEnd - dest);
    }
    dest, source := CopyDwords(c, src, srcAddress, dest, source, sourceEnd, dword, image, base, clean);
    if incomplete {
      TailIsFlash(c.g, c.cells, image, base, dst, src[..n], dest0, end);
      if !pending {
        SourceIsImage(src, image, base, dst, n, dest0, end, c.g, c.cells, source, source + end - dest);
      }
      dest := FillEnd(c, src, dest, source, end, pending, dword, image, base, clean);
    }
  }

  lemma SourceIsImage(src: seq<Byte>, image: seq<Byte>, base: int, dst: int, n: nat, lo: int, hi: int, g: Geometry,
                      cells: Cells, from: int, to: int)
    requires n <= |src| && IsImage(g, cells, image, base, dst, src[..n], lo, hi)
    requires lo - dst <= from && to <= hi - dst && base <= from + dst && to + dst <= base + g.page
    ensures SourceHolds(src, image, dst - base, from, to)
  {
    forall k | from <= k < to
      ensures src[k] == image[k + dst - base]
    {
      assert src[k] == src[..n][k];
    }
  }

  /** Lines 937 to 1083: fills the page buffer with the page of the destination, and commits it. */
  method CopyPage(c: FlashController, src: seq<Byte>, srcAddress: int, dest0: int, source0: int, end: int, erase: bool,
                  error0: Errors, dword: array<Byte>, ghost base: int, ghost dst: int, ghost n: nat, ghost start: nat)
    returns (dest: int, source: int, error: Errors, ghost stop: int, ghost image: seq<Byte>)
    requires c.Valid() && c.g.IsPage(base) && base <= dest0 < base + c.g.page && dword.Length == 8
    requires n + 6 <= |src| && dest0 < end <= dst + n && dst <= dest0 && source0 == dest0 - dst
    requires start <= |c.log| && error0 == AllErrors(c.log[start..])
    modifies c, dword
    ensures c.Valid() && c.fuses == old(c.fuses)
    ensures old(c.log) <= c.log && error == AllErrors(c.log[start..])
    ensures IsImage(c.g, old(c.cells), image, base, dst, src[..n], dest0, end)
    ensures error == NO_ERRORS ==> error0 == NO_ERRORS && c.cells == Programmed(old(c.cells), base, image, erase)
    ensures OutsideUnchanged(c.g, old(c.cells), c.cells, base)
    ensures c.burns == old(c.burns) + [Burn(base, Slots(base, c.g.page / 8))]
    ensures if end < base + c.g.page then end <= stop <= base + c.g.page else stop == base + c.g.page
    ensures dest == if c.g.InArray(base) && c.g.ArrayEnd() <= stop then c.g.user else stop
    ensures dest0 < dest && (dest < end ==> source == dest - dst)
  {
    PageInFlash(c.g, base);
    DwordsNest(base, base + c.g.page, dest0, end);
    AlignDownUnique(dest0, base, c.g.page);
    image := Image(c.g, c.cells, base, dst, src[..n], dest0, end);
    ghost var log0 := c.log;
    ClearPageBuffer(c);
    error := error0.Or(c.errorStatus);
    ErrorsAddUp(start, log0, c.log);
    assert image[..0] + Ones(|image|) == Ones(|image|);
    IncompleteEnd(c.g, base, dest0, end);
    var incomplete := AlignDown(dest0, c.g.page) >= AlignDown(end, c.g.page);
    dest, source := FillPage(c, src, srcAddress, dest0, source0, end, dword, AlignDown(dest0, c.g.page), incomplete,
                             image, dst, n, error == NO_ERRORS);
    stop := dest;
    var next;
    next, error := CommitPage(c, dest, erase, error, image, base, start);
    source, dest := source + (next - dest), next;
  }

  /**
   flashc_memcpy. The source may be read up to 6 bytes past nbytes (lines 974 and 975), so it is readable
   that far; what is there does not matter.
   */
  method Memcpy(c: FlashController, dst: int, src: seq<Byte>, srcAddress: int, nbytes: nat, erase: bool)
    returns (r: int)
    requires c.Valid() && nbytes + 6 <= |src|
    modifies c
    ensures c.Valid() && r == dst && c.fuses == old(c.fuses)
    ensures old(c.log) <= c.log && c.errorStatus == AllErrors(c.log[|old(c.log)|..])
    ensures c.errorStatus == NO_ERRORS ==> c.cells == Overlay(old(c.cells), dst, src[..nbytes], erase)
    // Over a blank destination no erase is needed; and data that is there already changes nothing, erased or not.
    ensures c.errorStatus == NO_ERRORS && IsBlank(old(c.cells), dst, dst + nbytes) ==>
      c.cells == Overlay(old(c.cells), dst, src[..nbytes], true)
    ensures c.errorStatus == NO_ERRORS && Holds(old(c.cells), dst, src[..nbytes]) ==> c.cells == old(c.cells)
    ensures old(c.burns) <= c.burns && EachPageOnce(c.g, c.burns[|old(c.burns)|..], dst, nbytes)
    ensures OnlyBurned(c.g, c.burns[|old(c.burns)|..], old(c.cells), c.cells)
  {
    hide Progress, Clipped, IsImage, Programmed, OutsideUnchanged, EachPageOnce, OnlyBurned, Overlay, Holds, IsBlank;
    var error := NO_ERRORS;
    var dest, end := Clip(c.g, dst, nbytes);
    var source := dest - dst;
    var dword := new Byte[8];
    ghost var data, first := src[..nbytes], dest;
    ghost var cells0, burns0, start := c.cells, c.burns, |c.log|;
    ghost var done := ProgressStarts(c.g, cells0, burns0, dst, data, erase, dest, end);
    assert c.log[start..] == [];
    while dest < end
      invariant c.Valid() && c.fuses == old(c.fuses) && first <= dest
      invariant Progress(c.g, c.cells, c.burns, cells0, burns0, dst, data, erase, dest, end, done, error)
      invariant old(c.log) <= c.log && error == AllErrors(c.log[start..])
      invariant dest < end ==> source == dest - dst
      decreases end - dest
    {
      ghost var cells1, burns1, dest1, error1 := c.cells, c.burns, dest, error;
      ProgressHere(c.g, cells1, burns1, cells0, burns0, dst, data, erase, first, dest, end, done, error);
      ghost var stop, image;
      dest, source, error, stop, image := CopyPage(c, src, srcAddress, dest, source, end, erase, error, dword, done,
                                                   dst, nbytes, start);
      ProgressStep(c.g, cells1, burns1, cells0, burns0, dst, data, erase, first, dest1, end, done, error1,
                   image, c.cells, c.burns, stop, dest, error);
      done := NextDone(c.g, done, stop);
    }
    ProgressEnds(c.g, c.cells, c.burns, cells0, burns0, dst, data, erase, first, dest, end, done, error);
    BlankNeedsNoErase(cells0, dst, data, erase);
    RewriteIsIdentity(cells0, dst, data, erase);
    c.errorStatus := error;
    r := dst;
  }

  /** Two calls on consecutive parts of a range, in either mode, amount to one call on the whole range. */
  method CopyInParts(c: FlashController, dst: int, src: seq<Byte>, srcAddress: int, n1: nat, n2: nat, erase: bool)
    returns (status: Errors)
    requires c.Valid() && n1 + n2 + 6 <= |src|
    modifies c
    ensures c.Valid() && old(c.log) <= c.log && status == AllErrors(c.log[|old(c.log)|..])
    ensures status == NO_ERRORS ==> c.cells == Overlay(old(c.cells), dst, src[..n1 + n2], erase)
  {
    hide Overlay, EachPageOnce, OnlyBurned, AllErrors, Holds, IsBlank, FlashController.Valid;
    ghost var cells0, log0 := c.cells, c.log;
    var _ := Memcpy(c, dst, src, srcAddress, n1, erase);
    status := c.errorStatus;
    ghost var log1 := c.log;
    var _ := Memcpy(c, dst + n1, src[n1..], srcAddress + n1, n2, erase);
    status := status.Or(c.errorStatus);
    ErrorsAddUp(|log0|, log1, c.log);
    OverlayInParts(cells0, dst, src[..n1], src[n1..][..n2], erase);
    assert src[..n1] + src[n1..][..n2] == src[..n1 + n2];
  }
}
