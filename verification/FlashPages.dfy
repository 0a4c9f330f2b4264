/**
What it means to put a byte range into flash, one page at a time. The writers (modules FlashMemcpy and
FlashMemset) keep Progress; these lemmas say that finishing a page advances it, and that complete progress is the
whole range.
*/
module FlashPages {
  import opened Arith
  import opened Common
  import opened FlashHardware
  import opened FlashAccess

  /** Programming a byte: a write alone can only clear bits. */
  function Program(before: Byte, data: Byte, erase: bool): Byte {
    if erase then data else before & data
  }

  /** Flash after data has been put at address dst, as far as it falls on flash cells below upto. */
  ghost function OverlayUpto(cells: Cells, dst: int, data: seq<Byte>, upto: int, erase: bool): Cells {
    map a | a in cells ::
      if dst <= a < dst + |data| && a < upto then Program(cells[a], data[a - dst], erase) else cells[a]
  }

  /** The specification of both writers: these bytes change, nothing else does. */
  ghost function Overlay(cells: Cells, dst: int, data: seq<Byte>, erase: bool): Cells {
    OverlayUpto(cells, dst, data, dst + |data|, erase)
  }

  /** Over a blank destination, writing without an erase gives what erasing and writing gives. */
  lemma BlankNeedsNoErase(cells: Cells, dst: int, data: seq<Byte>, erase: bool)
    ensures IsBlank(cells, dst, dst + |data|) ==> Overlay(cells, dst, data, erase) == Overlay(cells, dst, data, true)
  {
    BlankBits();
  }

  lemma BlankBits()
    ensures forall x: Byte {:trigger ERASED & x} :: ERASED & x == x
  {
  }

  /** Two calls on consecutive ranges amount to one call on the whole range. */
  lemma OverlayInParts(cells: Cells, dst: int, data1: seq<Byte>, data2: seq<Byte>, erase: bool)
    ensures Overlay(Overlay(cells, dst, data1, erase), dst + |data1|, data2, erase) ==
            Overlay(cells, dst, data1 + data2, erase)
  {
    var one, two := Overlay(cells, dst, data1 + data2, erase),
      Overlay(Overlay(cells, dst, data1, erase), dst + |data1|, data2, erase);
    forall a | a in cells
      ensures two[a] == one[a]
    {
    }
  }

  /** The flash cells of the range hold data already. */
  ghost predicate Holds(cells: Cells, dst: int, data: seq<Byte>) {
    forall a :: a in cells && dst <= a < dst + |data| ==> data[a - dst] == cells[a]
  }

  /** Writing what a range already holds leaves flash as it was, erased or not: page reconstruction is lossless. */
  lemma RewriteIsIdentity(cells: Cells, dst: int, data: seq<Byte>, erase: bool)
    ensures Holds(cells, dst, data) ==> Overlay(cells, dst, data, erase) == cells
  {
    forall a | a in cells && Holds(cells, dst, data)
      ensures Overlay(cells, dst, data, erase)[a] == cells[a]
    {
      AndSame(cells[a]);
    }
  }

  /** Flash after one page has been programmed with image. */
  ghost function Programmed(cells: Cells, base: int, image: seq<Byte>, erase: bool): Cells {
    map a | a in cells ::
      if base <= a < base + |image| then Program(cells[a], image[a - base], erase) else cells[a]
  }

  /** What a page must hold: data (which starts at dst) from lo to hi, and its present contents elsewhere. */
  ghost predicate IsImage(g: Geometry, cells: Cells, image: seq<Byte>, base: int, dst: int, data: seq<Byte>, lo: int,
                          hi: int) {
    && |image| == g.page
    && (forall a :: base <= a < base + g.page ==> a in cells)
    && dst <= lo && hi <= dst + |data|
    && forall i :: 0 <= i < |image| ==>
         image[i] == if lo <= base + i < hi then data[base + i - dst] else cells[base + i]
  }

  ghost function Image(g: Geometry, cells: Cells, base: int, dst: int, data: seq<Byte>, lo: int, hi: int)
    : (image: seq<Byte>)
    requires 0 < g.page && forall a :: base <= a < base + g.page ==> a in cells
    requires dst <= lo && hi <= dst + |data|
    ensures IsImage(g, cells, image, base, dst, data, lo, hi)
  {
    seq(g.page, o requires 0 <= o < g.page => if lo <= base + o < hi then data[base + o - dst] else cells[base + o])
  }

  /**
   The page-buffer discipline while a page is being filled: since the last clear, exactly the double-words
   of the page below upto have been stored, once each and in order, so the buffer holds the image there and
   ones elsewhere; and the page-number field designates this page.
   */
  ghost predicate Filled(c: FlashController, image: seq<Byte>, base: int, upto: int, clean: bool)
    reads c
  {
    && |image| == c.g.page && 0 < c.g.page
    && base <= upto <= base + |image| && (upto - base) % 8 == 0
    && (clean ==> c.buffer == image[..upto - base] + Ones(|image| - (upto - base)))
    && c.stores == Slots(base, (upto - base) / 8)
    && (base < upto && c.g.InArray(base) ==> c.g.PageAddress(c.pageNumber) == base)
  }

  lemma StoreExtends(image: seq<Byte>, k: nat)
    requires k + 8 <= |image|
    ensures AndInto(image[..k] + Ones(|image| - k), k, image[k..k + 8]) == image[..k + 8] + Ones(|image| - k - 8)
  {
    var before := image[..k] + Ones(|image| - k);
    var after := AndInto(before, k, image[k..k + 8]);
    forall i | 0 <= i < |image|
      ensures after[i] == (image[..k + 8] + Ones(|image| - k - 8))[i]
    {
      if k <= i < k + 8 {
        assert before[i] == ERASED && image[k..k + 8][i - k] == image[i];
      }
    }
  }

  /** Stores the next double-word of the page being filled. */
  method StoreNext(c: FlashController, a: int, v: seq<Byte>, ghost image: seq<Byte>, ghost base: int, ghost clean: bool)
    requires c.Valid() && c.g.IsPage(base) && Filled(c, image, base, a, clean)
    requires a + 8 <= base + c.g.page && v == image[a - base..a - base + 8]
    modifies c`buffer, c`pageNumber, c`stores
    ensures c.Valid() && Filled(c, image, base, a + 8, clean)
  {
    PageInFlash(c.g, base);
    SumOfMultiples(base, a - base, 8);
    SumOfMultiples(a - base, 8, 8);
    AlignDownUnique(a, base, c.g.page);
    StoreExtends(image, a - base);
    c.StoreDword(a, v);
    assert Slots(base, (a - base) / 8) + [a] == Slots(base, (a + 8 - base) / 8);
  }

  /** Fills the page buffer with what flash already holds from tmp up to end. */
  method FillFromFlash(c: FlashController, start: int, end: int, ghost image: seq<Byte>, ghost base: int,
                       ghost clean: bool)
    requires c.Valid() && c.g.IsPage(base) && Filled(c, image, base, start, clean)
    requires start <= end <= base + c.g.page && (end - base) % 8 == 0
    requires forall a :: start <= a < end ==> a in c.cells && image[a - base] == c.cells[a]
    modifies c`buffer, c`pageNumber, c`stores
    ensures c.Valid() && Filled(c, image, base, end, clean)
  {
    var tmp := start;
    while tmp < end
      invariant start <= tmp <= end && c.Valid() && Filled(c, image, base, tmp, clean)
    {
      MultiplesApart(tmp - base, end - base, 8);
      var v := c.LoadDword(tmp);
      assert v == image[tmp - base..tmp - base + 8];
      StoreNext(c, tmp, v, image, base, clean);
      tmp := tmp + 8;
    }
  }

  lemma BurnPrograms(cells: Cells, base: int, image: seq<Byte>)
    ensures BurnCells(cells, base, image) == Programmed(cells, base, image, false)
    ensures BurnCells(EraseCells(cells, base, base + |image|), base, image) == Programmed(cells, base, image, true)
  {
    assert forall x: Byte {:trigger ERASED & x} :: ERASED & x == x;
  }

  /** Fills the page buffer with what flash already holds, up to the next page boundary. */
  method FillToPageEnd(c: FlashController, start: int, ghost image: seq<Byte>, ghost base: int, ghost clean: bool)
    requires c.Valid() && c.g.IsPage(base) && Filled(c, image, base, start, clean) && base < start
    requires forall a :: start <= a < base + c.g.page ==> a in c.cells && image[a - base] == c.cells[a]
    modifies c`buffer, c`pageNumber, c`stores
    ensures c.Valid() && Filled(c, image, base, base + c.g.page, clean)
  {
    var tmp := start;
    SumOfMultiples(base, c.g.page, c.g.page);
    PageInFlash(c.g, base);
    while tmp % c.g.page != 0
      invariant start <= tmp <= base + c.g.page && c.Valid() && Filled(c, image, base, tmp, clean)
      decreases base + c.g.page - tmp
    {
      MultiplesApart(tmp - base, c.g.page, 8);
      var v := c.LoadDword(tmp);
      assert v == image[tmp - base..tmp - base + 8];
      StoreNext(c, tmp, v, image, base, clean);
      tmp := tmp + 8;
    }
    if tmp < base + c.g.page {
      MultiplesApart(base, tmp, c.g.page);
    }
  }

  /** Erases the current page of the array if asked, and writes it from the page buffer. */
  method CommitArrayPage(c: FlashController, erase: bool, error0: Errors, ghost base: int, ghost start: nat)
    returns (error: Errors)
    requires c.Valid() && c.g.InArray(base) && c.g.PageAddress(c.pageNumber) == base
    requires start <= |c.log| && error0 == AllErrors(c.log[start..])
    modifies c
    ensures c.Valid() && old(c.log) <= c.log && error == AllErrors(c.log[start..])
    ensures error == NO_ERRORS ==>
            error0 == NO_ERRORS && c.cells == Programmed(old(c.cells), base, old(c.buffer), erase)
    ensures OutsideUnchanged(c.g, old(c.cells), c.cells, base)
    ensures c.burns == old(c.burns) + [Burn(base, old(c.stores))] && c.fuses == old(c.fuses)
  {
    hide EraseCells, BurnCells, Programmed, OutsideUnchanged;
    error := error0;
    ghost var log0, log1 := c.log, c.log;
    BurnPrograms(c.cells, base, c.buffer);
    StaysOutside(c.g, c.cells, c.cells, c.buffer, base);
    if erase {
      var _ := ErasePage(c, -1, false);
      error := error.Or(c.errorStatus);
      ErrorsAddUp(start, log0, c.log);
      log1 := c.log;
    }
    StaysOutside(c.g, old(c.cells), c.cells, c.buffer, base);
    WritePage(c, -1);
    error := error.Or(c.errorStatus);
    ErrorsAddUp(start, log1, c.log);
  }

  /** Erases the User page if asked, and writes it from the page buffer. */
  method CommitUserPage(c: FlashController, erase: bool, error0: Errors, ghost start: nat) returns (error: Errors)
    requires c.Valid()
    requires start <= |c.log| && error0 == AllErrors(c.log[start..])
    modifies c
    ensures c.Valid() && old(c.log) <= c.log && error == AllErrors(c.log[start..])
    ensures error == NO_ERRORS ==>
      error0 == NO_ERRORS && c.cells == Programmed(old(c.cells), c.g.user, old(c.buffer), erase)
    ensures OutsideUnchanged(c.g, old(c.cells), c.cells, c.g.user)
    ensures c.burns == old(c.burns) + [Burn(c.g.user, old(c.stores))] && c.fuses == old(c.fuses)
  {
    hide EraseCells, BurnCells, Programmed, OutsideUnchanged;
    error := error0;
    ghost var log0, log1 := c.log, c.log;
    BurnPrograms(c.cells, c.g.user, c.buffer);
    StaysOutside(c.g, c.cells, c.cells, c.buffer, c.g.user);
    if erase {
      var _ := EraseUserPage(c, false);
      UserEraseErrors(false, c.pageNumber, c.errorStatus, c.errorStatus);
      error := error.Or(c.errorStatus);
      ErrorsAddUp(start, log0, c.log);
      log1 := c.log;
    }
    StaysOutside(c.g, old(c.cells), c.cells, c.buffer, c.g.user);
    WriteUserPage(c);
    error := error.Or(c.errorStatus);
    ErrorsAddUp(start, log1, c.log);
  }

  /** Lines 849 to 875 and 1054 to 1083: commits the page, and moves on to the User page from the end of the array. */
  method CommitPage(c: FlashController, dest: int, erase: bool, error0: Errors,
                    ghost image: seq<Byte>, ghost base: int, ghost start: nat)
    returns (next: int, error: Errors)
    requires c.Valid() && c.g.IsPage(base) && Filled(c, image, base, base + c.g.page, error0 == NO_ERRORS)
    requires base < dest <= base + c.g.page
    requires start <= |c.log| && error0 == AllErrors(c.log[start..])
    modifies c
    ensures c.Valid() && old(c.log) <= c.log && error == AllErrors(c.log[start..])
    ensures next == if c.g.InArray(base) && c.g.ArrayEnd() <= dest then c.g.user else dest
    ensures error == NO_ERRORS ==> error0 == NO_ERRORS && c.cells == Programmed(old(c.cells), base, image, erase)
    ensures OutsideUnchanged(c.g, old(c.cells), c.cells, base)
    ensures c.burns == old(c.burns) + [Burn(base, Slots(base, c.g.page / 8))]
    ensures c.fuses == old(c.fuses)
  {
    next := dest;
    PageInFlash(c.g, base);
    assert error0 == NO_ERRORS ==> c.buffer == image;
    if dest <= c.g.user {
      error := CommitArrayPage(c, erase, error0, base, start);
      if c.g.ArrayEnd() <= dest {
        next := c.g.user;
      }
    } else {
      error := CommitUserPage(c, erase, error0, start);
    }
  }

  lemma StaysOutside(g: Geometry, cells0: Cells, cells: Cells, buffer: seq<Byte>, base: int)
    requires |buffer| == g.page
    ensures OutsideUnchanged(g, cells0, cells0, base)
    ensures OutsideUnchanged(g, cells0, EraseCells(cells0, base, base + g.page), base)
    ensures OutsideUnchanged(g, cells0, cells, base) ==>
            OutsideUnchanged(g, cells0, BurnCells(cells, base, buffer), base)
  {
  }

  /** Whatever errors the commands of a page raise, they touch no other page. */
  ghost predicate OutsideUnchanged(g: Geometry, cells0: Cells, cells: Cells, base: int) {
    && cells.Keys == cells0.Keys
    && forall a :: a in cells && !(base <= a < base + g.page) ==> cells[a] == cells0[a]
  }

  /** Whatever errors were raised, a cell outside the pages written is unchanged. */
  ghost predicate OnlyBurned(g: Geometry, burns: seq<Burn>, cells0: Cells, cells: Cells) {
    && cells.Keys == cells0.Keys
    && forall a :: a in cells && (forall b :: b in burns ==> !(b.page <= a < b.page + g.page)) ==> cells[a] == cells0[a]
  }

  /** A range of n bytes at dst has a byte in the page at p. */
  ghost predicate Meets(g: Geometry, p: int, dst: int, n: nat) {
    0 < n && p < dst + n && dst < p + g.page
  }

  /** The page writes made for a range: in increasing order, each after one store to every slot of that page. */
  ghost predicate Sweep(g: Geometry, burns: seq<Burn>, dst: int, n: nat, done: int)
    requires 0 < g.page
  {
    && (forall i, j :: 0 <= i < j < |burns| ==> burns[i].page < burns[j].page)
    && (forall b :: b in burns ==>
          g.IsPage(b.page) && Meets(g, b.page, dst, n) && b.page < done && b.stores == Slots(b.page, g.page / 8))
    && forall p :: g.IsPage(p) && Meets(g, p, dst, n) && p < done ==> exists b :: b in burns && b.page == p
  }

  /** The clipped range: from dest to end, the flash cells of the n bytes at dst. */
  ghost predicate Clipped(g: Geometry, dst: int, n: nat, dest: int, end: int)
    requires 0 < g.page
  {
    && dst <= dest
    && (forall a :: g.InFlash(a) ==> (dst <= a < dst + n <==> dest <= a < end))
    && (dest < end ==> g.InFlash(dest) && end <= dst + n && (dest == dst || g.IsPage(dest)))
    && (dest < end ==> end <= g.ArrayEnd() || g.user < end <= g.user + g.page)
  }

  /** Lines 738 to 756 and 907 to 927: clips the range to the two areas. */
  method Clip(g: Geometry, dst: int, n: nat) returns (dest: int, end: int)
    requires g.Valid()
    ensures Clipped(g, dst, n, dest, end)
  {
    dest, end := dst, dst + n;
    if dest < g.base {
      dest := g.base;
    } else if g.ArrayEnd() <= dest < g.user {
      dest := g.user;
    }
    if end > g.user + g.page {
      end := g.user + g.page;
    } else if g.user >= end > g.ArrayEnd() {
      end := g.ArrayEnd();
    }
  }

  /** The next page to deal with is the one at done, from dest on; it is the first page, or starts at dest. */
  ghost predicate Frontier(g: Geometry, dst: int, dest: int, end: int, done: int)
    requires 0 < g.page
  {
    if dest < end then g.IsPage(done) && done <= dest < done + g.page && (dest == done || dest == dst) && dst <= dest
    else end <= done
  }

  /** Below done, the data is in flash unless an error was raised; from done on, nothing has changed. */
  ghost predicate Contents(cells: Cells, cells0: Cells, dst: int, data: seq<Byte>, erase: bool, done: int,
                           error: Errors) {
    && cells.Keys == cells0.Keys
    && (error == NO_ERRORS ==> cells == OverlayUpto(cells0, dst, data, done, erase))
    && (forall a :: a in cells && done <= a ==> cells[a] == cells0[a])
  }

  /** The pages below done have been written, and only their cells may have changed. */
  ghost predicate Burned(g: Geometry, burns: seq<Burn>, burns0: seq<Burn>, cells: Cells, cells0: Cells, dst: int,
                         n: nat, done: int)
    requires 0 < g.page
  {
    && burns0 <= burns
    && OnlyBurned(g, burns[|burns0|..], cells0, cells)
    && Sweep(g, burns[|burns0|..], dst, n, done)
  }

  /** Between pages, all pages below done have been dealt with. */
  ghost predicate Progress(g: Geometry, cells: Cells, burns: seq<Burn>, cells0: Cells, burns0: seq<Burn>,
                           dst: int, data: seq<Byte>, erase: bool, dest: int, end: int, done: int, error: Errors)
    requires 0 < g.page
  {
    && Frontier(g, dst, dest, end, done)
    && Contents(cells, cells0, dst, data, erase, done, error)
    && Burned(g, burns, burns0, cells, cells0, dst, |data|, done)
  }

  lemma ProgressStarts(g: Geometry, cells: Cells, burns: seq<Burn>, dst: int, data: seq<Byte>, erase: bool,
                       dest: int, end: int)
    returns (done: int)
    requires g.Valid() && (forall a :: a in cells <==> g.InFlash(a))
    requires Clipped(g, dst, |data|, dest, end)
    ensures Progress(g, cells, burns, cells, burns, dst, data, erase, dest, end, done, NO_ERRORS)
  {
    done := if dest < end then AlignDown(dest, g.page) else dest;
    AlignDownIsAligned(dest, g.page);
    if dest < end {
      PageOf(g, dest);
      if g.IsPage(dest) {
        AlignDownUnique(dest, dest, g.page);
      }
    }
    assert cells == OverlayUpto(cells, dst, data, done, erase);
    assert burns[|burns|..] == [];
    forall p | g.IsPage(p) && Meets(g, p, dst, |data|)
      ensures done <= p
    {
      MeetsClipped(g, p, dst, |data|, dest, end);
      if dest < end && p < done {
        MultiplesApart(p, done, g.page);
      }
    }
  }

  /** While a destination is left, it lies in the page at done. */
  lemma ProgressHere(g: Geometry, cells: Cells, burns: seq<Burn>, cells0: Cells, burns0: seq<Burn>,
                     dst: int, data: seq<Byte>, erase: bool, first: int, dest: int, end: int, done: int, error: Errors)
    requires 0 < g.page && Clipped(g, dst, |data|, first, end) && first <= dest < end
    requires Progress(g, cells, burns, cells0, burns0, dst, data, erase, dest, end, done, error)
    ensures g.IsPage(done) && done <= dest < done + g.page && dst <= dest && end <= dst + |data|
  {
  }

  /** A page of flash that meets the range meets it inside the clipped range. */
  lemma MeetsClipped(g: Geometry, p: int, dst: int, n: nat, dest: int, end: int)
    requires g.Valid() && g.IsPage(p) && Meets(g, p, dst, n) && Clipped(g, dst, n, dest, end)
    ensures dest < end && p < end && dest < p + g.page
  {
    PageInFlash(g, p);
    var a := if p < dst then dst else p;
    assert g.InFlash(a) && dst <= a < dst + n;
  }

  /** The page has an incomplete end exactly when the data ends inside it. */
  lemma IncompleteEnd(g: Geometry, base: int, dest: int, end: int)
    requires g.Valid() && g.IsPage(base) && base == AlignDown(dest, g.page) && dest < end
    ensures base >= AlignDown(end, g.page) <==> end < base + g.page
    ensures end >= base + g.page ==> AlignDown(end, 8) >= base + g.page
  {
    PageInFlash(g, base);
    AlignDownIsAligned(dest, g.page);
    AlignDownIsAligned(end, g.page);
    AlignDownIsAligned(end, 8);
    if end < base + g.page {
      AlignDownUnique(end, base, g.page);
    } else {
      SumOfMultiples(base, g.page, g.page);
      if AlignDown(end, 8) < base + g.page {
        MultiplesApart(AlignDown(end, 8), base + g.page, 8);
      }
    }
  }

  /** Where the frontier is once the page at done has been committed. */
  function NextDone(g: Geometry, done: int, stop: int): int {
    if g.InArray(done) && g.ArrayEnd() <= stop then g.user else done + g.page
  }

  /** Committing the page of dest advances the progress to the next page. */
  lemma ProgressStep(g: Geometry, cells: Cells, burns: seq<Burn>, cells0: Cells, burns0: seq<Burn>,
                     dst: int, data: seq<Byte>, erase: bool, first: int, dest: int, end: int, done: int, error: Errors,
                     image: seq<Byte>, cells': Cells, burns': seq<Burn>, stop: int, next: int, error': Errors)
    requires g.Valid() && (forall a :: a in cells <==> g.InFlash(a))
    requires Clipped(g, dst, |data|, first, end) && first <= dest < end
    requires Progress(g, cells, burns, cells0, burns0, dst, data, erase, dest, end, done, error)
    requires IsImage(g, cells, image, done, dst, data, dest, end)
    requires error' == NO_ERRORS ==> error == NO_ERRORS && cells' == Programmed(cells, done, image, erase)
    requires OutsideUnchanged(g, cells, cells', done)
    requires burns' == burns + [Burn(done, Slots(done, g.page / 8))]
    requires if end < done + g.page then end <= stop <= done + g.page else stop == done + g.page
    requires next == if g.InArray(done) && g.ArrayEnd() <= stop then g.user else stop
    ensures Progress(g, cells', burns', cells0, burns0, dst, data, erase, next, end, NextDone(g, done, stop), error')
  {
    hide Frontier, Contents, Burned, IsImage, Programmed, OutsideUnchanged, Clipped;
    var done' := NextDone(g, done, stop);
    StepFrontier(g, dst, |data|, first, dest, end, done, stop, next);
    StepContents(g, cells, cells0, dst, data, erase, first, dest, end, done, error, image, cells', done', error');
    StepBurned(g, burns, burns0, cells, cells0, dst, |data|, first, dest, end, done, cells', done');
  }

  /** The page after done: the next one of its area, or the User page after the last page of the array. */
  ghost predicate Follows(g: Geometry, done: int, done': int) {
    done' == done + g.page || (g.InArray(done) && done + g.page == g.ArrayEnd() && done' == g.user)
  }

  lemma StepFrontier(g: Geometry, dst: int, n: nat, first: int, dest: int, end: int, done: int, stop: int, next: int)
    requires g.Valid() && Frontier(g, dst, dest, end, done)
    requires Clipped(g, dst, n, first, end) && first <= dest < end
    requires if end < done + g.page then end <= stop <= done + g.page else stop == done + g.page
    requires next == if g.InArray(done) && g.ArrayEnd() <= stop then g.user else stop
    ensures Frontier(g, dst, next, end, NextDone(g, done, stop))
    ensures Follows(g, done, NextDone(g, done, stop))
  {
    PageInFlash(g, done);
    SumOfMultiples(done, g.page, g.page);
  }

  lemma StepContents(g: Geometry, cells: Cells, cells0: Cells, dst: int, data: seq<Byte>, erase: bool,
                     first: int, dest: int, end: int, done: int, error: Errors,
                     image: seq<Byte>, cells': Cells, done': int, error': Errors)
    requires g.Valid() && (forall a :: a in cells <==> g.InFlash(a))
    requires Clipped(g, dst, |data|, first, end) && first <= dest < end
    requires Frontier(g, dst, dest, end, done) && Follows(g, done, done')
    requires Contents(cells, cells0, dst, data, erase, done, error)
    requires IsImage(g, cells, image, done, dst, data, dest, end)
    requires error' == NO_ERRORS ==> error == NO_ERRORS && cells' == Programmed(cells, done, image, erase)
    requires OutsideUnchanged(g, cells, cells', done)
    ensures Contents(cells', cells0, dst, data, erase, done', error')
  {
    hide OverlayUpto, Programmed;
    PageInFlash(g, done);
    if error' == NO_ERRORS {
      StepOverlay(g, cells, cells0, dst, data, erase, dest, end, done, image, done');
    }
  }

  lemma StepOverlay(g: Geometry, cells: Cells, cells0: Cells, dst: int, data: seq<Byte>, erase: bool,
                    dest: int, end: int, done: int, image: seq<Byte>, done': int)
    requires cells == OverlayUpto(cells0, dst, data, done, erase)
    requires dst <= dest && done <= dest && (dest == done || dest == dst)
    requires forall a :: a in cells && dest <= a ==> (a < dst + |data| <==> a < end)
    requires IsImage(g, cells, image, done, dst, data, dest, end)
    requires done + g.page <= done' && forall a :: a in cells && done + g.page <= a ==> done' <= a
    ensures Programmed(cells, done, image, erase) == OverlayUpto(cells0, dst, data, done', erase)
  {
    var result, goal := Programmed(cells, done, image, erase), OverlayUpto(cells0, dst, data, done', erase);
    forall a | a in cells0
      ensures result[a] == goal[a]
    {
      AndSame(cells0[a]);
      if done <= a < done + g.page {
        assert image[a - done] == if dest <= a < end then data[a - dst] else cells0[a];
      }
    }
  }

  lemma AndSame(x: Byte)
    ensures x & x == x
  {
  }

  lemma StepBurned(g: Geometry, burns: seq<Burn>, burns0: seq<Burn>, cells: Cells, cells0: Cells, dst: int, n: nat,
                   first: int, dest: int, end: int, done: int, cells': Cells, done': int)
    requires g.Valid() && Clipped(g, dst, n, first, end) && first <= dest < end
    requires Frontier(g, dst, dest, end, done) && Follows(g, done, done')
    requires Burned(g, burns, burns0, cells, cells0, dst, n, done)
    requires OutsideUnchanged(g, cells, cells', done)
    ensures Burned(g, burns + [Burn(done, Slots(done, g.page / 8))], burns0, cells', cells0, dst, n, done')
  {
    var added, last := burns[|burns0|..], Burn(done, Slots(done, g.page / 8));
    assert (burns + [last])[|burns0|..] == added + [last];
    StepOnlyBurned(g, added, last, cells0, cells, cells');
    StepSweep(g, added, dst, n, first, dest, end, done, done');
  }

  lemma StepOnlyBurned(g: Geometry, burns: seq<Burn>, last: Burn, cells0: Cells, cells: Cells, cells': Cells)
    requires OnlyBurned(g, burns, cells0, cells) && OutsideUnchanged(g, cells, cells', last.page)
    ensures OnlyBurned(g, burns + [last], cells0, cells')
  {
    forall a | a in cells' && (forall b :: b in burns + [last] ==> !(b.page <= a < b.page + g.page))
      ensures cells'[a] == cells0[a]
    {
      assert last in burns + [last];
      assert forall b :: b in burns ==> b in burns + [last];
    }
  }

  lemma StepSweep(g: Geometry, burns: seq<Burn>, dst: int, n: nat, first: int, dest: int, end: int, done: int,
                  done': int)
    requires g.Valid() && g.IsPage(done) && Sweep(g, burns, dst, n, done) && Follows(g, done, done')
    requires Clipped(g, dst, n, first, end) && first <= dest < end && done <= dest < done + g.page
    ensures Sweep(g, burns + [Burn(done, Slots(done, g.page / 8))], dst, n, done')
  {
    var last := Burn(done, Slots(done, g.page / 8));
    var burns' := burns + [last];
    PageInFlash(g, done);
    forall i, j | 0 <= i < j < |burns'|
      ensures burns'[i].page < burns'[j].page
    {
      assert burns'[i] in burns;
    }
    forall p | g.IsPage(p) && Meets(g, p, dst, n) && p < done'
      ensures exists b :: b in burns' && b.page == p
    {
      if p < done {
        var b :| b in burns && b.page == p;
        assert b in burns';
      } else {
        NoPageBetween(g, done, p, done');
        assert last in burns';
      }
    }
  }

  lemma NoPageBetween(g: Geometry, done: int, p: int, done': int)
    requires g.Valid() && g.IsPage(done) && g.IsPage(p) && Follows(g, done, done') && done <= p < done'
    ensures p == done
  {
    PageInFlash(g, done);
    PageInFlash(g, p);
    if done < p {
      MultiplesApart(done, p, g.page);
    }
  }

  /** Once no destination is left, the progress is the whole range. */
  lemma ProgressEnds(g: Geometry, cells: Cells, burns: seq<Burn>, cells0: Cells, burns0: seq<Burn>,
                     dst: int, data: seq<Byte>, erase: bool, first: int, dest: int, end: int, done: int, error: Errors)
    requires g.Valid() && (forall a :: a in cells <==> g.InFlash(a))
    requires Clipped(g, dst, |data|, first, end) && end <= dest
    requires Progress(g, cells, burns, cells0, burns0, dst, data, erase, dest, end, done, error)
    ensures error == NO_ERRORS ==> cells == Overlay(cells0, dst, data, erase)
    ensures burns0 <= burns && EachPageOnce(g, burns[|burns0|..], dst, |data|) &&
            OnlyBurned(g, burns[|burns0|..], cells0, cells)
  {
    forall p | g.IsPage(p) && Meets(g, p, dst, |data|)
      ensures p < done
    {
      MeetsClipped(g, p, dst, |data|, first, end);
    }
  }

  /**
   Each page of flash that meets the range is written exactly once, in address order, after exactly one
   store to each of its double-words; no other page is written.
   */
  ghost predicate EachPageOnce(g: Geometry, burns: seq<Burn>, dst: int, n: nat)
    requires 0 < g.page
  {
    && (forall i, j :: 0 <= i < j < |burns| ==> burns[i].page < burns[j].page)
    && (forall b :: b in burns ==>
          g.IsPage(b.page) && Meets(g, b.page, dst, n) && b.stores == Slots(b.page, g.page / 8))
    && forall p :: g.IsPage(p) && Meets(g, p, dst, n) ==> exists b :: b in burns && b.page == p
  }
}
