/** The driver's page functions (flashc.c, lines 616 to 692), each leaving the sticky status of its own commands. */
module FlashAccess {
  import opened Arith
  import opened FlashHardware

  lemma OneCommand(log: seq<Issued>, x: Issued)
    ensures AllErrors((log + [x])[|log|..]) == x.errors
  {
    AllErrorsAppend(log, |log|, x);
    assert log[|log|..] == [];
  }

  /** The errors of the commands issued in two stretches add up. */
  lemma ErrorsAddUp(start: nat, log1: seq<Issued>, log2: seq<Issued>)
    requires start <= |log1| && log1 <= log2
    ensures AllErrors(log2[start..]) == AllErrors(log1[start..]).Or(AllErrors(log2[|log1|..]))
    decreases |log2|
  {
    if |log1| == |log2| {
      assert log1 == log2 && log2[|log1|..] == [];
    } else {
      var last := log2[|log2| - 1];
      var shorter := log2[..|log2| - 1];
      assert log2 == shorter + [last];
      ErrorsAddUp(start, log1, shorter);
      AllErrorsAppend(shorter, start, last);
      AllErrorsAppend(shorter, |log1|, last);
    }
  }

  method ClearPageBuffer(c: FlashController)
    requires c.Valid()
    modifies c
    ensures c.Valid() && old(c.log) < c.log && c.errorStatus == AllErrors(c.log[|old(c.log)|..])
    ensures c.errorStatus == NO_ERRORS ==> c.buffer == Ones(c.g.page)
    ensures c.stores == [] && c.burns == old(c.burns)
    ensures c.cells == old(c.cells) && c.fuses == old(c.fuses) && c.pageNumber == old(c.pageNumber)
  {
    c.IssueCommand(CPB, -1);
    OneCommand(old(c.log), c.log[|old(c.log)|]);
  }

  /** The commands of flashc_erase_page, with the errors the hardware raises for the erase and for the check. */
  ghost function PageEraseCommands(check: bool, page: nat, erase: Errors, read: Errors): seq<Issued> {
    [Issued(EP, page, erase)] + if check then [Issued(QPR, page, read)] else []
  }

  /** flashc_erase_page: a negative page designates the current one. */
  method ErasePage(c: FlashController, page: int, check: bool) returns (erased: bool)
    requires c.Valid()
    modifies c
    ensures c.Valid() && old(c.log) < c.log && c.errorStatus == AllErrors(c.log[|old(c.log)|..])
    ensures c.pageNumber == if page >= 0 then page else old(c.pageNumber)
    ensures var lo := c.g.PageAddress(c.pageNumber);
      && c.cells == (if c.log[|old(c.log)|].errors == NO_ERRORS && c.g.InArray(lo)
                     then EraseCells(old(c.cells), lo, lo + c.g.page)
                     else old(c.cells))
      // The answer depends on the read alone: an erase that failed does not matter to it.
      && (check && c.log[|c.log| - 1].errors == NO_ERRORS ==> (erased <==> IsBlank(c.cells, lo, lo + c.g.page)))
    ensures var erase, read := c.log[|old(c.log)|].errors, c.log[|c.log| - 1].errors;
      c.log == old(c.log) + PageEraseCommands(check, c.pageNumber, erase, read)
    ensures !check ==> erased
    ensures c.buffer == old(c.buffer) && c.fuses == old(c.fuses)
    ensures c.stores == old(c.stores) && c.burns == old(c.burns)
  {
    erased := true;
    c.IssueCommand(EP, page);
    ghost var log1 := c.log;
    OneCommand(old(c.log), log1[|old(c.log)|]);
    if check {
      var error := c.errorStatus;
      c.IssueCommand(QPR, -1);
      erased := c.pageBlank;
      c.errorStatus := c.errorStatus.Or(error);
      OneCommand(log1, c.log[|log1|]);
      ErrorsAddUp(|old(c.log)|, log1, c.log);
    }
  }

  /** flashc_write_page. */
  method WritePage(c: FlashController, page: int)
    requires c.Valid()
    modifies c
    ensures c.Valid() && old(c.log) < c.log && c.errorStatus == AllErrors(c.log[|old(c.log)|..])
    ensures c.pageNumber == if page >= 0 then page else old(c.pageNumber)
    ensures var lo := c.g.PageAddress(c.pageNumber);
      && c.cells == (if c.errorStatus == NO_ERRORS && c.g.InArray(lo) then BurnCells(old(c.cells), lo, c.buffer)
                     else old(c.cells))
      && c.burns == old(c.burns) + [Burn(lo, c.stores)]
    ensures c.buffer == old(c.buffer) && c.fuses == old(c.fuses) && c.stores == old(c.stores)
  {
    c.IssueCommand(WP, page);
    OneCommand(old(c.log), c.log[|old(c.log)|]);
  }

  /** The commands of flashc_erase_user_page, with the errors the hardware raises for the erase and for the check. */
  ghost function UserEraseCommands(check: bool, page: nat, erase: Errors, read: Errors): seq<Issued> {
    [Issued(EUP, page, erase)] + if check then [Issued(QPRUP, page, read)] else []
  }

  /** The status it leaves: unlike ErasePage, the check overwrites the status of the erase. */
  function UserEraseStatus(check: bool, erase: Errors, read: Errors): Errors {
    if check then read else erase
  }

  /** The status covers every command, whatever the hardware answers, exactly when no check is asked for. */
  lemma UserEraseStatusIff(check: bool, page: nat)
    ensures (forall erase, read ::
      UserEraseStatus(check, erase, read) == AllErrors(UserEraseCommands(check, page, erase, read))) <==> !check
  {
    if check {
      LockedUserPage(page);
    } else {
      forall erase, read
        ensures UserEraseStatus(check, erase, read) == AllErrors(UserEraseCommands(check, page, erase, read))
      {
        UserEraseErrors(check, page, erase, read);
      }
    }
  }

  lemma UserEraseErrors(check: bool, page: nat, erase: Errors, read: Errors)
    ensures AllErrors(UserEraseCommands(check, page, erase, read)) == if check then erase.Or(read) else erase
  {
    var first := Issued(EUP, page, erase);
    OneCommand([], first);
    assert [first] == [] + [first] == ([] + [first])[0..];
    if check {
      AllErrorsAppend([first], 0, Issued(QPRUP, page, read));
      assert [first][0..] == [first];
    }
  }

  /** A locked User page: the erase raises a lock error and does nothing, and the check's status hides it. */
  lemma LockedUserPage(page: nat)
    ensures var locked := Errors(true, false);
      && UserEraseStatus(true, locked, NO_ERRORS) == NO_ERRORS
      && AllErrors(UserEraseCommands(true, page, locked, NO_ERRORS)) == locked
  {
    UserEraseErrors(true, page, Errors(true, false), NO_ERRORS);
  }

  /** flashc_erase_user_page. */
  method EraseUserPage(c: FlashController, check: bool) returns (erased: bool)
    requires c.Valid()
    modifies c
    ensures c.Valid() && old(c.log) < c.log && c.pageNumber == old(c.pageNumber)
    ensures var issued := c.log[|old(c.log)|..];
      var erase, read := issued[0].errors, issued[|issued| - 1].errors;
      && issued == UserEraseCommands(check, c.pageNumber, erase, read)
      && c.errorStatus == UserEraseStatus(check, erase, read)
    ensures !check ==> erased
    ensures c.cells == if c.log[|old(c.log)|].errors == NO_ERRORS
                       then EraseCells(old(c.cells), c.g.user, c.g.user + c.g.page)
                       else old(c.cells)
    ensures check && c.errorStatus == NO_ERRORS ==> (erased <==> IsBlank(c.cells, c.g.user, c.g.user + c.g.page))
    ensures c.buffer == old(c.buffer) && c.fuses == old(c.fuses)
    ensures c.stores == old(c.stores) && c.burns == old(c.burns)
  {
    c.IssueCommand(EUP, -1);
    erased := true;
    if check {
      c.IssueCommand(QPRUP, -1);
      erased := c.pageBlank;
    }
  }

  /** flashc_write_user_page. */
  method WriteUserPage(c: FlashController)
    requires c.Valid()
    modifies c
    ensures c.Valid() && old(c.log) < c.log && c.errorStatus == AllErrors(c.log[|old(c.log)|..])
    ensures c.cells == if c.errorStatus == NO_ERRORS then BurnCells(old(c.cells), c.g.user, c.buffer) else old(c.cells)
    ensures c.burns == old(c.burns) + [Burn(c.g.user, c.stores)]
    ensures c.buffer == old(c.buffer) && c.fuses == old(c.fuses) && c.stores == old(c.stores)
    ensures c.pageNumber == old(c.pageNumber)
  {
    c.IssueCommand(WUP, -1);
    OneCommand(old(c.log), c.log[|old(c.log)|]);
  }

  /** No quick page read among the commands has raised an error. */
  ghost predicate ReadsClean(issued: seq<Issued>) {
    forall x :: x in issued && x.command == QPR ==> x.errors == NO_ERRORS
  }

  /** The cells of page p are erased if it was erased without an error, and as they were otherwise. */
  ghost predicate PageErased(g: Geometry, issued: seq<Issued>, cells0: Cells, cells: Cells, p: nat) {
    forall a :: g.PageAddress(p) <= a < g.PageAddress(p) + g.page ==>
      a in cells && a in cells0 && cells[a] == if Issued(EP, p, NO_ERRORS) in issued then ERASED else cells0[a]
  }

  /** What has been done to the pages from page on; the pages before it are still to come. */
  ghost predicate ErasedFrom(g: Geometry, issued: seq<Issued>, cells0: Cells, cells: Cells, page: nat)
    requires 0 < g.page
  {
    && cells.Keys == cells0.Keys
    && (forall x :: x in issued && x.command == EP ==> page <= x.argument)
    && (forall p :: page <= p < g.PageCount() ==> PageErased(g, issued, cells0, cells, p))
    && (forall a :: a in cells && a < g.PageAddress(page) ==> cells[a] == cells0[a])
  }

  /** Erasing one more page, in descending order. */
  lemma ErasedNext(g: Geometry, check: bool, issued: seq<Issued>, cells0: Cells, cells: Cells, page: nat,
                   erase: Errors, read: Errors, cells': Cells)
    requires g.Valid() && page < g.PageCount() && (forall a :: a in cells <==> g.InFlash(a))
    requires ErasedFrom(g, issued, cells0, cells, page + 1)
    requires var lo := g.PageAddress(page);
      cells' == if erase == NO_ERRORS && g.InArray(lo) then EraseCells(cells, lo, lo + g.page) else cells
    ensures ErasedFrom(g, issued + PageEraseCommands(check, page, erase, read), cells0, cells', page)
  {
    NextPage(g, page);
    PageIsPage(g, page);
    PageInFlash(g, g.PageAddress(page));
    var issued' := issued + PageEraseCommands(check, page, erase, read);
    hide Geometry.PageAddress;
    forall p | page <= p < g.PageCount()
      ensures PageErased(g, issued', cells0, cells', p)
    {
      if p > page {
        PagesApart(g, page, p);
        assert Issued(EP, p, NO_ERRORS) in issued' <==> Issued(EP, p, NO_ERRORS) in issued;
        assert PageErased(g, issued, cells0, cells, p);
      } else {
        assert Issued(EP, p, NO_ERRORS) in issued' <==> erase == NO_ERRORS;
      }
    }
  }

  lemma PageIsPage(g: Geometry, page: nat)
    requires g.Valid() && page < g.PageCount()
    ensures g.IsPage(g.PageAddress(page))
  {
    NextPage(g, page);
    ModOfSum(g.base, page, g.page);
  }

  lemma PagesApart(g: Geometry, p: nat, q: nat)
    requires 0 < g.page && p < q
    ensures g.PageAddress(p) + g.page <= g.PageAddress(q)
  {
    ScaledOrder(g.page, q, p);
  }

  /** flashc_erase_all_pages: without an error, the array is blank and the User page is untouched. */
  method EraseAllPages(c: FlashController, check: bool) returns (erased: bool)
    requires c.Valid()
    modifies c
    ensures c.Valid() && old(c.log) <= c.log && c.errorStatus == AllErrors(c.log[|old(c.log)|..])
    ensures c.errorStatus == NO_ERRORS ==> erased && c.cells == EraseCells(old(c.cells), c.g.base, c.g.ArrayEnd())
    ensures forall a :: c.g.InUserPage(a) ==> c.cells[a] == old(c.cells)[a]
    ensures c.burns == old(c.burns) && c.fuses == old(c.fuses)
    // With errors: page by page, and with a check that could read every page, whether the whole array is blank.
    ensures forall p :: 0 <= p < c.g.PageCount() ==> PageErased(c.g, c.log[|old(c.log)|..], old(c.cells), c.cells, p)
    ensures check && ReadsClean(c.log[|old(c.log)|..]) ==> (erased <==> IsBlank(c.cells, c.g.base, c.g.ArrayEnd()))
    ensures !check ==> erased
  {
    hide Swept, PageErased, PageEraseCommands, IsBlank, EraseCells, AllErrors, Geometry.PageAddress;
    erased := true;
    var error := NO_ERRORS;
    var page := c.g.PageCount();
    ghost var cells0, start := c.cells, |c.log|;
    NothingSwept(c.g, check, c.cells);
    assert c.log[start..] == [];
    while page > 0
      invariant 0 <= page <= c.g.PageCount() && c.Valid() && old(c.log) <= c.log
      invariant Swept(c.g, check, c.log[start..], cells0, c.cells, page, erased, error)
      invariant c.burns == old(c.burns) && c.fuses == old(c.fuses)
    {
      ghost var log1, cells1, erased1, error1 := c.log, c.cells, erased, error;
      page := page - 1;
      var ok := ErasePage(c, page, check);
      erased := erased && ok;
      error := error.Or(c.errorStatus);
      ghost var erase, read := c.log[|log1|].errors, c.log[|c.log| - 1].errors;
      assert c.log[start..] == log1[start..] + PageEraseCommands(check, page, erase, read);
      assert c.log[|log1|..] == PageEraseCommands(check, page, erase, read);
      SweptNext(c.g, check, log1[start..], cells0, cells1, page, erased1, error1, erase, read, c.cells, ok,
                c.errorStatus);
    }
    AllSwept(c.g, check, c.log[start..], cells0, c.cells, erased, error);
    c.errorStatus := error;
  }

  /** Between two turns of the loop: the pages from page on have been dealt with. */
  ghost predicate Swept(g: Geometry, check: bool, issued: seq<Issued>, cells0: Cells, cells: Cells, page: nat,
                        erased: bool, error: Errors)
    requires 0 < g.page
  {
    && ErasedFrom(g, issued, cells0, cells, page)
    && (forall a :: a in cells && g.ArrayEnd() <= a ==> cells[a] == cells0[a])
    && error == AllErrors(issued)
    && (error == NO_ERRORS ==> erased && cells == EraseCells(cells0, g.PageAddress(page), g.ArrayEnd()))
    && (check && ReadsClean(issued) ==> (erased <==> IsBlank(cells, g.PageAddress(page), g.ArrayEnd())))
    && (!check ==> erased)
  }

  lemma NothingSwept(g: Geometry, check: bool, cells: Cells)
    requires g.Valid()
    ensures Swept(g, check, [], cells, cells, g.PageCount(), true, NO_ERRORS)
  {
    NothingErased(g, cells);
    assert g.PageAddress(g.PageCount()) == g.ArrayEnd();
  }

  lemma SweptNext(g: Geometry, check: bool, issued: seq<Issued>, cells0: Cells, cells: Cells, page: nat, erased: bool,
                  error: Errors, erase: Errors, read: Errors, cells': Cells, ok: bool, status: Errors)
    requires g.Valid() && page < g.PageCount() && (forall a :: a in cells <==> g.InFlash(a))
    requires Swept(g, check, issued, cells0, cells, page + 1, erased, error)
    requires var lo := g.PageAddress(page);
      && cells' == (if erase == NO_ERRORS && g.InArray(lo) then EraseCells(cells, lo, lo + g.page) else cells)
      && (check && read == NO_ERRORS ==> (ok <==> IsBlank(cells', lo, lo + g.page)))
    requires (!check ==> ok) && status == AllErrors(PageEraseCommands(check, page, erase, read))
    ensures Swept(g, check, issued + PageEraseCommands(check, page, erase, read), cells0, cells', page,
                  erased && ok, error.Or(status))
  {
    ErasedNext(g, check, issued, cells0, cells, page, erase, read, cells');
    hide ErasedFrom, AllErrors;
    var more := PageEraseCommands(check, page, erase, read);
    NextPage(g, page);
    assert (issued + more)[0..] == issued + more && issued[0..] == issued && (issued + more)[|issued|..] == more;
    ErrorsAddUp(0, issued, issued + more);
    PageEraseErrors(check, page, erase, read);
    hide Geometry.PageAddress;
    assert ReadsClean(issued + more) ==> ReadsClean(issued);
    if check {
      assert more[1] in issued + more;
    }
  }

  lemma PageEraseErrors(check: bool, page: nat, erase: Errors, read: Errors)
    ensures AllErrors(PageEraseCommands(check, page, erase, read)) == if check then erase.Or(read) else erase
  {
    var first := Issued(EP, page, erase);
    OneCommand([], first);
    assert [first] == [] + [first] == ([] + [first])[0..];
    if check {
      AllErrorsAppend([first], 0, Issued(QPR, page, read));
      assert [first][0..] == [first];
    }
  }

  lemma AllSwept(g: Geometry, check: bool, issued: seq<Issued>, cells0: Cells, cells: Cells, erased: bool,
                 error: Errors)
    requires g.Valid() && Swept(g, check, issued, cells0, cells, 0, erased, error)
    ensures error == AllErrors(issued)
    ensures error == NO_ERRORS ==> erased && cells == EraseCells(cells0, g.base, g.ArrayEnd())
    ensures forall a :: a in cells && g.InUserPage(a) ==> a in cells0 && cells[a] == cells0[a]
    ensures forall p :: 0 <= p < g.PageCount() ==> PageErased(g, issued, cells0, cells, p)
    ensures check && ReadsClean(issued) ==> (erased <==> IsBlank(cells, g.base, g.ArrayEnd()))
    ensures !check ==> erased
  {
    assert g.PageAddress(0) == g.base;
    AllDone(g, issued, cells0, cells);
  }

  lemma NothingErased(g: Geometry, cells: Cells)
    requires g.Valid()
    ensures ErasedFrom(g, [], cells, cells, g.PageCount())
  {
  }

  lemma AllDone(g: Geometry, issued: seq<Issued>, cells0: Cells, cells: Cells)
    requires 0 < g.page && ErasedFrom(g, issued, cells0, cells, 0)
    ensures forall p :: 0 <= p < g.PageCount() ==> PageErased(g, issued, cells0, cells, p)
  {
  }

  lemma NextPage(g: Geometry, page: nat)
    requires g.Valid() && page < g.PageCount()
    ensures g.PageAddress(page) + g.page == g.PageAddress(page + 1)
    ensures g.InArray(g.PageAddress(page)) && g.PageAddress(page + 1) <= g.ArrayEnd()
  {
    ProductBounds(g.PageCount() - page, g.page);
    assert g.ArrayEnd() - g.PageAddress(page) == (g.PageCount() - page) * g.page;
    assert 0 <= page * g.page;
  }
}
