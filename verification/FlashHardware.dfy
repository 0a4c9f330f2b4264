/**
The flash controller as the driver sees it: a flash array and a User page mapped into one address
space, a page buffer that stores can only clear bits in, a current page number, 64 general-purpose
fuses, and commands that report error bits.
*/
module FlashHardware {
  import opened Arith
  import opened Bits
  import opened Common

  const ERASED: Byte := 0xFF

  /** Flash memory by absolute address. */
  type Cells = map<int, Byte>

  datatype Geometry = Geometry(base: int, size: int, user: int, page: int) {
    ghost predicate Valid() {
      && 0 < page && page % 8 == 0
      && 0 < size
      && base % page == 0 && size % page == 0 && user % page == 0
      && base + size <= user
    }

    function ArrayEnd(): int { base + size }

    predicate InArray(a: int) { base <= a < ArrayEnd() }

    predicate InUserPage(a: int) { user <= a < user + page }

    predicate InFlash(a: int) { InArray(a) || InUserPage(a) }

    function PageCount(): int
      requires 0 < page
    {
      size / page
    }

    /** The address of page number n of the flash array. */
    function PageAddress(n: int): int { base + n * page }

    /** b is the first address of a page of the array, or of the User page. */
    ghost predicate IsPage(b: int)
      requires 0 < page
    {
      b % page == 0 && InFlash(b)
    }
  }

  /** The error bits of the status register: a lock error and a programming error. */
  datatype Errors = Errors(locked: bool, programming: bool) {
    function Or(other: Errors): Errors {
      Errors(locked || other.locked, programming || other.programming)
    }
  }

  const NO_ERRORS := Errors(false, false)

  /** The controller's commands, by their mnemonics. */
  datatype Command =
    | CPB | EP | WP | EUP | WUP
    | QPR | QPRUP
    | EGPB | WGPB | PGPFB | EAGPF

  /** One issued command, with the page-number field it ran with and the error bits it raised. */
  datatype Issued = Issued(command: Command, argument: int, errors: Errors)

  /** One write of the page buffer to flash: which page, and the double-word stores made since the last clear. */
  datatype Burn = Burn(page: int, stores: seq<int>)

  /** The OR of the error bits of every command in the log. */
  ghost function AllErrors(log: seq<Issued>): Errors {
    if log == [] then NO_ERRORS else AllErrors(log[..|log| - 1]).Or(log[|log| - 1].errors)
  }

  lemma AllErrorsAppend(log: seq<Issued>, n: nat, x: Issued)
    requires n <= |log|
    ensures AllErrors((log + [x])[n..]) == AllErrors(log[n..]).Or(x.errors)
  {
    assert (log + [x])[n..] == log[n..] + [x];
    assert (log[n..] + [x])[..|log| - n] == log[n..];
  }

  /** Consecutive double-word addresses: count of them, from start. */
  ghost function Slots(start: int, count: nat): seq<int> {
    seq(count, i => start + 8 * i)
  }

  function Ones(n: nat): seq<Byte> {
    seq(n, _ => ERASED)
  }

  /** An erase sets every bit of the cells in [lo, hi). */
  function EraseCells(cells: Cells, lo: int, hi: int): Cells {
    map a | a in cells :: if lo <= a < hi then ERASED else cells[a]
  }

  /** A write can only clear bits: it ANDs the page buffer into the page at lo. */
  function BurnCells(cells: Cells, lo: int, buffer: seq<Byte>): Cells {
    map a | a in cells :: if lo <= a < lo + |buffer| then cells[a] & buffer[a - lo] else cells[a]
  }

  /** A store to the page buffer can only clear bits. */
  function AndInto(buffer: seq<Byte>, at: nat, v: seq<Byte>): seq<Byte>
    requires at + |v| <= |buffer|
  {
    seq(|buffer|, i requires 0 <= i < |buffer| =>
      if at <= i < at + |v| then buffer[i] & v[i - at] else buffer[i])
  }

  function CellsAfter(g: Geometry, cells: Cells, buffer: seq<Byte>, command: Command, argument: int): Cells
    requires 0 < g.page
    ensures CellsAfter(g, cells, buffer, command, argument).Keys == cells.Keys
  {
    var lo := g.PageAddress(argument);
    match command
    case EP => if g.InArray(lo) then EraseCells(cells, lo, lo + g.page) else cells
    case WP => if g.InArray(lo) then BurnCells(cells, lo, buffer) else cells
    case EUP => EraseCells(cells, g.user, g.user + g.page)
    case WUP => BurnCells(cells, g.user, buffer)
    case _ => cells
  }

  /** Erasing a fuse sets it; writing one clears it; a byte write clears the fuses whose value bit is 0. */
  function FusesAfter(fuses: seq<bool>, command: Command, argument: nat): seq<bool>
    requires |fuses| == 64
    ensures |FusesAfter(fuses, command, argument)| == 64
  {
    match command
    case EGPB => fuses[argument % 64 := true]
    case WGPB => fuses[argument % 64 := false]
    case PGPFB =>
      var at := 8 * (argument % 8);
      var value := BitsOf(argument / 8, 8);
      seq(64, i requires 0 <= i < 64 => if at <= i < at + 8 then fuses[i] && value[i - at] else fuses[i])
    case EAGPF => seq(64, _ => true)
    case _ => fuses
  }

  ghost predicate IsBlank(cells: Cells, lo: int, hi: int) {
    forall a :: a in cells && lo <= a < hi ==> cells[a] == ERASED
  }

  predicate AllErased(cells: Cells, lo: int, n: nat)
    ensures AllErased(cells, lo, n) <==> IsBlank(cells, lo, lo + n)
  {
    forall a | a in cells.Keys :: lo <= a < lo + n ==> cells[a] == ERASED
  }

  class FlashController {
    const g: Geometry
    var cells: Cells
    var buffer: seq<Byte>
    var pageNumber: nat
    var fuses: seq<bool>
    // The QPRR status bit: whether the last page that was quick-read was blank.
    var pageBlank: bool
    // The sticky status kept by the driver.
    var errorStatus: Errors
    ghost var log: seq<Issued>
    ghost var stores: seq<int>
    ghost var burns: seq<Burn>

    ghost predicate Valid()
      reads this
    {
      && g.Valid()
      && (forall a :: a in cells <==> g.InFlash(a))
      && |buffer| == g.page
      && |fuses| == 64
    }

    constructor (g: Geometry, cells: Cells, buffer: seq<Byte>, fuses: seq<bool>)
      requires g.Valid() && |buffer| == g.page && |fuses| == 64
      requires forall a :: a in cells <==> g.InFlash(a)
      ensures Valid() && this.g == g && this.cells == cells && this.buffer == buffer && this.fuses == fuses
      ensures errorStatus == NO_ERRORS && log == [] && stores == [] && burns == []
    {
      this.g, this.cells, this.buffer, this.fuses := g, cells, buffer, fuses;
      pageNumber, pageBlank, errorStatus := 0, false, NO_ERRORS;
      log, stores, burns := [], [], [];
    }

    /** What the hardware holds once a command has run: an erroneous command has no effect. */
    ghost predicate Ran(command: Command, argument: nat, errors: Errors, cells0: Cells, buffer0: seq<Byte>,
                        fuses0: seq<bool>)
      requires |fuses0| == 64 && 0 < g.page
      reads this
    {
      var ok := errors == NO_ERRORS;
      && cells == (if ok then CellsAfter(g, cells0, buffer0, command, argument) else cells0)
      && buffer == (if ok && command == CPB then Ones(g.page) else buffer0)
      && fuses == (if ok then FusesAfter(fuses0, command, argument) else fuses0)
    }

    /** The hardware's side of a command: it runs with the current page number, or raises error bits. */
    method Execute(command: Command)
      requires Valid()
      modifies this`cells, this`buffer, this`fuses, this`pageBlank, this`errorStatus
      ensures Valid()
      ensures Ran(command, pageNumber, errorStatus, old(cells), old(buffer), old(fuses))
      ensures errorStatus == NO_ERRORS ==> Read(command, pageNumber)
    {
      assert 0 < g.page;
      hide CellsAfter, FusesAfter, IsBlank, Geometry.Valid, Geometry.PageAddress;
      errorStatus := *;
      if errorStatus == NO_ERRORS {
        cells := CellsAfter(g, cells, buffer, command, pageNumber);
        fuses := FusesAfter(fuses, command, pageNumber);
        if command == CPB {
          buffer := Ones(g.page);
        } else if command == QPR {
          pageBlank := AllErased(cells, g.PageAddress(pageNumber), g.page);
        } else if command == QPRUP {
          pageBlank := AllErased(cells, g.user, g.page);
        }
      }
    }

    /** What the quick-read commands tell. */
    ghost predicate Read(command: Command, argument: nat)
      reads this
    {
      match command
      case QPR => pageBlank <==> IsBlank(cells, g.PageAddress(argument), g.PageAddress(argument) + g.page)
      case QPRUP => pageBlank <==> IsBlank(cells, g.user, g.user + g.page)
      case _ => true
    }

    /** flashc_issue_command: a negative page keeps the current page number. */
    method IssueCommand(command: Command, page: int)
      requires Valid()
      modifies this
      ensures Valid()
      ensures pageNumber == if page >= 0 then page else old(pageNumber)
      ensures log == old(log) + [Issued(command, pageNumber, errorStatus)]
      ensures Ran(command, pageNumber, errorStatus, old(cells), old(buffer), old(fuses))
      ensures errorStatus == NO_ERRORS ==> Read(command, pageNumber)
      ensures stores == if command == CPB then [] else old(stores)
      ensures burns == match command
        case WP => old(burns) + [Burn(g.PageAddress(pageNumber), old(stores))]
        case WUP => old(burns) + [Burn(g.user, old(stores))]
        case _ => old(burns)
    {
      hide CellsAfter, FusesAfter, IsBlank, Geometry.Valid, Geometry.PageAddress;
      if page >= 0 {
        pageNumber := page;
      }
      Execute(command);
      log := log + [Issued(command, pageNumber, errorStatus)];
      burns := match command
        case WP => burns + [Burn(g.PageAddress(pageNumber), stores)]
        case WUP => burns + [Burn(g.user, stores)]
        case _ => burns;
      stores := if command == CPB then [] else stores;
    }

    /** A load from flash. */
    function LoadDword(a: int): (v: seq<Byte>)
      requires forall b :: a <= b < a + 8 ==> b in cells
      reads this
      ensures |v| == 8
    {
      var m := cells;
      seq(8, i requires 0 <= i < 8 => m[a + i])
    }

    /**
     A 64-bit store to a flash address goes to the page buffer. A store to the flash array also moves
     the page-number field to the page stored to.
     */
    method StoreDword(a: int, v: seq<Byte>)
      requires Valid() && g.InFlash(a) && a % 8 == 0 && |v| == 8
      modifies this`buffer, this`pageNumber, this`stores
      ensures Valid() && AlignDown(a, g.page) <= a <= AlignDown(a, g.page) + g.page - 8
      ensures buffer == AndInto(old(buffer), a - AlignDown(a, g.page), v)
      ensures stores == old(stores) + [a]
      ensures g.InArray(a) ==> g.PageAddress(pageNumber) == AlignDown(a, g.page)
    {
      SlotInPage(g, a);
      buffer := AndInto(buffer, a % g.page, v);
      stores := stores + [a];
      if g.InArray(a) {
        PageNumberOf(g, a);
        pageNumber := (AlignDown(a, g.page) - g.base) / g.page;
      }
    }
  }

  lemma SlotInPage(g: Geometry, a: int)
    requires g.Valid() && a % 8 == 0
    ensures a % g.page + 8 <= g.page
  {
    var b := AlignDown(a, g.page);
    AlignDownIsAligned(a, g.page);
    MultipleOfDivisor(b, g.page, 8);
    SumOfMultiples(b, g.page, 8);
    MultiplesApart(a, b + g.page, 8);
  }

  lemma PageNumberOf(g: Geometry, a: int)
    requires g.Valid() && g.base <= a
    ensures 0 <= (AlignDown(a, g.page) - g.base) / g.page
    ensures g.PageAddress((AlignDown(a, g.page) - g.base) / g.page) == AlignDown(a, g.page)
  {
    var b := AlignDown(a, g.page);
    AlignDownIsAligned(a, g.page);
    SumOfMultiples(b, g.base, g.page);
    if b < g.base {
      MultiplesApart(b, g.base, g.page);
    }
  }

  /** A page of the array or the User page lies wholly in its area, and holds whole double-words. */
  lemma PageInFlash(g: Geometry, b: int)
    requires g.Valid() && g.IsPage(b)
    ensures g.InArray(b) ==> b + g.page <= g.ArrayEnd()
    ensures g.InUserPage(b) ==> b == g.user
    ensures b % 8 == 0 && (b + g.page) % 8 == 0
    ensures forall a :: b <= a < b + g.page ==> g.InFlash(a)
  {
    MultipleOfDivisor(b, g.page, 8);
    SumOfMultiples(b, g.page, 8);
    SumOfMultiples(g.base, g.size, g.page);
    if g.InArray(b) {
      MultiplesApart(b, g.ArrayEnd(), g.page);
    } else if g.user < b {
      MultiplesApart(g.user, b, g.page);
    }
  }

  /** Every flash address lies in exactly one page. */
  lemma PageOf(g: Geometry, a: int)
    requires g.Valid() && g.InFlash(a)
    ensures g.IsPage(AlignDown(a, g.page))
    ensures g.InArray(a) <==> g.InArray(AlignDown(a, g.page))
  {
    var b := AlignDown(a, g.page);
    AlignDownIsAligned(a, g.page);
    if b < g.base {
      MultiplesApart(b, g.base, g.page);
    }
    if b < g.user && g.user <= a {
      MultiplesApart(b, g.user, g.page);
    }
  }
}
