/**
Assignment to the general-purpose fuses (flashc.c, lines 429 to 613), although the hardware can only set
fuses by erasing them and clear fuses by writing them.
Fuses are numbered from the least significant bit; an erased fuse is true.
*/
module GpFuses {
  import opened Arith
  import opened Bits
  import opened Common
  import opened FlashHardware
  import opened FlashAccess

  // ----- Reads

  /** The fuses as the two 32-bit registers hold them. */
  function ReadAll(c: FlashController): nat
    reads c
    requires |c.fuses| == 64
  {
    FromBits(c.fuses[..32]) + 0x1_0000_0000 * FromBits(c.fuses[32..])
  }

  lemma ReadAllIsFuses(c: FlashController)
    requires |c.fuses| == 64
    ensures ReadAll(c) == FromBits(c.fuses)
  {
    Concat(c.fuses[..32], c.fuses[32..]);
    assert c.fuses[..32] + c.fuses[32..] == c.fuses;
    Pow2Of32();
  }

  lemma Pow2Of32()
    ensures Pow2(32) == 0x1_0000_0000
  {
    Pow2Plus8(0);
    Pow2Plus8(8);
    Pow2Plus8(16);
    Pow2Plus8(24);
  }

  lemma Pow2Plus8(n: nat)
    ensures Pow2(n + 8) == 256 * Pow2(n)
  {
    assert Pow2(n + 2) == 4 * Pow2(n) && Pow2(n + 4) == 4 * Pow2(n + 2);
    assert Pow2(n + 6) == 4 * Pow2(n + 4) && Pow2(n + 8) == 4 * Pow2(n + 6);
  }

  /** flashc_read_gp_fuse_bit. */
  function ReadBit(c: FlashController, bit: nat): bool
    requires |c.fuses| == 64
    reads c
  {
    Shr(ReadAll(c), bit % 64) % 2 == 1
  }

  lemma ReadBitIsFuse(c: FlashController, bit: nat)
    requires |c.fuses| == 64
    ensures ReadBit(c, bit) == c.fuses[bit % 64]
  {
    hide Shr, ReadAll, FromBits, Pow2;
    ReadAllIsFuses(c);
    ShrFromBits(c.fuses, bit % 64);
    LowestBit(c.fuses[bit % 64..]);
  }

  lemma LowestBit(bits: seq<bool>)
    requires bits != []
    ensures FromBits(bits) % 2 == 1 <==> bits[0]
  {
    Parity(if bits[0] then 1 else 0, FromBits(bits[1..]));
  }

  lemma Parity(bit: nat, rest: nat)
    requires bit < 2
    ensures (bit + 2 * rest) % 2 == bit
  {
  }

  function ReadBitfieldOf(all: nat, pos: nat, width: nat): nat {
    Shr(all, pos % 64) % Pow2(width)
  }

  /** A bit-field read is the fuses from pos on, cut off at the top of the register. */
  lemma ReadBitfieldBits(fuses: seq<bool>, pos: nat, width: nat)
    requires |fuses| == 64
    ensures ReadBitfieldOf(FromBits(fuses), pos, width) == FromBits(fuses[pos % 64..Min(pos % 64 + width, 64)])
  {
    hide Shr, Pow2, FromBits;
    var from := pos % 64;
    ShrFromBits(fuses, from);
    if from + width <= 64 {
      LowBits(fuses[from..], width);
      assert fuses[from..][..width] == fuses[from..from + width];
    } else {
      FromBitsBound(fuses[from..]);
      Pow2Monotonic(64 - from, width);
      ModUnique(FromBits(fuses[from..]), Pow2(width), 0, FromBits(fuses[from..]));
      assert fuses[from..64] == fuses[from..];
    }
  }

  // ----- Bits and bit-fields

  /** flashc_erase_gp_fuse_bit. */
  method EraseBit(c: FlashController, bit: nat, check: bool) returns (erased: bool)
    requires c.Valid()
    modifies c
    ensures c.Valid() && old(c.log) < c.log && c.errorStatus == AllErrors(c.log[|old(c.log)|..])
    ensures c.cells == old(c.cells) && c.burns == old(c.burns)
    ensures c.errorStatus == NO_ERRORS ==> erased && c.fuses == old(c.fuses)[bit % 64 := true]
    ensures erased <==> !check || c.fuses[bit % 64]
  {
    hide FromBits, Pow2, Shr, ReadAll, ReadBit;
    c.IssueCommand(EGPB, bit % 64);
    OneCommand(old(c.log), c.log[|old(c.log)|]);
    ReadBitIsFuse(c, bit);
    erased := if check then ReadBit(c, bit) else true;
  }

  /** flashc_write_gp_fuse_bit: a true value issues no command, so an older status stays in place. */
  method WriteBit(c: FlashController, bit: nat, value: bool)
    requires c.Valid()
    modifies c
    ensures c.Valid() && c.cells == old(c.cells) && c.burns == old(c.burns)
    ensures value ==> c.log == old(c.log) && c.errorStatus == old(c.errorStatus) && c.fuses == old(c.fuses)
    ensures !value ==> c.log == old(c.log) + [Issued(WGPB, bit % 64, c.errorStatus)]
    ensures !value ==> c.errorStatus == AllErrors(c.log[|old(c.log)|..])
    ensures !value && c.errorStatus == NO_ERRORS ==> c.fuses == old(c.fuses)[bit % 64 := false]
  {
    if !value {
      c.IssueCommand(WGPB, bit % 64);
      OneCommand(old(c.log), c.log[|old(c.log)|]);
    }
  }

  /** flashc_set_gp_fuse_bit. */
  method SetBit(c: FlashController, bit: nat, value: bool)
    requires c.Valid()
    modifies c
    ensures c.Valid() && old(c.log) < c.log && c.errorStatus == AllErrors(c.log[|old(c.log)|..])
    ensures c.cells == old(c.cells) && c.burns == old(c.burns)
    ensures c.errorStatus == NO_ERRORS ==> c.fuses == old(c.fuses)[bit % 64 := value]
  {
    if value {
      var _ := EraseBit(c, bit, false);
    } else {
      WriteBit(c, bit, false);
    }
  }

  /** The offset of fuse j in the bit-field that starts at pos and wraps at the top of the register. */
  function Offset(pos: nat, j: nat): (k: nat)
    requires pos < 64 && j < 64
    ensures k < 64 && (pos + k) % 64 == j
  {
    (j - pos) % 64
  }

  /** The fuses after the bit-field has been assigned: bit k goes to fuse pos + k, modulo 64; the others stay. */
  function Assigned(fuses: seq<bool>, pos: nat, bits: seq<bool>): seq<bool>
    requires |fuses| == 64 && pos < 64 && |bits| <= 64
  {
    seq(64, j requires 0 <= j < 64 => if Offset(pos, j) < |bits| then bits[Offset(pos, j)] else fuses[j])
  }

  lemma AssignNext(fuses: seq<bool>, pos: nat, bits: seq<bool>, k: nat)
    requires |fuses| == 64 && pos < 64 && k < |bits| <= 64
    ensures Assigned(fuses, pos, bits[..k])[(pos + k) % 64 := bits[k]] == Assigned(fuses, pos, bits[..k + 1])
  {
    var next := Assigned(fuses, pos, bits[..k])[(pos + k) % 64 := bits[k]];
    forall j | 0 <= j < 64
      ensures next[j] == Assigned(fuses, pos, bits[..k + 1])[j]
    {
      assert Offset(pos, j) == k <==> j == (pos + k) % 64;
    }
  }

  /** flashc_set_gp_fuse_bitfield. */
  method SetBitfield(c: FlashController, pos0: nat, width0: nat, value0: nat)
    requires c.Valid() && width0 < 0x8000_0000
    modifies c
    ensures c.Valid() && old(c.log) <= c.log && c.errorStatus == AllErrors(c.log[|old(c.log)|..])
    ensures c.cells == old(c.cells) && c.burns == old(c.burns)
    ensures c.errorStatus == NO_ERRORS ==> c.fuses == Assigned(old(c.fuses), pos0 % 64, BitsOf(value0, Min(width0, 64)))
  {
    var error := NO_ERRORS;
    var pos, width, value := pos0 % 64, Min(width0, 64), value0;
    var bit := pos;
    ghost var bits := BitsOf(value0, width);
    NoCommands(c.log);
    NothingAssigned(c.fuses, pos, bits);
    while bit < pos + width
      invariant pos <= bit <= pos + width && c.Valid() && value == Shr(value0, bit - pos)
      invariant old(c.log) <= c.log && error == AllErrors(c.log[|old(c.log)|..])
      invariant c.cells == old(c.cells) && c.burns == old(c.burns)
      invariant error == NO_ERRORS ==> c.fuses == Assigned(old(c.fuses), pos, bits[..bit - pos])
    {
      ghost var log1 := c.log;
      BitsOfBit(value0, width, bit - pos);
      AssignNext(old(c.fuses), pos, bits, bit - pos);
      ShrTwice(value0, bit - pos, 1);
      SetBit(c, bit, value % 2 == 1);
      error := error.Or(c.errorStatus);
      ErrorsAddUp(|old(c.log)|, log1, c.log);
      bit, value := bit + 1, value / 2;
    }
    assert bits[..width] == bits;
    c.errorStatus := error;
  }

  /**
   Setting a bit-field and reading it back gives the value modulo 2^width exactly when the field does not
   run past the top of the register, or the part that wraps around is zero. The other fuses stay.
   */
  lemma BitfieldRoundTrip(fuses: seq<bool>, pos: nat, width: nat, value: nat)
    requires |fuses| == 64 && pos < 64 && width < 64
    ensures var after := Assigned(fuses, pos, BitsOf(value, width));
      && (ReadBitfieldOf(FromBits(after), pos, width) == value % Pow2(width) <==>
          pos + width <= 64 || value % Pow2(width) < Pow2(64 - pos))
      && forall j :: 0 <= j < 64 && Offset(pos, j) >= width ==> after[j] == fuses[j]
  {
    hide Shr, Pow2, FromBits, BitsOf, ReadBitfieldOf;
    var bits := BitsOf(value, width);
    var after := Assigned(fuses, pos, bits);
    ReadBitfieldBits(after, pos, width);
    FromBitsOf(value, width);
    var room := Min(width, 64 - pos);
    AssignedSlice(fuses, pos, bits, room);
    if pos + width <= 64 {
      assert bits[..room] == bits;
    } else {
      TruncatedRead(bits, room);
    }
  }

  lemma AssignedSlice(fuses: seq<bool>, pos: nat, bits: seq<bool>, room: nat)
    requires |fuses| == 64 && pos < 64 && |bits| <= 64 && room <= |bits| && pos + room <= 64
    ensures Assigned(fuses, pos, bits)[pos..pos + room] == bits[..room]
  {
    forall i | 0 <= i < room
      ensures Assigned(fuses, pos, bits)[pos + i] == bits[i]
    {
      assert Offset(pos, pos + i) == i;
    }
  }

  /** Cutting a number off at w bits keeps it exactly when it is below 2^w. */
  lemma TruncatedRead(bits: seq<bool>, w: nat)
    requires w <= |bits|
    ensures FromBits(bits[..w]) == FromBits(bits) <==> FromBits(bits) < Pow2(w)
  {
    hide Pow2, FromBits;
    FromBitsBound(bits[..w]);
    LowBits(bits, w);
    if FromBits(bits) < Pow2(w) {
      ModUnique(FromBits(bits), Pow2(w), 0, FromBits(bits));
    }
  }

  /** A field that wraps is not read back: one wrapped bit is lost. */
  lemma WrappedFieldIsLost(fuses: seq<bool>)
    requires |fuses| == 64
    ensures ReadBitfieldOf(FromBits(Assigned(fuses, 63, BitsOf(2, 2))), 63, 2) != 2 % Pow2(2)
  {
    BitfieldRoundTrip(fuses, 63, 2, 2);
    assert Pow2(2) == 4 && Pow2(1) == 2;
  }

  predicate IsSet(v: nat, k: nat) {
    Shr(v, k) % 2 == 1
  }

  /**
   The status that flashc_write_gp_fuse_bitfield leaves: a leading 1 bit ORs the status of an earlier call into it.
   */
  ghost function WriteFieldStatus(width: nat, value: nat, before: Errors, issued: seq<Issued>): Errors {
    AllErrors(issued).Or(if width > 0 && value % 2 == 1 then before else NO_ERRORS)
  }

  /**
   The commands it issues for a field at pos that is as wide as there are answers: one for each 0 bit of the value, to
   which the hardware answers with errors. The answers at the 1 bits are not used.
   */
  ghost function FieldCommands(pos: nat, value: nat, answers: seq<Errors>): seq<Issued> {
    if answers == [] then []
    else
      var k := |answers| - 1;
      FieldCommands(pos, value, answers[..k]) +
      if IsSet(value, k) then [] else [Issued(WGPB, (pos + k) % 64, answers[k])]
  }

  /** It is the status of its own commands, whatever the hardware answers and answered, exactly when no 1 bit leads. */
  lemma WriteFieldStatusIff(pos: nat, width: nat, value: nat)
    ensures (forall before, answers | |answers| == width ::
              var issued := FieldCommands(pos, value, answers);
              WriteFieldStatus(width, value, before, issued) == AllErrors(issued)) <==>
            width == 0 || value % 2 == 0
  {
    if width > 0 && value % 2 == 1 {
      var locked, answers := Errors(true, false), seq(width, _ => NO_ERRORS);
      CleanAnswers(pos, value, width);
      assert |answers| == width && WriteFieldStatus(width, value, locked, FieldCommands(pos, value, answers)) == locked;
    }
  }

  lemma {:induction false} CleanAnswers(pos: nat, value: nat, width: nat)
    ensures AllErrors(FieldCommands(pos, value, seq(width, _ => NO_ERRORS))) == NO_ERRORS
  {
    if width > 0 {
      var answers := seq(width - 1, _ => NO_ERRORS);
      assert seq(width, _ => NO_ERRORS) == answers + [NO_ERRORS];
      CleanAnswers(pos, value, width - 1);
      NextCommand(pos, value, answers, NO_ERRORS);
      var issued := FieldCommands(pos, value, answers);
      var last := Issued(WGPB, (pos + width - 1) % 64, NO_ERRORS);
      AllErrorsAppend(issued, 0, last);
      assert issued[0..] == issued == issued + [] && (issued + [last])[0..] == issued + [last];
    }
  }

  /** Writing a single 1 bit issues no command, and reports the error of an earlier call as its own. */
  method StaleStatus(c: FlashController)
    requires c.Valid() && c.errorStatus == Errors(true, false)
    modifies c
    ensures c.log == old(c.log) && AllErrors(c.log[|old(c.log)|..]) == NO_ERRORS && c.errorStatus == Errors(true, false)
  {
    NoCommands(c.log);
    ghost var answers := WriteBitfield(c, 0, 1, 1);
    assert IsSet(1, 0) && answers[..0] == [];
  }

  /** flashc_write_gp_fuse_bitfield: clears the fuses whose value bit is 0. */
  method WriteBitfield(c: FlashController, pos0: nat, width0: nat, value0: nat) returns (ghost answers: seq<Errors>)
    requires c.Valid() && width0 < 0x8000_0000
    modifies c
    ensures c.Valid() && old(c.log) <= c.log && c.cells == old(c.cells) && c.burns == old(c.burns)
    ensures c.errorStatus == WriteFieldStatus(width0, value0, old(c.errorStatus), c.log[|old(c.log)|..])
    ensures |answers| == Min(width0, 64) && c.log == old(c.log) + FieldCommands(pos0 % 64, value0, answers)
    ensures AllErrors(c.log[|old(c.log)|..]) == NO_ERRORS ==>
      c.fuses == Assigned(old(c.fuses), pos0 % 64, Anded(old(c.fuses), pos0 % 64, BitsOf(value0, Min(width0, 64))))
  {
    assert FieldCommands(pos0 % 64, value0, []) == [] && Shr(value0, 0) == value0 && AllErrors([]) == NO_ERRORS;
    hide Assigned, Anded, AllErrors, BitsOf, FieldWritten, FieldCommands, Shr, IsSet, WriteFieldStatus;
    var error := NO_ERRORS;
    var pos, width, value := pos0 % 64, Min(width0, 64), value0;
    var bit := pos;
    ghost var bits := BitsOf(value0, width);
    ghost var fuses0, before, log0, issued := c.fuses, c.errorStatus, c.log, [];
    NoneWritten(c, pos, bits);
    answers := [];
    while bit < pos + width
      invariant pos <= bit <= pos + width && c.Valid() && value == Shr(value0, bit - pos)
      invariant c.cells == old(c.cells) && c.burns == old(c.burns)
      invariant |answers| == bit - pos && c.log == log0 + issued && issued == FieldCommands(pos, value0, answers)
      invariant FieldWritten(fuses0, c.fuses, pos, bits, bit - pos, AllErrors(issued), error, before, c.errorStatus)
    {
      ghost var k, fuses1, log1, issued1, error1, status1 := bit - pos, c.fuses, c.log, issued, error, c.errorStatus;
      NextBit(value0, width, k);
      error := WriteFieldBit(c, bit, value % 2 == 1, error);
      issued := IssuedNext(log0, log1, c.log, issued1, pos, value0, answers, c.errorStatus);
      WrittenNext(fuses0, fuses1, c.fuses, pos, bits, k, AllErrors(issued1), AllErrors(issued),
                  error1, error, before, status1, c.errorStatus);
      answers := answers + [c.errorStatus];
      bit, value := bit + 1, value / 2;
    }
    assert c.log[|log0|..] == issued;
    AllWritten(fuses0, c.fuses, pos, bits, value0, issued, error, before, c.errorStatus);
    NoBits(width0, value0, before, issued);
    c.errorStatus := error;
  }

  lemma NextBit(value: nat, width: nat, k: nat)
    requires k < width
    ensures BitsOf(value, width)[k] == IsSet(value, k) == (Shr(value, k) % 2 == 1)
    ensures Shr(value, k) / 2 == Shr(value, k + 1)
  {
    BitsOfBit(value, width, k);
    ShrTwice(value, k, 1);
  }

  lemma NoBits(width: nat, value: nat, before: Errors, issued: seq<Issued>)
    ensures WriteFieldStatus(width, value, before, issued) ==
            WriteFieldStatus(Min(width, 64), value, before, issued)
  {
  }

  lemma NextCommand(pos: nat, value: nat, answers: seq<Errors>, answer: Errors)
    ensures var k := |answers|;
      FieldCommands(pos, value, answers + [answer]) ==
      FieldCommands(pos, value, answers) + if IsSet(value, k) then [] else [Issued(WGPB, (pos + k) % 64, answer)]
  {
    assert (answers + [answer])[..|answers|] == answers;
  }

  lemma IssuedNext(log0: seq<Issued>, log1: seq<Issued>, log2: seq<Issued>, issued: seq<Issued>, pos: nat, value: nat,
                   answers: seq<Errors>, answer: Errors)
    returns (issued': seq<Issued>)
    requires log1 == log0 + issued && issued == FieldCommands(pos, value, answers)
    requires var k := |answers|; log2 == log1 + if IsSet(value, k) then [] else [Issued(WGPB, (pos + k) % 64, answer)]
    ensures log2 == log0 + issued' && issued' == FieldCommands(pos, value, answers + [answer])
    ensures AllErrors(issued') == if IsSet(value, |answers|) then AllErrors(issued) else AllErrors(issued).Or(answer)
  {
    hide FieldCommands, IsSet, AllErrors, Shr;
    NextCommand(pos, value, answers, answer);
    issued' := FieldCommands(pos, value, answers + [answer]);
    if IsSet(value, |answers|) {
      assert issued' == issued;
    } else {
      var last := Issued(WGPB, (pos + |answers|) % 64, answer);
      AllErrorsAppend(issued, 0, last);
      assert issued[0..] == issued && (issued + [last])[0..] == issued' == issued + [last];
    }
  }

  /** After k turns of the loop: the fuses, the errors of the commands so far, the accumulated error and the status. */
  ghost predicate FieldWritten(fuses0: seq<bool>, fuses: seq<bool>, pos: nat, bits: seq<bool>, k: nat,
                               errors: Errors, error: Errors, before: Errors, status: Errors)
  {
    && |fuses0| == 64 && pos < 64 && k <= |bits| <= 64
    && (k == 0 ==> error == NO_ERRORS && errors == NO_ERRORS && status == before)
    && (k > 0 ==> error == errors.Or(if bits[0] then before else NO_ERRORS) && error.Or(status) == error)
    && (errors == NO_ERRORS ==> fuses == Assigned(fuses0, pos, Anded(fuses0, pos, bits)[..k]))
  }

  lemma NoneWritten(c: FlashController, pos: nat, bits: seq<bool>)
    requires c.Valid() && pos < 64 && |bits| <= 64
    ensures FieldWritten(c.fuses, c.fuses, pos, bits, 0, NO_ERRORS, NO_ERRORS, c.errorStatus, c.errorStatus)
  {
    NothingAssigned(c.fuses, pos, Anded(c.fuses, pos, bits));
  }

  lemma WrittenNext(fuses0: seq<bool>, fuses: seq<bool>, fuses': seq<bool>, pos: nat, bits: seq<bool>, k: nat,
                    errors: Errors, errors': Errors, error: Errors, error': Errors,
                    before: Errors, status: Errors, status': Errors)
    requires FieldWritten(fuses0, fuses, pos, bits, k, errors, error, before, status) && k < |bits|
    requires error' == error.Or(status')
    requires if bits[k] then fuses' == fuses && errors' == errors && status' == status
             else errors' == errors.Or(status') && |fuses| == 64 &&
                  (status' == NO_ERRORS ==> fuses' == fuses[(pos + k) % 64 := false])
    ensures FieldWritten(fuses0, fuses', pos, bits, k + 1, errors', error', before, status')
  {
    hide Assigned, BitsOf;
    var field := Anded(fuses0, pos, bits);
    AssignNext(fuses0, pos, field, k);
    if bits[k] {
      Reassigned(fuses0, pos, field, k);
    }
  }

  lemma AllWritten(fuses0: seq<bool>, fuses: seq<bool>, pos: nat, bits: seq<bool>, value: nat,
                   issued: seq<Issued>, error: Errors, before: Errors, status: Errors)
    requires bits == BitsOf(value, |bits|) &&
             FieldWritten(fuses0, fuses, pos, bits, |bits|, AllErrors(issued), error, before, status)
    ensures error == WriteFieldStatus(|bits|, value, before, issued)
    ensures AllErrors(issued) == NO_ERRORS ==> fuses == Assigned(fuses0, pos, Anded(fuses0, pos, bits))
  {
    hide Assigned;
    var field := Anded(fuses0, pos, bits);
    assert field[..|bits|] == field;
    if bits != [] {
      BitsOfBit(value, |bits|, 0);
      assert Shr(value, 0) == value;
    }
  }

  /** One turn of its loop: one command and its status, or none and the status found. */
  method WriteFieldBit(c: FlashController, bit: nat, value: bool, error0: Errors) returns (error: Errors)
    requires c.Valid()
    modifies c
    ensures c.Valid() && old(c.log) <= c.log && c.cells == old(c.cells) && c.burns == old(c.burns)
    ensures error == error0.Or(c.errorStatus) && |old(c.fuses)| == 64
    ensures value ==> c.log == old(c.log) && c.errorStatus == old(c.errorStatus) && c.fuses == old(c.fuses)
    ensures c.log == old(c.log) + if value then [] else [Issued(WGPB, bit % 64, c.errorStatus)]
    ensures !value && c.errorStatus == NO_ERRORS ==> c.fuses == old(c.fuses)[bit % 64 := false]
  {
    WriteBit(c, bit, value);
    error := error0.Or(c.errorStatus);
  }

  lemma NoCommands(log: seq<Issued>)
    ensures AllErrors(log[|log|..]) == NO_ERRORS
  {
  }

  lemma NothingAssigned(fuses: seq<bool>, pos: nat, bits: seq<bool>)
    requires |fuses| == 64 && pos < 64
    ensures Assigned(fuses, pos, bits[..0]) == fuses
  {
  }

  /** What a write of bits leaves in the field: the old fuses ANDed with the bits. */
  function Anded(fuses: seq<bool>, pos: nat, bits: seq<bool>): (r: seq<bool>)
    requires |fuses| == 64 && |bits| <= 64
    ensures |r| == |bits|
  {
    seq(|bits|, k requires 0 <= k < |bits| => fuses[(pos + k) % 64] && bits[k])
  }

  /** Assigning a fuse its own value changes nothing. */
  lemma Reassigned(fuses: seq<bool>, pos: nat, bits: seq<bool>, k: nat)
    requires |fuses| == 64 && pos < 64 && k < |bits| <= 64 && bits[k] == fuses[(pos + k) % 64]
    ensures Assigned(fuses, pos, bits[..k])[(pos + k) % 64 := bits[k]] == Assigned(fuses, pos, bits[..k])
  {
    assert Offset(pos, (pos + k) % 64) == k;
  }

  /**
   flashc_erase_gp_fuse_bitfield: sets every fuse of the field. Its check compares a read that is cut off at the
   top of the register, so for a field that wraps it reports a failure although every fuse was erased.
   */
  method EraseBitfield(c: FlashController, pos0: nat, width0: nat, check: bool) returns (erased: bool)
    requires c.Valid() && width0 < 0x8000_0000 && (check ==> width0 < 64)
    modifies c
    ensures c.Valid() && old(c.log) <= c.log && c.errorStatus == AllErrors(c.log[|old(c.log)|..])
    ensures c.cells == old(c.cells) && c.burns == old(c.burns)
    ensures c.errorStatus == NO_ERRORS ==>
      && c.fuses == Assigned(old(c.fuses), pos0 % 64, Trues(Min(width0, 64)))
      && (erased <==> !check || pos0 % 64 + width0 <= 64)
  {
    hide Assigned, AllErrors, ReadBitfieldOf, Pow2;
    var error := NO_ERRORS;
    var pos, width := pos0 % 64, Min(width0, 64);
    var bit := pos;
    ghost var bits := Trues(width);
    NoCommands(c.log);
    NothingAssigned(c.fuses, pos, bits);
    while bit < pos + width
      invariant pos <= bit <= pos + width && c.Valid()
      invariant old(c.log) <= c.log && error == AllErrors(c.log[|old(c.log)|..])
      invariant c.cells == old(c.cells) && c.burns == old(c.burns)
      invariant error == NO_ERRORS ==> c.fuses == Assigned(old(c.fuses), pos, bits[..bit - pos])
    {
      ghost var log1 := c.log;
      AssignNext(old(c.fuses), pos, bits, bit - pos);
      var _ := EraseBit(c, bit, false);
      error := error.Or(c.errorStatus);
      ErrorsAddUp(|old(c.log)|, log1, c.log);
      bit := bit + 1;
    }
    assert bits[..width] == bits;
    c.errorStatus := error;
    erased := true;
    if check {
      ReadAllIsFuses(c);
      erased := ReadBitfieldOf(ReadAll(c), pos, width) == Pow2(width) - 1;
      ErasedFieldRead(old(c.fuses), pos, width);
    }
  }

  lemma ErasedFieldRead(fuses: seq<bool>, pos: nat, width: nat)
    requires |fuses| == 64 && pos < 64 && width < 64
    ensures ReadBitfieldOf(FromBits(Assigned(fuses, pos, Trues(width))), pos, width) == Pow2(width) - 1 <==>
            pos + width <= 64
  {
    hide Assigned, ReadBitfieldOf, FromBits, BitsOf;
    var bits, value := Trues(width), Pow2(width) - 1;
    TruesValue(width);
    BitsOfFromBits(bits);
    BitfieldRoundTrip(fuses, pos, width, value);
    ModUnique(value, Pow2(width), 0, value);
    if pos + width > 64 {
      Pow2Monotonic(64 - pos + 1, width);
    }
  }

  /** Both fuses of a field at position 63 are erased, and the check reports that they are not. */
  lemma WrappedEraseReportsFailure(fuses: seq<bool>)
    requires |fuses| == 64
    ensures var after := Assigned(fuses, 63, Trues(2));
      after[63] && after[0] && ReadBitfieldOf(FromBits(after), 63, 2) != Pow2(2) - 1
  {
    ErasedFieldRead(fuses, 63, 2);
    assert Offset(63, 63) == 0 && Offset(63, 0) == 1;
  }

  function Trues(n: nat): seq<bool> {
    seq(n, _ => true)
  }

  lemma {:induction false} TruesValue(n: nat)
    ensures FromBits(Trues(n)) == Pow2(n) - 1
  {
    if n > 0 {
      assert Trues(n)[1..] == Trues(n - 1);
      TruesValue(n - 1);
    }
  }
}
