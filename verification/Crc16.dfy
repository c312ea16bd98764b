/** What eight steps of the reflected CRC-16 do to the bits they only move. */
module CcittMoves {
  import opened CrcTheory
  import opened CcittSteps
  import opened Words16

  ghost predicate ShiftsAt(f: bv16 -> bv16, z: bv16, y: bv16) { y < 0x8000 ==> f(Xor(z, y << 1)) == Xor(f(z), y) }

  /** All but the lowest bit only move down. */
  ghost predicate Shifts(f: bv16 -> bv16) { forall z, y :: ShiftsAt(f, z, y) }

  lemma StepShiftsAt(z: bv16, y: bv16)
    ensures ShiftsAt(Step, z, y)
  {
    if y < 0x8000 { Down(z, y); }
  }

  lemma StepShifts()
    ensures Shifts(Step)
  {
    forall z, y ensures ShiftsAt(Step, z, y) { StepShiftsAt(z, y); }
  }

  lemma OneMoves(f: bv16 -> bv16, w: bv16, i: nat)
    requires Shifts(f) && w < 0x100 && i < 8
    ensures Moves(f, Xor, Shifted(w, i + 1), Shifted(w, i))
  {
    var y := Shifted(w, i);
    ShiftedOnce(w, i);
    if i < 4 { ShiftedFew(w, i); } else { ShiftedMore(w, i); }
    forall z: bv16 ensures f(Xor(z, y << 1)) == Xor(f(z), y) { assert ShiftsAt(f, z, y); }
  }

  lemma EightMoveOf(f: bv16 -> bv16, w: bv16)
    requires Shifts(f) && w < 0x100
    ensures Moves(Eight(f), Xor, w << 8, w)
  {
    var at := (i: nat) => Shifted(w, i);
    forall i: nat | i < 8 ensures Moves(f, Xor, at(i + 1), at(i)) { OneMoves(f, w, i); }
    EightMoveBack(f, Xor, at);
    assert at(8) == w << 8 && at(0) == w;
  }

  /** Eight steps take the upper byte of a register down by a byte. */
  lemma StepsMove(w: bv16)
    requires w < 0x100
    ensures Moves(Eight(Step), Xor, w << 8, w)
  {
    StepShifts();
    EightMoveOf(Step, w);
  }
}

/** lib/crc.c, crc16ccitt: the table loop against single-bit steps. */
module Ccitt {
  import opened CrcTheory
  import S = CcittSteps
  import T = CcittTable
  import W = CcittWords
  import M = CcittMoves
  import B = Words16

  /** The reflected CRC-16 of s, continued from register c, eight single-bit steps a byte. */
  function Crc(c: bv16, s: bytes): bv16 { Over(Eight(S.Step), W.Mix, c, s) }

  /** A byte's worth of steps takes w down by a byte. */
  ghost predicate MovesByte(f: bv16 -> bv16, w: bv16)
  {
    w < 0x100 ==> Moves(f, B.Xor, w << 8, w)
  }

  function Rest(c: bv16): bv16 { (c >> 8) << 8 }

  function Moved(c: bv16): bv16 { (c >> 8) & 0x00ff }

  const ENGINE: Engine<bv16> := Engine(B.Xor, W.Mix, W.Low, W.Index, Rest, Moved)

  lemma EntryIsSteps(x: bv8) ensures T.Entry(x) == Eight(S.Step)(W.Low(x)) {}

  lemma StepsMoveByte(w: bv16)
    ensures MovesByte(Eight(S.Step), w)
  {
    if w < 0x100 { M.StepsMove(w); }
  }

  lemma RestMoves(f: bv16 -> bv16, c: bv16)
    requires MovesByte(f, c >> 8)
    ensures Moves(f, B.Xor, Rest(c), Moved(c))
  {
    W.RestIsShort(c);
  }

  lemma TableServes()
    ensures Serves(ENGINE, T.ROWS, T.Entry, Eight(S.Step))
  {
    T.TableIsSteps();
    forall i: bv8 ensures T.Entry(i) == Eight(S.Step)(W.Low(i)) { EntryIsSteps(i); }
    forall c, b ensures SplitsAt(ENGINE, c, b) { W.Parts(c, b); }
    forall c ensures Moves(Eight(S.Step), B.Xor, Rest(c), Moved(c)) {
      StepsMoveByte(c >> 8);
      RestMoves(Eight(S.Step), c);
    }
  }

  /** crc16ccitt */
  method Crc16Ccitt(str: bytes) returns (crc: bv16)
    ensures crc == Crc(0xffff, str)
  {
    TableServes();
    crc := UpdateLoop(ENGINE, T.ROWS, 0xffff, str, T.Entry, Eight(S.Step));
  }
}

/** What eight steps of the highest-bit-first CRC-16 do to the bits they only move. */
module XmodemMoves {
  import opened CrcTheory
  import opened XmodemSteps
  import opened Words16

  ghost predicate ShiftsAt(f: bv16 -> bv16, z: bv16, y: bv16) { y < 0x8000 ==> f(Xor(z, y)) == Xor(f(z), y << 1) }

  /** All but the highest bit only move up. */
  ghost predicate Shifts(f: bv16 -> bv16) { forall z, y :: ShiftsAt(f, z, y) }

  lemma StepShiftsAt(z: bv16, y: bv16)
    ensures ShiftsAt(Step, z, y)
  {
    if y < 0x8000 { Up(z, y); }
  }

  lemma StepShifts()
    ensures Shifts(Step)
  {
    forall z, y ensures ShiftsAt(Step, z, y) { StepShiftsAt(z, y); }
  }

  lemma OneMoves(f: bv16 -> bv16, w: bv16, i: nat)
    requires Shifts(f) && w < 0x100 && i < 8
    ensures Moves(f, Xor, Shifted(w, i), Shifted(w, i + 1))
  {
    var y := Shifted(w, i);
    ShiftedOnce(w, i);
    if i < 4 { ShiftedFew(w, i); } else { ShiftedMore(w, i); }
    forall z: bv16 ensures f(Xor(z, y)) == Xor(f(z), y << 1) { assert ShiftsAt(f, z, y); }
  }

  lemma EightMoveOf(f: bv16 -> bv16, w: bv16)
    requires Shifts(f) && w < 0x100
    ensures Moves(Eight(f), Xor, w, w << 8)
  {
    var at := (i: nat) => Shifted(w, i);
    forall i: nat | i < 8 ensures Moves(f, Xor, at(i), at(i + 1)) { OneMoves(f, w, i); }
    EightMove(f, Xor, at);
    assert at(8) == w << 8 && at(0) == w;
  }

  /** Eight steps take the lower byte of a register up by a byte. */
  lemma StepsMove(w: bv16)
    requires w < 0x100
    ensures Moves(Eight(Step), Xor, w, w << 8)
  {
    StepShifts();
    EightMoveOf(Step, w);
  }
}

/** lib/crc.c, crc16xmodem: the table loop against single-bit steps. */
module Xmodem {
  import opened CrcTheory
  import S = XmodemSteps
  import T = XmodemTable
  import W = XmodemWords
  import M = XmodemMoves
  import B = Words16

  /** The CRC-16 of s, highest bit first, continued from register c, eight single-bit steps a byte. */
  function Crc(c: bv16, s: bytes): bv16 { Over(Eight(S.Step), W.Mix, c, s) }

  /** A byte's worth of steps takes w up by a byte. */
  ghost predicate MovesByte(f: bv16 -> bv16, w: bv16)
  {
    w < 0x100 ==> Moves(f, B.Xor, w, w << 8)
  }

  function Rest(c: bv16): bv16 { c & 0xff }

  function Moved(c: bv16): bv16 { c << 8 }

  const ENGINE: Engine<bv16> := Engine(B.Xor, W.Mix, W.High, W.Index, Rest, Moved)

  lemma EntryIsSteps(x: bv8) ensures T.Entry(x) == Eight(S.Step)(W.High(x)) {}

  lemma StepsMoveByte(w: bv16)
    ensures MovesByte(Eight(S.Step), w)
  {
    if w < 0x100 { M.StepsMove(w); }
  }

  lemma RestMoves(f: bv16 -> bv16, c: bv16)
    requires MovesByte(f, c & 0xff)
    ensures Moves(f, B.Xor, Rest(c), Moved(c))
  {
    W.RestIsShort(c);
  }

  lemma TableServes()
    ensures Serves(ENGINE, T.ROWS, T.Entry, Eight(S.Step))
  {
    T.TableIsSteps();
    forall i: bv8 ensures T.Entry(i) == Eight(S.Step)(W.High(i)) { EntryIsSteps(i); }
    forall c, b ensures SplitsAt(ENGINE, c, b) { W.Parts(c, b); }
    forall c ensures Moves(Eight(S.Step), B.Xor, Rest(c), Moved(c)) {
      StepsMoveByte(c & 0xff);
      RestMoves(Eight(S.Step), c);
    }
  }

  /** crc16xmodem */
  method Crc16Xmodem(str: bytes) returns (crc: bv16)
    ensures crc == Crc(0, str)
  {
    TableServes();
    crc := UpdateLoop(ENGINE, T.ROWS, 0, str, T.Entry, Eight(S.Step));
  }
}
