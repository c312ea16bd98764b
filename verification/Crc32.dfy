/** What eight steps of the CRC-32 do to the bits they only move. */
module Crc32Moves {
  import opened CrcTheory
  import opened Crc32Steps
  import opened Crc32Words

  ghost predicate ShiftsAt(f: bv32 -> bv32, z: bv32, y: bv32) { y < 0x8000_0000 ==> f(Xor(z, y << 1)) == Xor(f(z), y) }

  /** All but the lowest bit only move down. */
  ghost predicate Shifts(f: bv32 -> bv32) { forall z, y :: ShiftsAt(f, z, y) }

  lemma StepShiftsAt(z: bv32, y: bv32)
    ensures ShiftsAt(Step, z, y)
  {
    if y < 0x8000_0000 { Down(z, y); }
  }

  lemma StepShifts()
    ensures Shifts(Step)
  {
    forall z, y ensures ShiftsAt(Step, z, y) { StepShiftsAt(z, y); }
  }

  lemma OneMoves(f: bv32 -> bv32, w: bv32, i: nat)
    requires Shifts(f) && w < 0x100_0000 && i < 8
    ensures Moves(f, Xor, Shifted(w, i + 1), Shifted(w, i))
  {
    var y := Shifted(w, i);
    ShiftedOnce(w, i);
    if i < 4 { ShiftedFew(w, i); } else { ShiftedMore(w, i); }
    forall z: bv32 ensures f(Xor(z, y << 1)) == Xor(f(z), y) { assert ShiftsAt(f, z, y); }
  }

  lemma EightMoveOf(f: bv32 -> bv32, w: bv32)
    requires Shifts(f) && w < 0x100_0000
    ensures Moves(Eight(f), Xor, w << 8, w)
  {
    var at := (i: nat) => Shifted(w, i);
    forall i: nat | i < 8 ensures Moves(f, Xor, at(i + 1), at(i)) { OneMoves(f, w, i); }
    EightMoveBack(f, Xor, at);
    assert at(8) == w << 8 && at(0) == w;
  }

  /** Eight steps take the upper three bytes of a register down by a byte. */
  lemma StepsMove(w: bv32)
    requires w < 0x100_0000
    ensures Moves(Eight(Step), Xor, w << 8, w)
  {
    StepShifts();
    EightMoveOf(Step, w);
  }
}

/** lib/crc.c, 32 bits: the table loops against single-bit steps. */
module Crc32 {
  import opened CrcTheory
  import S = Crc32Steps
  import T = Crc32Table
  import W = Crc32Words
  import M = Crc32Moves

  /** The reflected CRC-32 of s, continued from register c, eight single-bit steps a byte. */
  function Crc(c: bv32, s: bytes): bv32 { Over(Eight(S.Step), W.Mix, c, s) }

  /** A byte's worth of steps takes w down by a byte. */
  ghost predicate MovesByte(f: bv32 -> bv32, w: bv32)
  {
    w < 0x100_0000 ==> Moves(f, W.Xor, w << 8, w)
  }

  function Rest(c: bv32): bv32 { (c >> 8) << 8 }

  function Moved(c: bv32): bv32 { (c >> 8) & 0x00ff_ffff }

  const ENGINE: Engine<bv32> := Engine(W.Xor, W.Mix, W.Low, W.Index, Rest, Moved)

  lemma EntryIsSteps(x: bv8) ensures T.Entry(x) == Eight(S.Step)(W.Low(x)) {}

  lemma StepsMoveByte(w: bv32)
    ensures MovesByte(Eight(S.Step), w)
  {
    if w < 0x100_0000 { M.StepsMove(w); }
  }

  lemma RestMoves(f: bv32 -> bv32, c: bv32)
    requires MovesByte(f, c >> 8)
    ensures Moves(f, W.Xor, Rest(c), Moved(c))
  {
    W.RestIsShort(c);
  }

  lemma TableServes()
    ensures Serves(ENGINE, T.ROWS, T.Entry, Eight(S.Step))
  {
    T.TableIsSteps();
    forall i: bv8 ensures T.Entry(i) == Eight(S.Step)(W.Low(i)) { EntryIsSteps(i); }
    forall c, b ensures SplitsAt(ENGINE, c, b) { W.Parts(c, b); }
    forall c ensures Moves(Eight(S.Step), W.Xor, Rest(c), Moved(c)) {
      StepsMoveByte(c >> 8);
      RestMoves(Eight(S.Step), c);
    }
  }

  /** upd_crc32 */
  method UpdCrc32(buf: bytes, crc: bv32) returns (cr: bv32)
    ensures cr == Crc(crc, buf)
  {
    TableServes();
    cr := UpdateLoop(ENGINE, T.ROWS, crc, buf, T.Entry, Eight(S.Step));
  }

  /** crc32ccitt */
  method Crc32Ccitt(str: bytes) returns (crc: bv32)
    ensures crc == Crc(0xffff_ffff, str)
  {
    TableServes();
    crc := UpdateLoop(ENGINE, T.ROWS, 0xffff_ffff, str, T.Entry, Eight(S.Step));
  }

  /** StringCRC32: over a string that ends at its first NUL. */
  method StringCrc32(str: bytes) returns (crc: bv32)
    requires 0 in str
    ensures crc == Crc(0xffff_ffff, CString(str))
  {
    TableServes();
    crc := StringLoop(ENGINE, T.ROWS, 0xffff_ffff, str, T.Entry, Eight(S.Step));
  }

  /** upd_crc32 over two buffers in turn is upd_crc32 over both. */
  method Chunked(a: bytes, b: bytes, crc: bv32) returns (whole: bv32, parts: bv32)
    ensures whole == parts == Crc(crc, a + b)
  {
    whole := UpdCrc32(a + b, crc);
    parts := UpdCrc32(a, crc);
    parts := UpdCrc32(b, parts);
    Chunks(Eight(S.Step), W.Mix, crc, a, b);
  }
}
