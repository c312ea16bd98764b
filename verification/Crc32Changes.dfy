/** The bits of a 32-bit register that takes bits at its low end. */
module Crc32Bits {
  import opened Crc32Words

  function Bit(b: bool): bv32 { if b then 1 else 0 }

  function MixBit(c: bv32, b: bool): bv32 { Xor(c, Bit(b)) }

  /** A word with one more bit at its low end. */
  function Join(b: bool, w: bv32): bv32 { Xor(Bit(b), w << 1) }

  lemma JoinLow(b: bool, w: bv32)
    ensures Join(b, w) & 1 == Bit(b)
  {
    if b {} else {}
  }

  lemma JoinHigh(b: bool, w: bv32)
    requires w < 0x8000_0000
    ensures Join(b, w) >> 1 == w
  {
    if b {} else {}
  }

  lemma JoinInjective(b: bool, v: bv32, c: bool, w: bv32)
    requires v < 0x8000_0000 && w < 0x8000_0000 && Join(b, v) == Join(c, w)
    ensures b == c && v == w
  {
    JoinLow(b, v);
    JoinLow(c, w);
    JoinHigh(b, v);
    JoinHigh(c, w);
  }

  lemma JoinAbsorbs(c: bv32, b: bool, w: bv32)
    ensures Xor(MixBit(c, b), w << 1) == Xor(c, Join(b, w))
  {
    XorAssociative(c, Bit(b), w << 1);
  }

  lemma MixInjective(x: bv32, y: bv32, b: bool)
    requires MixBit(x, b) == MixBit(y, b)
    ensures x == y
  {
  }

  // ----- words with room for more bits

  function Double(w: bv32): bv32 { w << 1 }

  predicate Below(w: bv32) { w < 0x8000_0000 }

  /** w can be doubled r times and still be below the limit. */
  ghost predicate RoomIn<R>(double: R -> R, below: R -> bool, w: R, r: nat)
    decreases r
  {
    below(w) && (r > 0 ==> RoomIn(double, below, double(w), r - 1))
  }

  ghost predicate Room(w: bv32, r: nat) { RoomIn(Double, Below, w, r) }

  lemma {:induction false} RoomLess<R>(double: R -> R, below: R -> bool, w: R, r: nat)
    requires RoomIn(double, below, w, r + 1)
    ensures RoomIn(double, below, w, r)
    decreases r
  {
    if r > 0 { RoomLess(double, below, double(w), r - 1); }
  }

  /** xor keeps to the limit and goes with doubling. */
  ghost predicate XorKeeps<R(!new)>(double: R -> R, below: R -> bool, xor: (R, R) -> R)
  {
    && (forall x, y :: below(x) && below(y) ==> below(xor(x, y)))
    && (forall x, y :: double(xor(x, y)) == xor(double(x), double(y)))
  }

  lemma {:induction false} RoomXor<R(!new)>(double: R -> R, below: R -> bool, xor: (R, R) -> R, x: R, y: R, r: nat)
    requires XorKeeps(double, below, xor) && RoomIn(double, below, x, r) && RoomIn(double, below, y, r)
    ensures RoomIn(double, below, xor(x, y), r)
    decreases r
  {
    if r > 0 { RoomXor(double, below, xor, double(x), double(y), r - 1); }
  }

  lemma {:induction false} RoomFixed<R>(double: R -> R, below: R -> bool, zero: R, r: nat)
    requires double(zero) == zero && below(zero)
    ensures RoomIn(double, below, zero, r)
    decreases r
  {
    if r > 0 { RoomFixed(double, below, zero, r - 1); }
  }

  lemma XorBelow(x: bv32, y: bv32)
    requires x < 0x8000_0000 && y < 0x8000_0000
    ensures x ^ y < 0x8000_0000
  {
  }

  lemma XorDoubled(x: bv32, y: bv32)
    ensures (x ^ y) << 1 == (x << 1) ^ (y << 1)
  {
  }

  lemma XorKeepsRoom()
    ensures XorKeeps(Double, Below, Xor)
  {
    forall x, y | Below(x) && Below(y) ensures Below(Xor(x, y)) { XorBelow(x, y); }
    forall x, y ensures Double(Xor(x, y)) == Xor(Double(x), Double(y)) { XorDoubled(x, y); }
  }

  lemma RoomZero(r: nat)
    ensures Room(0, r)
  {
    RoomFixed(Double, Below, 0, r);
  }

  lemma RoomSixteenth()
    ensures Room(0x1_0000, 14)
  {
    assert Room(0x4000_0000, 0) && Room(0x2000_0000, 1) && Room(0x1000_0000, 2);
    assert Room(0x800_0000, 3) && Room(0x400_0000, 4) && Room(0x200_0000, 5) && Room(0x100_0000, 6);
    assert Room(0x80_0000, 7) && Room(0x40_0000, 8) && Room(0x20_0000, 9) && Room(0x10_0000, 10);
    assert Room(0x8_0000, 11) && Room(0x4_0000, 12) && Room(0x2_0000, 13);
  }

  /** The lowest bit can be doubled 30 times. */
  lemma RoomOne()
    ensures Room(1, 30)
  {
    RoomSixteenth();
    assert Room(0x8000, 15) && Room(0x4000, 16) && Room(0x2000, 17) && Room(0x1000, 18);
    assert Room(0x800, 19) && Room(0x400, 20) && Room(0x200, 21) && Room(0x100, 22);
    assert Room(0x80, 23) && Room(0x40, 24) && Room(0x20, 25) && Room(0x10, 26);
    assert Room(8, 27) && Room(4, 28) && Room(2, 29);
  }

  lemma {:induction false} RoomBit(b: bool, r: nat)
    requires r <= 30
    ensures Room(Bit(b), r)
    decreases 30 - r
  {
    if !b {
      RoomZero(r);
    } else if r == 30 {
      RoomOne();
    } else {
      RoomBit(b, r + 1);
      RoomLess(Double, Below, Bit(b), r);
    }
  }

  /** One more bit takes one place. */
  lemma JoinRoom(b: bool, w: bv32, r: nat)
    requires Room(w, r + 1) && r <= 30
    ensures Room(Join(b, w), r) && Room(w, r)
  {
    RoomBit(b, r);
    XorKeepsRoom();
    assert RoomIn(Double, Below, Double(w), r);
    RoomXor(Double, Below, Xor, Bit(b), Double(w), r);
    RoomLess(Double, Below, w, r);
  }

  // ----- the bits of bytes, lowest first

  function BitsOf(b: bv8): (s: seq<bool>)
    ensures |s| == 8
  {
    [b & 0x01 != 0, b & 0x02 != 0, b & 0x04 != 0, b & 0x08 != 0, b & 0x10 != 0, b & 0x20 != 0, b & 0x40 != 0, b & 0x80 != 0]
  }

  lemma ByteJoined(b: bv8)
    ensures Low(b) == Join(b & 0x01 != 0, Join(b & 0x02 != 0, Join(b & 0x04 != 0, Join(b & 0x08 != 0,
                      Join(b & 0x10 != 0, Join(b & 0x20 != 0, Join(b & 0x40 != 0, Join(b & 0x80 != 0, 0))))))))
  {
  }

  lemma ByteInjective(b: bv8, c: bv8)
    requires Low(b) == Low(c)
    ensures b == c
  {
  }
}

/** What the changed-record test of lib/dbmsgs.c relies on: a CRC-32 never misses a change
    confined to 32 consecutive bits, those within four consecutive bytes included. */
module Crc32Changes {
  import opened CrcTheory
  import opened Crc32Bits
  import S = Crc32Steps
  import W = Crc32Words
  import M = Crc32Moves
  import Crc32

  /** A word that n bits can hold, for n up to 31. */
  ghost predicate Fits(w: bv32, n: nat) { n <= 31 && Room(w, 31 - n) }

  ghost function BitAlgebra(f: bv32 -> bv32): Algebra<bv32, bool> { Algebra(f, MixBit, Join, W.Xor, 0, Fits, 31) }

  lemma StepInjective()
    ensures Injective(S.Step)
  {
    forall x, y | S.Step(x) == S.Step(y) ensures x == y { S.StepInjective(x, y); }
  }

  lemma MixIsLossless(f: bv32 -> bv32)
    ensures MixLossless(BitAlgebra(f))
  {
    forall x, y, b | MixBit(x, b) == MixBit(y, b) ensures x == y { MixInjective(x, y, b); }
  }

  lemma AbsorbIsLossless(f: bv32 -> bv32)
    ensures AbsorbLossless(BitAlgebra(f))
  {
    forall x, y, c | W.Xor(c, x) == W.Xor(c, y) ensures x == y { W.XorInjective(c, x, y); }
  }

  lemma JoinIsLossless(f: bv32 -> bv32)
    ensures JoinLossless(BitAlgebra(f))
  {
    forall b, v, c, w | Fits(v, 31) && Fits(w, 31) && Join(b, v) == Join(c, w) ensures b == c && v == w {
      JoinInjective(b, v, c, w);
    }
  }

  lemma JoinsAllFit(f: bv32 -> bv32)
    ensures JoinsFit(BitAlgebra(f))
  {
    RoomZero(31);
    forall b, w, n: nat ensures FitsAt(BitAlgebra(f), b, w, n) {
      if n < 31 && Fits(w, n) { JoinRoom(b, w, 30 - n); }
    }
  }

  lemma StepsDefer(f: bv32 -> bv32)
    requires M.Shifts(f)
    ensures Defers(BitAlgebra(f))
  {
    forall c, b, w ensures DefersAt(BitAlgebra(f), c, b, w) {
      if Fits(w, 31) {
        assert M.ShiftsAt(f, MixBit(c, b), w);
        JoinAbsorbs(c, b, w);
      }
    }
  }

  lemma CrcIsLossless(f: bv32 -> bv32)
    requires Injective(f) && M.Shifts(f)
    ensures Lossless(BitAlgebra(f))
  {
    MixIsLossless(f);
    AbsorbIsLossless(f);
    JoinIsLossless(f);
    JoinsAllFit(f);
    StepsDefer(f);
    forall c ensures W.Xor(c, 0) == c { W.XorZero(c); }
  }

  lemma StepIsLossless()
    ensures Lossless(BitAlgebra(S.Step))
  {
    StepInjective();
    M.StepShifts();
    CrcIsLossless(S.Step);
  }

  // ----- bytes as bits

  /** The bits of a buffer in the order they go through the register. */
  function Bits(s: bytes): (r: seq<bool>)
    ensures |r| == 8 * |s|
  {
    if s == [] then [] else Bits(s[..|s| - 1]) + BitsOf(s[|s| - 1])
  }

  lemma {:induction false} BitsConcat(a: bytes, b: bytes)
    ensures Bits(a + b) == Bits(a) + Bits(b)
    decreases |b|
  {
    if b == [] {
      assert a + b == a;
    } else {
      var init := b[..|b| - 1];
      assert (a + b)[..|a + b| - 1] == a + init;
      BitsConcat(a, init);
    }
  }

  lemma WordOfEight<R, T>(a: Algebra<R, T>, s: seq<T>)
    requires |s| == 8
    ensures WordOf(a, s) == a.join(s[0], a.join(s[1], a.join(s[2], a.join(s[3],
                            a.join(s[4], a.join(s[5], a.join(s[6], a.join(s[7], a.zero))))))))
  {
    var four := s[4..];
    WordOfFour(a, four, []);
    WordOfFour(a, s[..4], four);
    assert s == s[..4] + four && four == four + [];
  }

  lemma WordOfFour<R, T>(a: Algebra<R, T>, s: seq<T>, more: seq<T>)
    requires |s| == 4
    ensures WordOf(a, s + more) == a.join(s[0], a.join(s[1], a.join(s[2], a.join(s[3], WordOf(a, more)))))
  {
    var all := s + more;
    assert all[1..][1..] == all[2..] && all[2..][1..] == all[3..] && all[3..][1..] == more;
    assert WordOf(a, all[3..]) == a.join(s[3], WordOf(a, more));
    assert WordOf(a, all[2..]) == a.join(s[2], WordOf(a, all[3..]));
    assert WordOf(a, all[1..]) == a.join(s[1], WordOf(a, all[2..]));
  }

  lemma WordOfBits(f: bv32 -> bv32, b: bv8)
    ensures WordOf(BitAlgebra(f), BitsOf(b)) == W.Low(b)
  {
    WordOfEight(BitAlgebra(f), BitsOf(b));
    ByteJoined(b);
  }

  lemma BitsInjective(b: bv8, c: bv8)
    requires BitsOf(b) == BitsOf(c)
    ensures b == c
  {
    WordOfBits(S.Step, b);
    WordOfBits(S.Step, c);
    ByteInjective(b, c);
  }

  lemma {:induction false} SameBits(u: bytes, v: bytes)
    requires |u| == |v| && Bits(u) == Bits(v)
    ensures u == v
  {
    if u != [] {
      var m := |u| - 1;
      assert Bits(u)[..8 * m] == Bits(u[..m]) && Bits(u)[8 * m..] == BitsOf(u[m]);
      assert Bits(v)[..8 * m] == Bits(v[..m]) && Bits(v)[8 * m..] == BitsOf(v[m]);
      SameBits(u[..m], v[..m]);
      BitsInjective(u[m], v[m]);
      assert u == u[..m] + [u[m]] && v == v[..m] + [v[m]];
    }
  }

  /** Eight single-bit steps after a byte are one step after each of its bits. */
  lemma ByteAsBits(f: bv32 -> bv32, c: bv32, b: bv8)
    requires Lossless(BitAlgebra(f))
    ensures Over(f, MixBit, c, BitsOf(b)) == Eight(f)(W.Mix(c, b))
  {
    ActsAsWord(BitAlgebra(f), c, BitsOf(b));
    WordOfBits(f, b);
    EightTimes(f, W.Mix(c, b));
  }

  /** The CRC is the CRC over the bits. */
  lemma {:induction false} CrcOverBits(f: bv32 -> bv32, c: bv32, s: bytes)
    requires Lossless(BitAlgebra(f))
    ensures Over(Eight(f), W.Mix, c, s) == Over(f, MixBit, c, Bits(s))
  {
    if s != [] {
      var init, b := s[..|s| - 1], s[|s| - 1];
      CrcOverBits(f, c, init);
      ByteAsBits(f, Over(f, MixBit, c, Bits(init)), b);
      Chunks(f, MixBit, c, Bits(init), BitsOf(b));
    }
  }

  /** Registers that differ stay different over any bytes. */
  lemma RegisterSeen(x: bv32, y: bv32, s: bytes)
    ensures Crc32.Crc(x, s) == Crc32.Crc(y, s) <==> x == y
  {
    StepIsLossless();
    CrcOverBits(S.Step, x, s);
    CrcOverBits(S.Step, y, s);
    if Crc32.Crc(x, s) == Crc32.Crc(y, s) { RestInjective(BitAlgebra(S.Step), x, y, Bits(s)); }
  }

  /** Two records that differ at most within 32 consecutive bits have the same CRC exactly when
      they are the same record. */
  lemma BurstSeen(crc: bv32, s: bytes, t: bytes, before: seq<bool>, u: seq<bool>, v: seq<bool>, after: seq<bool>)
    requires Bits(s) == before + u + after && Bits(t) == before + v + after && |u| == |v| <= 32
    ensures Crc32.Crc(crc, s) == Crc32.Crc(crc, t) <==> s == t
  {
    StepIsLossless();
    CrcOverBits(S.Step, crc, s);
    CrcOverBits(S.Step, crc, t);
    BurstMatters(BitAlgebra(S.Step), crc, before, u, v, after);
    if u == v { SameBits(s, t); }
  }

  /** So with records that differ at most within four consecutive bytes. */
  lemma ShortChangeSeen(crc: bv32, before: bytes, u: bytes, v: bytes, after: bytes)
    requires |u| == |v| <= 4
    ensures Crc32.Crc(crc, before + u + after) == Crc32.Crc(crc, before + v + after) <==> u == v
  {
    BitsConcat(before + u, after);
    BitsConcat(before + v, after);
    BitsConcat(before, u);
    BitsConcat(before, v);
    BurstSeen(crc, before + u + after, before + v + after, Bits(before), Bits(u), Bits(v), Bits(after));
    MiddleEqual(before, u, v, after);
  }

  lemma MiddleEqual<T>(a: seq<T>, u: seq<T>, v: seq<T>, z: seq<T>)
    requires |u| == |v|
    ensures a + u + z == a + v + z <==> u == v
  {
    if a + u + z == a + v + z {
      assert (a + u + z)[|a|..|a| + |u|] == u && (a + v + z)[|a|..|a| + |u|] == v;
    }
  }

  /** The test of UpdateMsgs: a record read with this CRC is written back when its CRC differs. */
  method NeedsWrite(msgs: bytes, msgsCrc: bv32) returns (write: bool)
    ensures write <==> Crc32.Crc(0xffff_ffff, msgs) != msgsCrc
  {
    var crc := Crc32.UpdCrc32(msgs, 0xffff_ffff);
    write := crc != msgsCrc;
  }

  /** A record loaded, edited within 32 consecutive bits and tested is written back exactly
      when the edit changed it. */
  method EditIsWritten(loaded: bytes, edited: bytes, ghost before: seq<bool>, ghost u: seq<bool>, ghost v: seq<bool>,
                       ghost after: seq<bool>)
    returns (write: bool)
    requires Bits(loaded) == before + u + after && Bits(edited) == before + v + after && |u| == |v| <= 32
    ensures write <==> edited != loaded
  {
    var crc := Crc32.UpdCrc32(loaded, 0xffff_ffff);
    write := NeedsWrite(edited, crc);
    BurstSeen(0xffff_ffff, loaded, edited, before, u, v, after);
  }
}
