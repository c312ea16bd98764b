/** One step of the reflected CRC-32. */
module Crc32Steps {
  import opened Crc32Words

  function Step(c: bv32): bv32 { if c & 1 == 1 then (c >> 1) ^ 0xedb88320 else c >> 1 }

  lemma DownSet(x: bv32, y: bv32)
    requires x & 1 == 1 && y < 0x8000_0000
    ensures Step(Xor(x, y << 1)) == Xor(Step(x), y)
  {
  }

  lemma DownClear(x: bv32, y: bv32)
    requires x & 1 == 0 && y < 0x8000_0000
    ensures Step(Xor(x, y << 1)) == Xor(Step(x), y)
  {
  }

  /** All but the lowest bit only move down. */
  lemma Down(x: bv32, y: bv32)
    requires y < 0x8000_0000
    ensures Step(Xor(x, y << 1)) == Xor(Step(x), y)
  {
    if x & 1 == 0 { DownClear(x, y); } else { LowBit(x); DownSet(x, y); }
  }

  lemma LowBit(x: bv32)
    requires x & 1 != 0
    ensures x & 1 == 1
  {
  }

  lemma StepInjective(x: bv32, y: bv32)
    requires Step(x) == Step(y)
    ensures x == y
  {
  }
}

/** One step of the reflected CRC-16. */
module CcittSteps {
  import opened Words16

  function Step(c: bv16): bv16 { if c & 1 == 1 then (c >> 1) ^ 0x8408 else c >> 1 }

  lemma DownSet(x: bv16, y: bv16)
    requires x & 1 == 1 && y < 0x8000
    ensures Step(Xor(x, y << 1)) == Xor(Step(x), y)
  {
  }

  lemma DownClear(x: bv16, y: bv16)
    requires x & 1 == 0 && y < 0x8000
    ensures Step(Xor(x, y << 1)) == Xor(Step(x), y)
  {
  }

  /** All but the lowest bit only move down. */
  lemma Down(x: bv16, y: bv16)
    requires y < 0x8000
    ensures Step(Xor(x, y << 1)) == Xor(Step(x), y)
  {
    if x & 1 == 0 { DownClear(x, y); } else { LowBit(x); DownSet(x, y); }
  }

  lemma LowBit(x: bv16)
    requires x & 1 != 0
    ensures x & 1 == 1
  {
  }
}

/** One step of the CRC-16 that takes the highest bit first. */
module XmodemSteps {
  import opened Words16

  function Step(c: bv16): bv16 { if c & 0x8000 != 0 then (c << 1) ^ 0x1021 else c << 1 }

  lemma UpSet(x: bv16, y: bv16)
    requires x & 0x8000 != 0 && y < 0x8000
    ensures Step(Xor(x, y)) == Xor(Step(x), y << 1)
  {
  }

  lemma UpClear(x: bv16, y: bv16)
    requires x & 0x8000 == 0 && y < 0x8000
    ensures Step(Xor(x, y)) == Xor(Step(x), y << 1)
  {
  }

  /** All but the highest bit only move up. */
  lemma Up(x: bv16, y: bv16)
    requires y < 0x8000
    ensures Step(Xor(x, y)) == Xor(Step(x), y << 1)
  {
    if x & 0x8000 == 0 { UpClear(x, y); } else { UpSet(x, y); }
  }
}

/** The bytes of a 32-bit register. */
module Crc32Words {

  function Xor(x: bv32, y: bv32): bv32 { x ^ y }

  function Low(b: bv8): bv32 { b as bv32 }

  /** A byte enters the register at its low end. */
  function Mix(c: bv32, b: bv8): bv32 { Xor(c, Low(b)) }

  function Index(c: bv32, b: bv8): bv8 { (Mix(c, b) & 0xff) as bv8 }

  lemma Halves(x: bv32) ensures x == Xor(Low((x & 0xff) as bv8), (x >> 8) << 8) {}

  lemma ByteIsLow(c: bv32, b: bv8) ensures Mix(c, b) >> 8 == c >> 8 {}

  /** A mixed register is a byte of it and the rest of the register. */
  lemma Parts(c: bv32, b: bv8)
    ensures Mix(c, b) == Xor(Low(Index(c, b)), (c >> 8) << 8)
  {
    ByteIsLow(c, b);
    Halves(Mix(c, b));
  }

  lemma RestIsShort(c: bv32)
    ensures c >> 8 < 0x100_0000 && (c >> 8) & 0x00ff_ffff == c >> 8
  {
  }

  function Shifted(w: bv32, i: nat): bv32
  {
    if i == 0 then w else if i == 1 then w << 1 else if i == 2 then w << 2 else if i == 3 then w << 3
    else if i == 4 then w << 4 else if i == 5 then w << 5 else if i == 6 then w << 6 else if i == 7 then w << 7 else w << 8
  }

  lemma Shift2(w: bv32) ensures w << 2 == (w << 1) << 1 {}

  lemma Shift3(w: bv32) ensures w << 3 == (w << 2) << 1 {}

  lemma Shift4(w: bv32) ensures w << 4 == (w << 3) << 1 {}

  lemma Shift5(w: bv32) ensures w << 5 == (w << 4) << 1 {}

  lemma Shift6(w: bv32) ensures w << 6 == (w << 5) << 1 {}

  lemma Shift7(w: bv32) ensures w << 7 == (w << 6) << 1 {}

  lemma Shift8(w: bv32) ensures w << 8 == (w << 7) << 1 {}

  lemma ShiftedOnce(w: bv32, i: nat)
    requires i < 8
    ensures Shifted(w, i + 1) == Shifted(w, i) << 1
  {
    match i
    case 0 =>
    case 1 => Shift2(w);
    case 2 => Shift3(w);
    case 3 => Shift4(w);
    case 4 => Shift5(w);
    case 5 => Shift6(w);
    case 6 => Shift7(w);
    case _ => Shift8(w);
  }

  lemma ShiftedFew(w: bv32, i: nat)
    requires i < 4 && w < 0x100_0000
    ensures Shifted(w, i) < 0x8000_0000
  {
  }

  lemma ShiftedMore(w: bv32, i: nat)
    requires 4 <= i < 8 && w < 0x100_0000
    ensures Shifted(w, i) < 0x8000_0000
  {
  }

  lemma XorInjective(c: bv32, x: bv32, y: bv32)
    requires Xor(c, x) == Xor(c, y)
    ensures x == y
  {
  }

  lemma XorAssociative(x: bv32, y: bv32, z: bv32) ensures Xor(Xor(x, y), z) == Xor(x, Xor(y, z)) {}

  lemma XorZero(c: bv32) ensures Xor(c, 0) == c {}
}

/** A 16-bit register. */
module Words16 {

  function Xor(x: bv16, y: bv16): bv16 { x ^ y }

  function Shifted(w: bv16, i: nat): bv16
  {
    if i == 0 then w else if i == 1 then w << 1 else if i == 2 then w << 2 else if i == 3 then w << 3
    else if i == 4 then w << 4 else if i == 5 then w << 5 else if i == 6 then w << 6 else if i == 7 then w << 7 else w << 8
  }

  lemma Shift2(w: bv16) ensures w << 2 == (w << 1) << 1 {}

  lemma Shift3(w: bv16) ensures w << 3 == (w << 2) << 1 {}

  lemma Shift4(w: bv16) ensures w << 4 == (w << 3) << 1 {}

  lemma Shift5(w: bv16) ensures w << 5 == (w << 4) << 1 {}

  lemma Shift6(w: bv16) ensures w << 6 == (w << 5) << 1 {}

  lemma Shift7(w: bv16) ensures w << 7 == (w << 6) << 1 {}

  lemma Shift8(w: bv16) ensures w << 8 == (w << 7) << 1 {}

  lemma ShiftedOnce(w: bv16, i: nat)
    requires i < 8
    ensures Shifted(w, i + 1) == Shifted(w, i) << 1
  {
    match i
    case 0 =>
    case 1 => Shift2(w);
    case 2 => Shift3(w);
    case 3 => Shift4(w);
    case 4 => Shift5(w);
    case 5 => Shift6(w);
    case 6 => Shift7(w);
    case _ => Shift8(w);
  }

  lemma ShiftedFew(w: bv16, i: nat)
    requires i < 4 && w < 0x100
    ensures Shifted(w, i) < 0x8000
  {
  }

  lemma ShiftedMore(w: bv16, i: nat)
    requires 4 <= i < 8 && w < 0x100
    ensures Shifted(w, i) < 0x8000
  {
  }
}

/** The bytes of a 16-bit register that takes bytes at its low end. */
module CcittWords {
  import opened Words16

  function Low(b: bv8): bv16 { b as bv16 }

  function Mix(c: bv16, b: bv8): bv16 { c ^ (b as bv16) }

  function Index(c: bv16, b: bv8): bv8 { ((c ^ (b as bv16)) & 0xff) as bv8 }

  lemma Parts(c: bv16, b: bv8)
    ensures Mix(c, b) == Xor(Low(Index(c, b)), (c >> 8) << 8)
  {
  }

  lemma RestIsShort(c: bv16)
    ensures c >> 8 < 0x100 && (c >> 8) & 0x00ff == c >> 8
  {
  }
}

/** The bytes of a 16-bit register that takes bytes at its high end. */
module XmodemWords {
  import opened Words16

  function High(b: bv8): bv16 { (b as bv16) << 8 }

  function Mix(c: bv16, b: bv8): bv16 { c ^ ((b as bv16) << 8) }

  function Index(c: bv16, b: bv8): bv8 { ((((c >> 8) & 0xff) ^ (b as bv16)) & 0xff) as bv8 }

  lemma Halves(x: bv16) ensures x == Xor(High((x >> 8) as bv8), x & 0xff) {}

  lemma ByteIsHigh(c: bv16, b: bv8) ensures Mix(c, b) & 0xff == c & 0xff {}

  lemma IndexIsHigh(c: bv16, b: bv8) ensures (Mix(c, b) >> 8) as bv8 == Index(c, b) {}

  /** A mixed register is a byte of it and the rest of the register. */
  lemma Parts(c: bv16, b: bv8)
    ensures Mix(c, b) == Xor(High(Index(c, b)), c & 0xff)
  {
    ByteIsHigh(c, b);
    IndexIsHigh(c, b);
    Halves(Mix(c, b));
  }

  lemma RestIsShort(c: bv16)
    ensures c & 0xff < 0x100 && (c & 0xff) << 8 == c << 8
  {
  }
}
