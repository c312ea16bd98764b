/** CRCs over any kind of register: tables of 256 entries laid out as sixteen rows of sixteen,
    eight single-bit steps a byte, and the loop over a buffer. */
module CrcTheory {

  type bytes = seq<bv8>

  // ----- tables

  /** The row that starts at index s holds f of its indices. */
  ghost predicate RowRight<T>(row: seq<T>, s: bv8, f: bv8 -> T)
  {
    |row| == 16 &&
    row[0] == f(s) && row[1] == f(s + 1) && row[2] == f(s + 2) && row[3] == f(s + 3) &&
    row[4] == f(s + 4) && row[5] == f(s + 5) && row[6] == f(s + 6) && row[7] == f(s + 7) &&
    row[8] == f(s + 8) && row[9] == f(s + 9) && row[10] == f(s + 10) && row[11] == f(s + 11) &&
    row[12] == f(s + 12) && row[13] == f(s + 13) && row[14] == f(s + 14) && row[15] == f(s + 15)
  }

  lemma InRow<T>(row: seq<T>, s: bv8, f: bv8 -> T, x: bv8)
    requires RowRight(row, s, f) && s & 15 == 0 && x & 0xf0 == s
    ensures (x & 15) as int < 16 && row[(x & 15) as int] == f(x)
  {
    var k := x & 15;
    assert x == s + k;
    if k < 8 {
      if k == 0 {} else if k == 1 {} else if k == 2 {} else if k == 3 {}
      else if k == 4 {} else if k == 5 {} else if k == 6 {} else { assert k == 7; }
    } else {
      if k == 8 {} else if k == 9 {} else if k == 10 {} else if k == 11 {}
      else if k == 12 {} else if k == 13 {} else if k == 14 {} else { assert k == 15; }
    }
  }

  ghost predicate RowsRight<T>(rows: seq<seq<T>>, f: bv8 -> T)
  {
    |rows| == 16 &&
    RowRight(rows[0], 0x00, f) && RowRight(rows[1], 0x10, f) && RowRight(rows[2], 0x20, f) && RowRight(rows[3], 0x30, f) &&
    RowRight(rows[4], 0x40, f) && RowRight(rows[5], 0x50, f) && RowRight(rows[6], 0x60, f) && RowRight(rows[7], 0x70, f) &&
    RowRight(rows[8], 0x80, f) && RowRight(rows[9], 0x90, f) && RowRight(rows[10], 0xa0, f) && RowRight(rows[11], 0xb0, f) &&
    RowRight(rows[12], 0xc0, f) && RowRight(rows[13], 0xd0, f) && RowRight(rows[14], 0xe0, f) && RowRight(rows[15], 0xf0, f)
  }

  ghost predicate RightAt<T>(rows: seq<seq<T>>, f: bv8 -> T, x: bv8)
  {
    var hi, lo := (x >> 4) as int, (x & 15) as int;
    hi < |rows| && lo < |rows[hi]| && rows[hi][lo] == f(x)
  }

  /** A table all of whose entries are f of their index. */
  ghost predicate TableRight<T>(rows: seq<seq<T>>, f: bv8 -> T) { forall x: bv8 :: RightAt(rows, f, x) }

  /** Entry x of a table. */
  method Lookup<T>(rows: seq<seq<T>>, x: bv8, ghost f: bv8 -> T) returns (r: T)
    requires TableRight(rows, f)
    ensures r == f(x)
  {
    assert RightAt(rows, f, x);
    r := rows[(x >> 4) as int][(x & 15) as int];
  }

  lemma InTable<T>(rows: seq<seq<T>>, f: bv8 -> T, x: bv8)
    requires RowsRight(rows, f)
    ensures RightAt(rows, f, x)
  {
    var r := x >> 4;
    assert x & 0xf0 == r << 4 && r < 16;
    if r < 8 {
      if r == 0 { InRow(rows[0], 0x00, f, x); } else if r == 1 { InRow(rows[1], 0x10, f, x); }
      else if r == 2 { InRow(rows[2], 0x20, f, x); } else if r == 3 { InRow(rows[3], 0x30, f, x); }
      else if r == 4 { InRow(rows[4], 0x40, f, x); } else if r == 5 { InRow(rows[5], 0x50, f, x); }
      else if r == 6 { InRow(rows[6], 0x60, f, x); } else { assert r == 7; InRow(rows[7], 0x70, f, x); }
    } else {
      if r == 8 { InRow(rows[8], 0x80, f, x); } else if r == 9 { InRow(rows[9], 0x90, f, x); }
      else if r == 10 { InRow(rows[10], 0xa0, f, x); } else if r == 11 { InRow(rows[11], 0xb0, f, x); }
      else if r == 12 { InRow(rows[12], 0xc0, f, x); } else if r == 13 { InRow(rows[13], 0xd0, f, x); }
      else if r == 14 { InRow(rows[14], 0xe0, f, x); } else { assert r == 15; InRow(rows[15], 0xf0, f, x); }
    }
  }

  lemma TableOfRows<T>(r0: seq<T>, r1: seq<T>, r2: seq<T>, r3: seq<T>, r4: seq<T>, r5: seq<T>, r6: seq<T>, r7: seq<T>,
                       r8: seq<T>, r9: seq<T>, ra: seq<T>, rb: seq<T>, rc: seq<T>, rd: seq<T>, re: seq<T>, rf: seq<T>,
                       f: bv8 -> T)
    requires RowRight(r0, 0x00, f) && RowRight(r1, 0x10, f) && RowRight(r2, 0x20, f) && RowRight(r3, 0x30, f)
    requires RowRight(r4, 0x40, f) && RowRight(r5, 0x50, f) && RowRight(r6, 0x60, f) && RowRight(r7, 0x70, f)
    requires RowRight(r8, 0x80, f) && RowRight(r9, 0x90, f) && RowRight(ra, 0xa0, f) && RowRight(rb, 0xb0, f)
    requires RowRight(rc, 0xc0, f) && RowRight(rd, 0xd0, f) && RowRight(re, 0xe0, f) && RowRight(rf, 0xf0, f)
    ensures TableRight([r0, r1, r2, r3, r4, r5, r6, r7, r8, r9, ra, rb, rc, rd, re, rf], f)
  {
    var rows := [r0, r1, r2, r3, r4, r5, r6, r7, r8, r9, ra, rb, rc, rd, re, rf];
    forall x: bv8 ensures RightAt(rows, f, x) { InTable(rows, f, x); }
  }

  // ----- what a CRC is

  function Twice<R>(f: R -> R): R -> R { c => f(f(c)) }

  /** Eight single-bit steps. */
  function Eight<R>(f: R -> R): R -> R { Twice(Twice(Twice(f))) }

  /** A CRC over s from register c: each item, a byte or a bit, is mixed into the register, which
      is then stepped. */
  function Over<R, T>(step: R -> R, mix: (R, T) -> R, c: R, s: seq<T>): R
  {
    if s == [] then c else step(mix(Over(step, mix, c, s[..|s| - 1]), s[|s| - 1]))
  }

  /** One more item. */
  lemma OverStep<R, T>(step: R -> R, mix: (R, T) -> R, c: R, s: seq<T>, i: nat)
    requires i < |s|
    ensures Over(step, mix, c, s[..i + 1]) == step(mix(Over(step, mix, c, s[..i]), s[i]))
  {
    assert s[..i + 1][..i] == s[..i];
  }

  /** Continuing a CRC over any split of a buffer is the CRC of the whole. */
  lemma {:induction false} Chunks<R, T>(step: R -> R, mix: (R, T) -> R, c: R, a: seq<T>, b: seq<T>)
    ensures Over(step, mix, Over(step, mix, c, a), b) == Over(step, mix, c, a + b)
    decreases |b|
  {
    if b == [] {
      assert a + b == a;
    } else {
      assert (a + b)[..|a + b| - 1] == a + b[..|b| - 1];
      Chunks(step, mix, c, a, b[..|b| - 1]);
    }
  }

  lemma SplitThree<R, T>(step: R -> R, mix: (R, T) -> R, c: R, before: seq<T>, u: seq<T>, after: seq<T>)
    ensures Over(step, mix, c, before + u + after) == Over(step, mix, Over(step, mix, Over(step, mix, c, before), u), after)
  {
    Chunks(step, mix, c, before + u, after);
    Chunks(step, mix, c, before, u);
  }

  /** The part of a buffer before its first NUL. */
  function CString(s: bytes): bytes
  {
    if s == [] || s[0] == 0 then [] else [s[0]] + CString(s[1..])
  }

  lemma {:induction false} CStringPrefix(s: bytes, i: nat)
    requires i <= |s| && (forall j :: 0 <= j < i ==> s[j] != 0) && (i < |s| ==> s[i] == 0)
    ensures CString(s) == s[..i]
  {
    if i > 0 {
      CStringPrefix(s[1..], i - 1);
      assert s[..i] == [s[0]] + s[1..][..i - 1];
    }
  }

  // ----- the bits a step only moves

  /** Stepping takes the part hi of a register to lo and does nothing else to it. */
  ghost predicate Moves<R(!new)>(f: R -> R, xor: (R, R) -> R, hi: R, lo: R)
  {
    forall z :: f(xor(z, hi)) == xor(f(z), lo)
  }

  lemma Compose<R(!new)>(f: R -> R, xor: (R, R) -> R, hi: R, mid: R, lo: R)
    requires Moves(f, xor, hi, mid) && Moves(f, xor, mid, lo)
    ensures Moves(Twice(f), xor, hi, lo)
  {
  }

  /** Eight steps take the register's part through the places at(0) to at(8). */
  lemma EightMove<R(!new)>(f: R -> R, xor: (R, R) -> R, at: nat -> R)
    requires forall i: nat :: i < 8 ==> Moves(f, xor, at(i), at(i + 1))
    ensures Moves(Eight(f), xor, at(0), at(8))
  {
    var two, four := Twice(f), Twice(Twice(f));
    Compose(f, xor, at(0), at(1), at(2));
    Compose(f, xor, at(2), at(3), at(4));
    Compose(f, xor, at(4), at(5), at(6));
    Compose(f, xor, at(6), at(7), at(8));
    Compose(two, xor, at(0), at(2), at(4));
    Compose(two, xor, at(4), at(6), at(8));
    Compose(four, xor, at(0), at(4), at(8));
  }

  lemma EightMoveBack<R(!new)>(f: R -> R, xor: (R, R) -> R, at: nat -> R)
    requires forall i: nat :: i < 8 ==> Moves(f, xor, at(i + 1), at(i))
    ensures Moves(Eight(f), xor, at(8), at(0))
  {
    var back := (i: nat) => if i <= 8 then at(8 - i) else at(0);
    forall i: nat | i < 8 ensures Moves(f, xor, back(i), back(i + 1)) {
      var j := 7 - i;
      assert Moves(f, xor, at(j + 1), at(j));
    }
    EightMove(f, xor, back);
  }

  // ----- the table loop

  /** How a register is updated through a table: the index that a byte gives, the part of the
      register that the index does not take, and where that part goes. */
  datatype Engine<!R> = Engine(xor: (R, R) -> R, mix: (R, bv8) -> R, byte: bv8 -> R, index: (R, bv8) -> bv8,
                               rest: R -> R, moved: R -> R)

  /** A mixed register is the byte of its index and the rest. */
  ghost predicate SplitsAt<R(!new)>(e: Engine<R>, c: R, b: bv8) { e.mix(c, b) == e.xor(e.byte(e.index(c, b)), e.rest(c)) }

  ghost predicate Splits<R(!new)>(e: Engine<R>) { forall c, b :: SplitsAt(e, c, b) }

  /** The table holds entry, which is f of single bytes, and f only moves the rest of a register. */
  ghost predicate Serves<R(!new)>(e: Engine<R>, rows: seq<seq<R>>, entry: bv8 -> R, f: R -> R)
  {
    && TableRight(rows, entry) && (forall i: bv8 :: entry(i) == f(e.byte(i))) && Splits(e)
    && forall c :: Moves(f, e.xor, e.rest(c), e.moved(c))
  }

  /** One look-up, move and xor does what f does to the mixed register. */
  method UpdateByte<R(!new)>(e: Engine<R>, rows: seq<seq<R>>, cr: R, b: bv8, ghost entry: bv8 -> R, ghost f: R -> R)
    returns (r: R)
    requires Serves(e, rows, entry, f)
    ensures r == f(e.mix(cr, b))
  {
    var x := Lookup(rows, e.index(cr, b), entry);
    r := e.xor(x, e.moved(cr));
    assert SplitsAt(e, cr, b) && Moves(f, e.xor, e.rest(cr), e.moved(cr));
  }

  method UpdateLoop<R(!new)>(e: Engine<R>, rows: seq<seq<R>>, crc: R, buf: bytes, ghost entry: bv8 -> R, ghost f: R -> R)
    returns (cr: R)
    requires Serves(e, rows, entry, f)
    ensures cr == Over(f, e.mix, crc, buf)
  {
    cr := crc;
    var i := 0;
    while i < |buf|
      invariant i <= |buf| && cr == Over(f, e.mix, crc, buf[..i])
    {
      OverStep(f, e.mix, crc, buf, i);
      cr := UpdateByte(e, rows, cr, buf[i], entry, f);
      i := i + 1;
    }
    assert buf[..i] == buf;
  }

  method StringLoop<R(!new)>(e: Engine<R>, rows: seq<seq<R>>, start: R, str: bytes, ghost entry: bv8 -> R, ghost f: R -> R)
    returns (cr: R)
    requires Serves(e, rows, entry, f) && 0 in str
    ensures cr == Over(f, e.mix, start, CString(str))
  {
    cr := start;
    var i := 0;
    while str[i] != 0
      invariant i < |str| && cr == Over(f, e.mix, start, str[..i])
      invariant forall j :: 0 <= j < i ==> str[j] != 0
      decreases |str| - i
    {
      OverStep(f, e.mix, start, str, i);
      cr := UpdateByte(e, rows, cr, str[i], entry, f);
      i := i + 1;
    }
    CStringPrefix(str, i);
  }

  // ----- what a CRC cannot miss

  ghost predicate Injective<A(!new), B>(f: A -> B) { forall x, y :: f(x) == f(y) ==> x == y }

  /** A register and the items that enter it, as an algebra: stepping, mixing an item in, a word
      with one more item in front, absorbing a word, and which words n items fill; words of up
      to last items leave room for one more. */
  datatype Algebra<!R, !T> = Algebra(step: R -> R, mix: (R, T) -> R, join: (T, R) -> R, absorb: (R, R) -> R,
                                     zero: R, fits: (R, nat) -> bool, last: nat)

  ghost predicate MixLossless<R(!new), T(!new)>(a: Algebra<R, T>) { forall x, y, b :: a.mix(x, b) == a.mix(y, b) ==> x == y }

  ghost predicate AbsorbLossless<R(!new), T>(a: Algebra<R, T>) { forall x, y, c :: a.absorb(c, x) == a.absorb(c, y) ==> x == y }

  /** Stepping after an item and then absorbing the items after it is absorbing them all first. */
  ghost predicate DefersAt<R, T>(a: Algebra<R, T>, c: R, b: T, w: R)
  {
    a.fits(w, a.last) ==> a.absorb(a.step(a.mix(c, b)), w) == a.step(a.absorb(c, a.join(b, w)))
  }

  ghost predicate Defers<R(!new), T(!new)>(a: Algebra<R, T>) { forall c, b, w :: DefersAt(a, c, b, w) }

  /** A word of n items leaves room for one more, and is also a word of n + 1 items. */
  ghost predicate FitsAt<R, T>(a: Algebra<R, T>, b: T, w: R, n: nat)
  {
    n < a.last && a.fits(w, n) ==> a.fits(a.join(b, w), n + 1) && a.fits(w, n + 1)
  }

  ghost predicate JoinsFit<R(!new), T(!new)>(a: Algebra<R, T>) { a.fits(a.zero, 0) && forall b, w, n: nat :: FitsAt(a, b, w, n) }

  ghost predicate JoinLossless<R(!new), T(!new)>(a: Algebra<R, T>)
  {
    forall b, v, c, w :: a.fits(v, a.last) && a.fits(w, a.last) && a.join(b, v) == a.join(c, w) ==> b == c && v == w
  }

  ghost predicate Lossless<R(!new), T(!new)>(a: Algebra<R, T>)
  {
    && Injective(a.step) && MixLossless(a) && AbsorbLossless(a) && JoinLossless(a) && Defers(a) && JoinsFit(a)
    && forall c :: a.absorb(c, a.zero) == c
  }

  function Times<R>(step: R -> R, c: R, n: nat): R
    decreases n
  {
    if n == 0 then c else Times(step, step(c), n - 1)
  }

  lemma EightTimes<R>(step: R -> R, c: R)
    ensures Times(step, c, 8) == Eight(step)(c)
  {
    var two, four := Twice(step), Twice(Twice(step));
    FourTimes(step, c);
    FourTimes(step, four(c));
    TimesSplit(step, c, 4, 4);
    assert two(two(c)) == four(c) && Eight(step)(c) == four(four(c));
  }

  lemma FourTimes<R>(step: R -> R, c: R)
    ensures Times(step, c, 4) == Twice(Twice(step))(c)
  {
    assert Times(step, c, 4) == Times(step, step(step(c)), 2);
    assert Twice(Twice(step))(c) == Twice(step)(Twice(step)(c));
  }

  lemma {:induction false} TimesSplit<R>(step: R -> R, c: R, m: nat, n: nat)
    ensures Times(step, c, m + n) == Times(step, Times(step, c, m), n)
    decreases m
  {
    if m > 0 { TimesSplit(step, step(c), m - 1, n); }
  }

  /** Items as one word, the first lowest. */
  function WordOf<R, T>(a: Algebra<R, T>, s: seq<T>): R
    decreases |s|
  {
    if s == [] then a.zero else a.join(s[0], WordOf(a, s[1..]))
  }

  lemma {:induction false} TimesInjective<R(!new), T(!new)>(a: Algebra<R, T>, x: R, y: R, n: nat)
    requires Lossless(a) && Times(a.step, x, n) == Times(a.step, y, n)
    ensures x == y
    decreases n
  {
    if n > 0 {
      TimesInjective(a, a.step(x), a.step(y), n - 1);
    }
  }

  lemma {:induction false} RestInjective<R(!new), T(!new)>(a: Algebra<R, T>, x: R, y: R, s: seq<T>)
    requires Lossless(a) && Over(a.step, a.mix, x, s) == Over(a.step, a.mix, y, s)
    ensures x == y
    decreases |s|
  {
    if s != [] {
      var init, b := s[..|s| - 1], s[|s| - 1];
      var u, v := Over(a.step, a.mix, x, init), Over(a.step, a.mix, y, init);
      assert a.step(a.mix(u, b)) == a.step(a.mix(v, b));
      assert a.mix(u, b) == a.mix(v, b);
      RestInjective(a, x, y, init);
    }
  }

  lemma {:induction false} WordFits<R(!new), T(!new)>(a: Algebra<R, T>, s: seq<T>, b: T, n: nat)
    requires Lossless(a) && |s| <= n <= a.last
    ensures a.fits(WordOf(a, s), n)
    decreases n
  {
    if s != [] {
      WordFits(a, s[1..], b, n - 1);
      assert FitsAt(a, s[0], WordOf(a, s[1..]), n - 1);
    } else if n > 0 {
      WordFits(a, s, b, n - 1);
      assert FitsAt(a, b, WordOf(a, s), n - 1);
    }
  }

  /** A word's worth of items acts on the register as one word. */
  lemma {:induction false} ActsAsWord<R(!new), T(!new)>(a: Algebra<R, T>, c: R, s: seq<T>)
    requires Lossless(a) && |s| <= a.last + 1
    ensures Over(a.step, a.mix, c, s) == Times(a.step, a.absorb(c, WordOf(a, s)), |s|)
    decreases |s|
  {
    if s != [] {
      var first, rest := [s[0]], s[1..];
      assert first[..0] == [] && s == first + rest;
      Chunks(a.step, a.mix, c, first, rest);
      assert Over(a.step, a.mix, c, first) == a.step(a.mix(c, s[0]));
      WordFits(a, rest, s[0], a.last);
      var w := WordOf(a, rest);
      var after := a.step(a.mix(c, s[0]));
      ActsAsWord(a, after, rest);
      assert DefersAt(a, c, s[0], w);
    } else {
      assert a.absorb(c, a.zero) == c;
    }
  }

  lemma {:induction false} WordInjective<R(!new), T(!new)>(a: Algebra<R, T>, u: seq<T>, v: seq<T>)
    requires Lossless(a) && |u| == |v| <= a.last + 1 && WordOf(a, u) == WordOf(a, v)
    ensures u == v
    decreases |u|
  {
    if u != [] {
      WordFits(a, u[1..], u[0], a.last);
      WordFits(a, v[1..], v[0], a.last);
      assert u[0] == v[0] && WordOf(a, u[1..]) == WordOf(a, v[1..]);
      WordInjective(a, u[1..], v[1..]);
      assert u == [u[0]] + u[1..] && v == [v[0]] + v[1..];
    }
  }

  /** Messages that differ only within a word's worth of consecutive items never have the same CRC. */
  lemma BurstMatters<R(!new), T(!new)>(a: Algebra<R, T>, c: R, before: seq<T>, u: seq<T>, v: seq<T>, after: seq<T>)
    requires Lossless(a) && |u| == |v| <= a.last + 1
    ensures Over(a.step, a.mix, c, before + u + after) == Over(a.step, a.mix, c, before + v + after) <==> u == v
  {
    SplitThree(a.step, a.mix, c, before, u, after);
    SplitThree(a.step, a.mix, c, before, v, after);
    if Over(a.step, a.mix, c, before + u + after) == Over(a.step, a.mix, c, before + v + after) {
      var r := Over(a.step, a.mix, c, before);
      RestInjective(a, Over(a.step, a.mix, r, u), Over(a.step, a.mix, r, v), after);
      ActsAsWord(a, r, u);
      ActsAsWord(a, r, v);
      TimesInjective(a, a.absorb(r, WordOf(a, u)), a.absorb(r, WordOf(a, v)), |u|);
      WordInjective(a, u, v);
    }
  }
}
