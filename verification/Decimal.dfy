/** Numbers as decimal text, and the searches in strings that the address parsers use. */
module Decimal {
  import opened Bytes

  predicate IsDigit(c: char) { '0' <= c <= '9' }

  predicate AllDigits(s: string) { forall i :: 0 <= i < |s| ==> IsDigit(s[i]) }

  predicate IsSpace(c: char) { c == ' ' || 9 <= c as int <= 13 }

  /** A number as %u and %d print it. */
  function Dec(n: nat): (s: string)
    ensures s != "" && AllDigits(s)
    ensures if n == 0 then s == "0" else s[0] != '0'
  {
    if n < 10 then [('0' as int + n) as char] else Dec(n / 10) + [('0' as int + n % 10) as char]
  }

  /** The number that digits stand for. */
  function ValueOf(s: string): nat
    requires AllDigits(s)
  {
    if s == "" then 0 else 10 * ValueOf(s[..|s| - 1]) + (s[|s| - 1] as int - '0' as int)
  }

  lemma {:induction false} DecValue(n: nat)
    ensures ValueOf(Dec(n)) == n
  {
    if n >= 10 {
      DecValue(n / 10);
      assert Dec(n)[..|Dec(n)| - 1] == Dec(n / 10);
    } else {
      assert Dec(n)[..0] == "";
    }
  }

  /** The longest start of s that is digits. */
  function Digits(s: string): (r: string)
    ensures AllDigits(r) && |r| <= |s|
  {
    if s != "" && IsDigit(s[0]) then [s[0]] + Digits(s[1..]) else ""
  }

  lemma {:induction false} DigitsAll(s: string)
    requires AllDigits(s)
    ensures Digits(s) == s
  {
    if s != "" { DigitsAll(s[1..]); assert s == [s[0]] + s[1..]; }
  }

  function SkipSpace(s: string): (r: string)
    ensures |r| <= |s|
  {
    if s != "" && IsSpace(s[0]) then SkipSpace(s[1..]) else s
  }

  /** atoi, for numbers that fit. */
  function Atoi(s: string): int
  {
    var t := SkipSpace(s);
    if t != "" && t[0] == '-' then 0 - ValueOf(Digits(t[1..]))
    else if t != "" && t[0] == '+' then ValueOf(Digits(t[1..]))
    else ValueOf(Digits(t))
  }

  lemma AtoiDec(n: nat)
    ensures Atoi(Dec(n)) == n
  {
    DigitsAll(Dec(n));
    DecValue(n);
    assert IsDigit(Dec(n)[0]);
  }

  /** atoi reads a number with a sign. */
  lemma AtoiSigned(n: nat)
    ensures Atoi("-" + Dec(n)) == 0 - n && Atoi("+" + Dec(n)) == n
  {
    DigitsAll(Dec(n));
    DecValue(n);
    assert ("-" + Dec(n))[1..] == Dec(n) && ("+" + Dec(n))[1..] == Dec(n);
  }

  lemma Grouped(a: string, b: string, c: string)
    ensures a + b + c == a + (b + c)
  {
  }

  // ----- searching

  /** The parts before and after the first c. */
  function Cut(s: string, c: char): (r: Option<(string, string)>)
    ensures r.None? <==> c !in s
    ensures r.Some? ==> c !in r.value.0 && s == r.value.0 + [c] + r.value.1
  {
    if s == "" then None
    else if s[0] == c then assert s == "" + [c] + s[1..]; Some(("", s[1..]))
    else
      match Cut(s[1..], c)
      case None => None
      case Some((a, b)) =>
        assert s == [s[0]] + s[1..] && [s[0]] + (a + [c] + b) == ([s[0]] + a) + [c] + b;
        Some(([s[0]] + a, b))
  }

  lemma {:induction false} CutAt(a: string, c: char, b: string)
    requires c !in a
    ensures Cut(a + [c] + b, c) == Some((a, b))
  {
    var s := a + [c] + b;
    if a == "" {
      assert s[0] == c && s[1..] == b;
    } else {
      assert s[0] == a[0] && s[1..] == a[1..] + [c] + b;
      CutAt(a[1..], c, b);
      assert a == [a[0]] + a[1..];
    }
  }

  /** The parts before and after the last c. */
  function CutLast(s: string, c: char): (r: Option<(string, string)>)
    ensures r.None? <==> c !in s
    ensures r.Some? ==> c !in r.value.1 && s == r.value.0 + [c] + r.value.1
  {
    if s == "" then None
    else
      var init, last := s[..|s| - 1], s[|s| - 1];
      if last == c then Some((init, ""))
      else
        match CutLast(init, c)
        case None => None
        case Some((a, b)) => assert a + [c] + (b + [last]) == (a + [c] + b) + [last]; Some((a, b + [last]))
  }

  lemma {:induction false} CutLastAt(a: string, c: char, b: string)
    requires c !in b
    ensures CutLast(a + [c] + b, c) == Some((a, b))
  {
    var s := a + [c] + b;
    if b == "" {
      assert s[..|s| - 1] == a;
    } else {
      var init := b[..|b| - 1];
      assert s[..|s| - 1] == a + [c] + init && s[|s| - 1] == b[|b| - 1];
      CutLastAt(a, c, init);
      assert b == init + [b[|b| - 1]];
    }
  }

  lemma DigitsLack(s: string, c: char)
    requires AllDigits(s) && !IsDigit(c)
    ensures c !in s
  {
  }
}
