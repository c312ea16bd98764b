/** The system's own addresses as text, lib/faddr.c: aka2str prints them, str2aka reads them. */
module AkaText {
  import opened Bytes
  import opened Decimal

  type word16 = x: int | 0 <= x < 0x1_0000

  const DOMAIN_SIZE: nat := 12
  const TEXT_SIZE: nat := 42

  /** fidoaddr */
  datatype Aka = Aka(zone: word16, net: word16, node: word16, point: word16, domain: string)

  const NO_AKA := Aka(0, 0, 0, 0, "")

  // ----- printing

  function NodeText(a: Aka): string { Dec(a.node) + if a.point == 0 then "" else "." + Dec(a.point) }

  function NumberText(a: Aka): string { Dec(a.zone) + ":" + (Dec(a.net) + "/" + NodeText(a)) }

  function Text(a: Aka): string { NumberText(a) + if a.domain == "" then "" else "@" + a.domain }

  /** snprintf into the result buffer. */
  function Clip(s: string): (r: string)
    ensures r <= s && |r| == if |s| <= TEXT_SIZE then |s| else TEXT_SIZE
  {
    if |s| <= TEXT_SIZE then s else s[..TEXT_SIZE]
  }

  /** aka2str */
  method Aka2Str(a: Aka) returns (result: string)
    ensures result == Clip(Text(a))
    ensures result <= Text(a) && |result| == if |Text(a)| <= 42 then |Text(a)| else 42
  {
    if a.domain != "" {
      if a.point == 0 {
        Joined5(Dec(a.zone), Dec(a.net), Dec(a.node), "", "@" + a.domain);
        result := Clip(Dec(a.zone) + ":" + Dec(a.net) + "/" + Dec(a.node) + "" + ("@" + a.domain));
      } else {
        Joined5(Dec(a.zone), Dec(a.net), Dec(a.node), "." + Dec(a.point), "@" + a.domain);
        result := Clip(Dec(a.zone) + ":" + Dec(a.net) + "/" + Dec(a.node) + ("." + Dec(a.point)) + ("@" + a.domain));
      }
    } else {
      if a.point == 0 {
        Joined5(Dec(a.zone), Dec(a.net), Dec(a.node), "", "");
        result := Clip(Dec(a.zone) + ":" + Dec(a.net) + "/" + Dec(a.node) + "" + "");
      } else {
        Joined5(Dec(a.zone), Dec(a.net), Dec(a.node), "." + Dec(a.point), "");
        result := Clip(Dec(a.zone) + ":" + Dec(a.net) + "/" + Dec(a.node) + ("." + Dec(a.point)) + "");
      }
    }
  }

  lemma Joined5(z: string, n: string, f: string, p: string, d: string)
    ensures z + ":" + n + "/" + f + p + d == (z + ":" + (n + "/" + (f + p))) + d
  {
  }

  // ----- reading

  function Skip(s: string, c: char): (r: string)
    ensures |r| <= |s|
  {
    if s != "" && s[0] == c then Skip(s[1..], c) else s
  }

  /** strtok with one delimiter: the next token, if there is one, and what it leaves. */
  function Token(s: string, c: char): (Option<string>, string)
  {
    var t := Skip(s, c);
    if t == "" then (None, "")
    else
      match Cut(t, c)
      case Some((a, b)) => (Some(a), b)
      case None => (Some(t), "")
  }

  /** atoi into an unsigned short. */
  function Short(s: string): word16 { Atoi(s) % 0x1_0000 }

  /** The numbers of an address text that ends in a tilde; nothing, if a number is missing and
      atoi would be given a null pointer. */
  function Numbers(a: string, domain: string): Option<Aka>
  {
    var (zone, r1) := Token(a, ':');
    var (net, r2) := Token(r1, '/');
    if '.' !in a then
      var (node, r3) := Token(r2, '~');
      if zone.Some? && net.Some? && node.Some? then Some(Aka(Short(zone.value), Short(net.value), Short(node.value), 0, domain))
      else None
    else
      var (node, r3) := Token(r2, '.');
      var (point, r4) := Token(r3, '~');
      if zone.Some? && net.Some? && node.Some? && point.Some? then
        Some(Aka(Short(zone.value), Short(net.value), Short(node.value), Short(point.value), domain))
      else None
  }

  /** What str2aka reads; nothing where it would write past the domain or use a null pointer. */
  function Read(addr: string): Option<Aka>
  {
    var b := addr + "~";
    if |addr| > TEXT_SIZE || ':' !in b || '/' !in b then Some(NO_AKA)
    else if '@' !in b then Numbers(b, "")
    else
      var (temp, rest) := Token(b, '@');
      var p := Token(rest, '~').0;
      var domain := if p.Some? then p.value else "";
      if |domain| > DOMAIN_SIZE || temp.None? then None else Numbers(temp.value + "~", domain)
  }

  /** str2aka */
  method Str2Aka(addr: string) returns (n: Option<Aka>)
    ensures n == Read(addr)
    ensures |addr| > 42 || ':' !in addr || '/' !in addr ==> n == Some(Aka(0, 0, 0, 0, ""))
    ensures n.Some? ==> |n.value.domain| <= 12
  {
    n := Some(NO_AKA);
    if |addr| > TEXT_SIZE {
      return;
    }
    var b := addr + "~";
    if ':' !in b || '/' !in b {
      return;
    }
    var a, domain := b, "";
    if '@' in b {
      var temp := Token(b, '@');
      var p := Token(temp.1, '~').0;
      if p.Some? {
        domain := p.value;
      }
      if |domain| > DOMAIN_SIZE || temp.0.None? {
        return None;
      }
      a := temp.0.value + "~";
    }
    var zone := Token(a, ':');
    var net := Token(zone.1, '/');
    var node := Token(net.1, if '.' in a then '.' else '~');
    if zone.0.None? || net.0.None? || node.0.None? {
      return None;
    }
    var point: word16 := 0;
    if '.' in a {
      var t := Token(node.1, '~').0;
      if t.None? {
        return None;
      }
      point := Short(t.value);
    }
    n := Some(Aka(Short(zone.0.value), Short(net.0.value), Short(node.0.value), point, domain));
  }

  // ----- round trip

  lemma TokenAt(a: string, c: char, b: string, s: string)
    requires a != "" && c !in a && s == a + [c] + b
    ensures Token(s, c) == (Some(a), b)
  {
    assert s[0] == a[0];
    CutAt(a, c, b);
  }

  lemma ShortDec(n: word16)
    ensures Short(Dec(n)) == n
  {
    AtoiDec(n);
  }

  lemma DigitsOnly(n: nat, c: char)
    requires !IsDigit(c)
    ensures Dec(n) != "" && c !in Dec(n)
  {
  }

  lemma TextTokens(a: Aka, s: string)
    requires s == NumberText(a) + "~"
    ensures var r1, r2 := Dec(a.net) + "/" + (NodeText(a) + "~"), NodeText(a) + "~";
            Token(s, ':') == (Some(Dec(a.zone)), r1) && Token(r1, '/') == (Some(Dec(a.net)), r2)
  {
    var r1, r2 := Dec(a.net) + "/" + (NodeText(a) + "~"), NodeText(a) + "~";
    DigitsOnly(a.zone, ':');
    DigitsOnly(a.net, '/');
    Grouped(Dec(a.net) + "/", NodeText(a), "~");
    Grouped(Dec(a.zone) + ":", Dec(a.net) + "/" + NodeText(a), "~");
    TokenAt(Dec(a.zone), ':', r1, s);
    TokenAt(Dec(a.net), '/', r2, r1);
  }

  lemma NodeTokens(a: Aka, s: string)
    requires s == NodeText(a) + "~"
    ensures a.point == 0 ==> Token(s, '~') == (Some(Dec(a.node)), "")
    ensures a.point != 0 ==>
              && Token(s, '.') == (Some(Dec(a.node)), Dec(a.point) + "~")
              && Token(Dec(a.point) + "~", '~').0 == Some(Dec(a.point))
  {
    DigitsOnly(a.node, '~');
    DigitsOnly(a.node, '.');
    DigitsOnly(a.point, '~');
    if a.point == 0 {
      Grouped(Dec(a.node), "", "~");
      assert Dec(a.node) + "~" == Dec(a.node) + "~" + "" && "" + "~" == "~";
      TokenAt(Dec(a.node), '~', "", s);
    } else {
      Grouped(Dec(a.node), "." + Dec(a.point), "~");
      Grouped(".", Dec(a.point), "~");
      Grouped(Dec(a.node), ".", Dec(a.point) + "~");
      TokenAt(Dec(a.node), '.', Dec(a.point) + "~", s);
      assert Dec(a.point) + "~" == Dec(a.point) + "~" + "";
      TokenAt(Dec(a.point), '~', "", Dec(a.point) + "~");
    }
  }

  lemma DotOrNot(a: Aka, s: string)
    requires s == NumberText(a) + "~"
    ensures '.' in s <==> a.point != 0
    ensures ':' in s && '/' in s && '@' !in s
  {
    DigitsOnly(a.zone, '.');
    DigitsOnly(a.net, '.');
    DigitsOnly(a.node, '.');
  }

  lemma NumbersRead(a: Aka, s: string, domain: string)
    requires s == NumberText(a) + "~"
    ensures Numbers(s, domain) == Some(a.(domain := domain))
  {
    DotOrNot(a, s);
    TextTokens(a, s);
    NodeTokens(a, NodeText(a) + "~");
    ShortDec(a.zone);
    ShortDec(a.net);
    ShortDec(a.node);
    ShortDec(a.point);
  }

  lemma DecShort(n: nat)
    requires n < 0x1_0000
    ensures |Dec(n)| <= 5
  {
    assert n / 10 < 6554 && n / 10 / 10 < 656 && n / 10 / 10 / 10 < 66 && n / 10 / 10 / 10 / 10 < 7;
    assert |Dec(n / 10 / 10 / 10)| <= 2;
    assert |Dec(n / 10 / 10)| <= 3;
  }

  lemma TextFits(a: Aka)
    requires |a.domain| <= DOMAIN_SIZE
    ensures |Text(a)| <= TEXT_SIZE
  {
    DecShort(a.zone);
    DecShort(a.net);
    DecShort(a.node);
    DecShort(a.point);
  }

  /** The first token of a domain. */
  function FirstToken(d: string): string
  {
    var p := Token(d + "~", '~').0;
    if p.Some? then p.value else ""
  }

  lemma {:induction false} SkipEnds(s: string, c: char)
    ensures Skip(s, c) == "" || Skip(s, c)[|Skip(s, c)| - 1] == s[|s| - 1]
  {
    if s != "" && s[0] == c { SkipEnds(s[1..], c); }
  }

  /** It is no longer than the domain and has no tilde. */
  lemma TokenShort(d: string)
    ensures |FirstToken(d)| <= |d| && '~' !in FirstToken(d)
  {
    SkipEnds(d + "~", '~');
  }

  /** A domain without a tilde is its own first token. */
  lemma TokenWhole(d: string)
    requires '~' !in d
    ensures FirstToken(d) == d
  {
    if d != "" {
      assert d + "~" == d + "~" + "";
      TokenAt(d, '~', "", d + "~");
    }
  }

  lemma NumberStart(a: Aka)
    ensures NumberText(a) != "" && '@' !in NumberText(a) && ':' in NumberText(a) && '/' in NumberText(a)
  {
    var s := NumberText(a);
    DotOrNot(a, s + "~");
    assert forall i :: 0 <= i < |s| ==> (s + "~")[i] == s[i];
    assert s[|Dec(a.zone)|] == ':';
    assert s[|Dec(a.zone)| + 1 + |Dec(a.net)|] == '/';
  }

  /** Around the at-sign of a printed address. */
  lemma AtSign(a: Aka, n: string, rest: string, b: string)
    requires n == NumberText(a) && b == n + ("@" + rest)
    ensures ':' in b && '/' in b && '@' in b && Token(b, '@') == (Some(n), rest)
  {
    NumberStart(a);
    Grouped(n, "@", rest);
    TokenAt(n, '@', rest, b);
    assert b[|n|] == '@' && n <= b;
  }

  lemma PrintedAt(a: Aka)
    requires a.domain != ""
    ensures Text(a) + "~" == NumberText(a) + ("@" + (a.domain + "~"))
  {
    Grouped(NumberText(a), "@" + a.domain, "~");
    Grouped("@", a.domain, "~");
  }

  /** Of a printed address str2aka gives back everything but what follows a tilde in the domain. */
  lemma DomainToTilde(a: Aka)
    requires |a.domain| <= DOMAIN_SIZE
    ensures Read(Text(a)) == Some(a.(domain := FirstToken(a.domain)))
  {
    TextFits(a);
    TokenShort(a.domain);
    if a.domain == "" {
      assert Text(a) == NumberText(a);
      DotOrNot(a, NumberText(a) + "~");
      NumbersRead(a, NumberText(a) + "~", "");
      TokenWhole("");
    } else {
      PrintedAt(a);
      AtSign(a, NumberText(a), a.domain + "~", Text(a) + "~");
      NumbersRead(a, NumberText(a) + "~", FirstToken(a.domain));
    }
  }

  /** str2aka undoes aka2str exactly when the domain has no tilde. */
  lemma RoundTripExactly(a: Aka)
    requires |a.domain| <= DOMAIN_SIZE
    ensures Read(Text(a)) == Some(a) <==> '~' !in a.domain
  {
    DomainToTilde(a);
    TokenShort(a.domain);
    if '~' !in a.domain { TokenWhole(a.domain); }
  }

  lemma FirstTokenIs(a: string, rest: string, d: string)
    requires a != "" && '~' !in a && d == a + "~" + rest
    ensures FirstToken(d) == a
  {
    Grouped(a + "~", rest, "~");
    TokenAt(a, '~', rest + "~", d + "~");
  }

  /** A domain with a tilde in it is cut. */
  lemma TildeCuts(a: Aka)
    requires a.domain == "a~b"
    ensures Read(Text(a)) == Some(a.(domain := "a"))
  {
    DomainToTilde(a);
    FirstTokenIs("a", "b", "a~b");
  }

  /** aka2str and then str2aka. */
  method PrintThenRead(a: Aka) returns (n: Option<Aka>)
    requires |a.domain| <= DOMAIN_SIZE
    ensures n == Some(a) <==> '~' !in a.domain
  {
    var result := Aka2Str(a);
    TextFits(a);
    n := Str2Aka(result);
    RoundTripExactly(a);
  }
}
