/** Fidonet addresses as text, lib/ftn.c: ascfnode prints them, parsefnode reads them. */
module FtnAddress {
  import opened Bytes
  import opened Decimal

  /** faddr without its name; a missing domain is a NULL pointer. */
  datatype Faddr = Faddr(zone: word, net: word, node: word, point: word, domain: Option<string>)

  /** What parsefnode makes of a text; with too short a name in front of the address it reads
      memory in front of the name. */
  datatype Parsed = Address(a: Faddr) | NotAddress | Overrun

  const BUFSIZE: nat := 128

  // ----- printing

  function ZoneText(n: word): string { if n != 0 then Dec(n) + ":" else "" }

  function PointText(n: word): string { if n != 0 then "." + Dec(n) else "" }

  function DomainText(d: Option<string>): string { match d case None => "" case Some(s) => "@" + s }

  /** The part of the text with the numbers. */
  function NumberText(a: Faddr): string { ZoneText(a.zone) + (Dec(a.net) + "/" + (Dec(a.node) + PointText(a.point))) }

  /** All five parts. */
  function Text(a: Faddr): string { NumberText(a) + DomainText(a.domain) }

  /** The bit of fl. */
  predicate Bit(fl: nat, bit: nat)
    requires bit > 0
  {
    fl / bit % 2 == 1
  }

  function Chosen(on: bool, s: string): string { if on then s else "" }

  /** The parts that the flags choose. */
  function Printed(a: Faddr, fl: nat): string
  {
    Chosen(Bit(fl, 0x08), ZoneText(a.zone)) + Chosen(Bit(fl, 0x04), Dec(a.net) + "/") + Chosen(Bit(fl, 0x02), Dec(a.node)) +
    Chosen(Bit(fl, 0x01), PointText(a.point)) + Chosen(Bit(fl, 0x10), DomainText(a.domain))
  }

  lemma Concat5(a: string, b: string, c: string, d: string, e: string)
    ensures a + b + c + d + e == (a + (b + (c + d))) + e
  {
  }

  /** Flags 0x1f choose everything. */
  lemma AllPrinted(a: Faddr)
    ensures Printed(a, 0x1f) == Text(a)
  {
    Concat5(ZoneText(a.zone), Dec(a.net) + "/", Dec(a.node), PointText(a.point), DomainText(a.domain));
  }

  /** What fits the buffer. */
  function Clip(s: string): (r: string)
    ensures r <= s && |r| == if |s| < BUFSIZE then |s| else BUFSIZE - 1
  {
    if |s| < BUFSIZE then s else s[..BUFSIZE - 1]
  }

  lemma ClipMore(a: string, b: string)
    ensures Clip(Clip(a) + b) == Clip(a + b)
  {
    if |a| >= BUFSIZE { assert (Clip(a) + b)[..BUFSIZE - 1] == (a + b)[..BUFSIZE - 1]; }
  }

  /** snprintf of a part at the end of the buffer, if the part is wanted. */
  method Put(buf: string, on: bool, s: string, ghost text: string) returns (r: string, ghost more: string)
    requires buf == Clip(text)
    ensures more == text + Chosen(on, s) && r == Clip(more)
  {
    r, more := buf, text + Chosen(on, s);
    ClipMore(text, s);
    assert text + "" == text;
    if on {
      r := Clip(buf + s);
    }
  }

  /** ascfnode without a name: the chosen parts, as far as they fit the buffer. */
  method AscFnode(a: Faddr, fl: nat) returns (buf: string)
    ensures buf == Clip(Printed(a, fl))
    ensures buf <= Printed(a, fl) && |buf| == if |Printed(a, fl)| < 128 then |Printed(a, fl)| else 127
  {
    buf := "";
    ghost var text := "";
    buf, text := Put(buf, Bit(fl, 0x08), ZoneText(a.zone), text);
    buf, text := Put(buf, Bit(fl, 0x04), Dec(a.net) + "/", text);
    buf, text := Put(buf, Bit(fl, 0x02), Dec(a.node), text);
    buf, text := Put(buf, Bit(fl, 0x01), PointText(a.point), text);
    buf, text := Put(buf, Bit(fl, 0x10), DomainText(a.domain), text);
    assert "" + Chosen(Bit(fl, 0x08), ZoneText(a.zone)) == Chosen(Bit(fl, 0x08), ZoneText(a.zone));
  }

  // ----- reading

  /** One number, or a star for all. */
  function Part(s: string): Option<word>
  {
    if AllDigits(s) then Some(ValueOf(s) % 0x1_0000_0000) else if s == "*" then Some(0xffff_ffff) else None
  }

  /** The number before mark c, if there is one, and the rest. */
  function Before(s: string, c: char): (Option<word>, string)
  {
    match Cut(s, c)
    case None => (Some(0), s)
    case Some((a, b)) => (Part(a), b)
  }

  function Numbers(s: string, domain: Option<string>): Parsed
  {
    var (zone, s1) := Before(s, ':');
    var (net, s2) := Before(s1, '/');
    var (node, point) :=
      match Cut(s2, '.')
      case None => (Part(s2), Some(0))
      case Some((a, b)) => (Part(a), Part(b));
    if zone.Some? && net.Some? && node.Some? && point.Some? then
      Address(Faddr(zone.value, net.value, node.value, point.value, domain))
    else NotAddress
  }

  /** Text without a line end and blanks at its end. */
  function TrimEnd(s: string): (r: string)
    ensures |r| <= |s|
  {
    if s != "" && IsSpace(s[|s| - 1]) then TrimEnd(s[..|s| - 1]) else s
  }

  predicate Pair(a: char, b: char)
  {
    (a == '(' && b == ')') || (a == '"' && b == '"') || (a == '\'' && b == '\'') || (a == '<' && b == '>') ||
    (a == '[' && b == ']') || (a == '{' && b == '}')
  }

  function Unbracket(s: string): string
  {
    if s != "" && Pair(s[0], s[|s| - 1]) then if |s| == 1 then "" else s[1..|s| - 1] else s
  }

  const MAXNAME: nat := 35

  predicate IsGap(c: char) { IsSpace(c) || c == ',' }

  predicate EndsInOf(t: string)
    requires |t| >= 3
  {
    var e := t[|t| - 3..];
    e[0] == ' ' && (e[1] == 'o' || e[1] == 'O') && (e[2] == 'f' || e[2] == 'F')
  }

  /** The number of characters that are left of the first c of t without blanks and commas. */
  function CutBack(t: string, c: nat): (r: nat)
    requires c <= |t|
    ensures r <= c
  {
    if c > 0 && IsGap(t[c - 1]) then CutBack(t, c - 1) else c
  }

  /** The name in front of an address as parsefnode cuts it, or nothing if it looks in front of it. */
  function NameOf(n: string): (r: Option<string>)
    ensures r.Some? ==> r.value <= TrimEnd(n)
  {
    var t := TrimEnd(n);
    if |t| < 4 then None
    else
      var c := CutBack(t, |t| - 3);
      var v := if c < |t| - 3 then t[..c] else if EndsInOf(t) then t[..|t| - 3] else if t[|t| - 2..] == " @" then t[..|t| - 2] else t;
      if c == 0 then None else Some(if |v| > MAXNAME then v[..MAXNAME] else v)
  }

  /** The numbers' text and the domain's: around the last at-sign, else percent sign, else hash,
      else the last at-sign of the name. */
  function Halves(s: string, name: Option<string>): (string, Option<string>)
  {
    match CutLast(s, '@')
    case Some((a, b)) => (a, Some(b))
    case None =>
      match CutLast(s, '%')
      case Some((a, b)) => (a, Some(b))
      case None =>
        match CutLast(s, '#')
        case Some((a, b)) => (b, Some(a))
        case None =>
          if name.None? then (s, None)
          else
            match CutLast(name.value, '@')
            case Some((a, b)) => (a, Some(b))
            case None => (s, None)
  }

  /** A domain ends at its first dot. */
  function NoDots(d: Option<string>): Option<string>
  {
    match d
    case None => None
    case Some(s) => match Cut(s, '.') case None => Some(s) case Some((a, b)) => Some(a)
  }

  /** The numbers' text and the domain's of a trimmed text, with or without a name in front. */
  function PartsOf(t: string): Option<(string, Option<string>)>
  {
    match CutLast(t, ' ')
    case None => Some(Halves(t, None))
    case Some((n, rest)) =>
      var name := NameOf(n);
      if name.None? then None else Some(Halves(rest, name))
  }

  function Parse(s: string): Parsed
  {
    match PartsOf(Unbracket(TrimEnd(SkipSpace(s))))
    case None => Overrun
    case Some((str, d)) => Numbers(str, NoDots(d))
  }

  /** The blocks of parsefnode that read a number before a mark. */
  method ReadBefore(str: string, c: char, good: bool) returns (n: word, rest: string, ok: bool)
    ensures var (v, r) := Before(str, c); rest == r && (ok <==> good && v.Some?) && (v.Some? ==> n == v.value)
  {
    n, rest, ok := 0, str, good;
    var p := Cut(str, c);
    if p.Some? {
      var v := Part(p.value.0);
      if v.Some? { n := v.value; } else { ok := false; }
      rest := p.value.1;
    }
  }

  /** The start of parsefnode: white space and a pair of brackets are taken off. */
  method TrimText(s: string) returns (str: string)
    ensures str == Unbracket(TrimEnd(SkipSpace(s)))
  {
    str := s;
    while str != "" && IsSpace(str[0])
      invariant SkipSpace(str) == SkipSpace(s)
      decreases |str|
    {
      str := str[1..];
    }
    while str != "" && IsSpace(str[|str| - 1])
      invariant TrimEnd(str) == TrimEnd(SkipSpace(s))
      decreases |str|
    {
      str := str[..|str| - 1];
    }
    if str != "" && Pair(str[0], str[|str| - 1]) {
      str := if |str| == 1 then "" else str[1..|str| - 1];
    }
  }

  /** The blocks of parsefnode that read the numbers. */
  method ReadNumbers(s: string, domain: Option<string>) returns (r: Parsed)
    ensures r == Numbers(s, domain)
  {
    var str, zone, net, node, point: word, good := s, 0, 0, 0, 0, true;
    zone, str, good := ReadBefore(str, ':', good);
    net, str, good := ReadBefore(str, '/', good);
    var p := Cut(str, '.');
    var v := Part(if p.Some? then p.value.0 else str);
    if v.Some? { node := v.value; } else { good := false; }
    if p.Some? {
      v := Part(p.value.1);
      if v.Some? { point := v.value; } else { good := false; }
    }
    r := if good then Address(Faddr(zone, net, node, point, domain)) else NotAddress;
  }

  /** The block of parsefnode that cuts the name. */
  method CutName(n: string) returns (name: Option<string>)
    ensures name == NameOf(n)
  {
    var t := n;
    while t != "" && IsSpace(t[|t| - 1])
      invariant TrimEnd(t) == TrimEnd(n)
      decreases |t|
    {
      t := t[..|t| - 1];
    }
    if |t| < 4 {
      return None;
    }
    var u := t;
    if EndsInOf(t) {
      u := t[..|t| - 3];
    } else if t[|t| - 2..] == " @" {
      u := t[..|t| - 2];
    }
    var c: nat := |t| - 3;
    while c > 0 && IsGap(t[c - 1])
      invariant c <= |t| - 3 && CutBack(t, c) == CutBack(t, |t| - 3)
      decreases c
    {
      c := c - 1;
    }
    if c == 0 {
      return None;
    }
    if c < |t| - 3 {
      u := t[..c];
    }
    name := Some(if |u| > MAXNAME then u[..MAXNAME] else u);
  }

  /** parsefnode */
  method ParseFnode(s: string) returns (r: Parsed)
    ensures r == Parse(s)
  {
    var str := TrimText(s);
    var p := CutLast(str, ' ');
    var name: Option<string> := None;
    if p.Some? {
      name := CutName(p.value.0);
      if name.None? {
        return Overrun;
      }
      str := p.value.1;
    }
    var halves := Halves(str, name);
    r := ReadNumbers(halves.0, NoDots(halves.1));
  }

  // ----- round trip

  lemma PartOfDec(n: word)
    ensures Part(Dec(n)) == Some(n)
  {
    DecValue(n);
  }

  lemma CutBefore(a: string, b: string)
    requires '.' !in a
    ensures Cut(a + ("." + b), '.') == Some((a, b)) && Cut(a, '.') == None && a + "" == a
  {
    Grouped(a, ".", b);
    CutAt(a, '.', b);
  }

  lemma PointRead(node: word, point: word)
    ensures var s := Dec(node) + PointText(point);
            if point != 0 then Cut(s, '.') == Some((Dec(node), Dec(point))) else s == Dec(node) && Cut(s, '.') == None
  {
    DigitsLack(Dec(node), '.');
    CutBefore(Dec(node), if point != 0 then Dec(point) else "");
  }

  lemma NodeLacks(node: word, point: word, c: char)
    requires !IsDigit(c) && c != '.'
    ensures c !in Dec(node) + PointText(point)
  {
  }

  lemma NetRead(net: word, s: string)
    ensures Before(Dec(net) + "/" + s, '/') == (Some(net), s)
    ensures ':' !in s ==> ':' !in Dec(net) + "/" + s
  {
    DigitsLack(Dec(net), '/');
    CutAt(Dec(net), '/', s);
    PartOfDec(net);
  }

  lemma ZoneRead(zone: word, s: string)
    requires ':' !in s
    ensures Before(ZoneText(zone) + s, ':') == (Some(zone), s)
  {
    if zone != 0 {
      DigitsLack(Dec(zone), ':');
      CutAt(Dec(zone), ':', s);
      PartOfDec(zone);
    } else {
      assert "" + s == s;
    }
  }

  lemma NumbersRead(a: Faddr, domain: Option<string>)
    ensures Numbers(NumberText(a), domain) == Address(a.(domain := domain))
  {
    var s2 := Dec(a.node) + PointText(a.point);
    NodeLacks(a.node, a.point, ':');
    NetRead(a.net, s2);
    ZoneRead(a.zone, Dec(a.net) + "/" + s2);
    PointRead(a.node, a.point);
    PartOfDec(a.node);
    PartOfDec(a.point);
  }

  predicate NumberChar(c: char) { IsDigit(c) || c == ':' || c == '/' || c == '.' }

  lemma NumberTextChars(a: Faddr)
    ensures var s := NumberText(a); s != "" && IsDigit(s[0]) && forall i :: 0 <= i < |s| ==> NumberChar(s[i])
    ensures IsDigit(NumberText(a)[|NumberText(a)| - 1])
  {
    var s := NumberText(a);
    if a.zone != 0 { assert s[0] == Dec(a.zone)[0]; } else { assert s[0] == Dec(a.net)[0]; }
  }

  /** A domain that parsefnode gives back: no dot, at-sign or blank, and no white space at its end. */
  predicate Clean(d: string) { '.' !in d && Whole(d) }

  /** A domain that reaches the reader of domains in one piece. */
  predicate Whole(d: string) { '@' !in d && ' ' !in d && (d != "" ==> !IsSpace(d[|d| - 1])) }

  /** A character that parsefnode may take off as a bracket. */
  predicate Opens(c: char) { c in "(\"'<[{" }

  lemma Intact(t: string)
    requires t != "" && !IsSpace(t[0]) && !Opens(t[0]) && !IsSpace(t[|t| - 1])
    ensures SkipSpace(t) == t && TrimEnd(t) == t && Unbracket(t) == t
  {
  }

  lemma Ends(a: string, b: string)
    ensures a != "" ==> (a + b)[0] == a[0]
    ensures b != "" ==> (a + b)[|a + b| - 1] == b[|b| - 1]
    ensures b == "" ==> a + b == a
  {
  }

  lemma NothingTrimmed(s: string, d: Option<string>)
    requires s != "" && IsDigit(s[0]) && IsDigit(s[|s| - 1]) && (forall i :: 0 <= i < |s| ==> NumberChar(s[i]))
    requires d.Some? ==> Whole(d.value)
    ensures var t := s + DomainText(d); Unbracket(TrimEnd(SkipSpace(t))) == t && ' ' !in t
  {
    var e := DomainText(d);
    var t := s + e;
    Ends(s, e);
    if d.Some? { Ends("@", d.value); }
    Intact(t);
  }

  lemma TextTrimmed(a: Faddr)
    requires a.domain.Some? ==> Whole(a.domain.value)
    ensures var t := Text(a); Unbracket(TrimEnd(SkipSpace(t))) == t && ' ' !in t
  {
    NumberTextChars(a);
    NothingTrimmed(NumberText(a), a.domain);
  }

  lemma HalvesOf(s: string, d: Option<string>)
    requires (forall i :: 0 <= i < |s| ==> NumberChar(s[i])) && (d.Some? ==> '@' !in d.value)
    ensures Halves(s + DomainText(d), None) == (s, d)
    ensures d.Some? ==> forall name :: Halves(s + DomainText(d), name) == (s, d)
  {
    if d.Some? {
      Grouped(s, "@", d.value);
      CutLastAt(s, '@', d.value);
    } else {
      assert s + "" == s;
    }
  }

  lemma HalvesRead(a: Faddr)
    requires a.domain.Some? ==> '@' !in a.domain.value
    ensures Halves(Text(a), None) == (NumberText(a), a.domain)
    ensures a.domain.Some? ==> forall name :: Halves(Text(a), name) == (NumberText(a), a.domain)
  {
    NumberTextChars(a);
    HalvesOf(NumberText(a), a.domain);
  }

  /** Of a printed address parsefnode gives back everything but what follows a dot in the domain. */
  lemma DomainToDot(a: Faddr)
    requires a.domain.Some? ==> Whole(a.domain.value)
    ensures Parse(Text(a)) == Address(a.(domain := NoDots(a.domain)))
  {
    TextTrimmed(a);
    HalvesRead(a);
    NumbersRead(a, NoDots(a.domain));
  }

  /** parsefnode undoes ascfnode. */
  lemma RoundTrip(a: Faddr)
    requires a.domain.Some? ==> Clean(a.domain.value)
    ensures Parse(Text(a)) == Address(a)
  {
    DomainToDot(a);
  }

  /** A domain with a dot in it is cut. */
  lemma DotCuts(a: Faddr)
    requires a.domain == Some("a.b")
    ensures Parse(Text(a)) == Address(a.(domain := Some("a")))
  {
    DomainToDot(a);
    CutAt("a", '.', "b");
    assert "a" + "." + "b" == "a.b";
  }

  // ----- exactly

  lemma {:induction false} TrimEndPrefix(s: string, t: string)
    requires s != "" && !IsSpace(s[|s| - 1])
    ensures s <= TrimEnd(s + t)
    decreases |t|
  {
    if t == "" {
      assert s + t == s;
    } else {
      assert (s + t)[..|s + t| - 1] == s + t[..|t| - 1];
      TrimEndPrefix(s, t[..|t| - 1]);
    }
  }

  lemma {:induction false} TrimEndIsPrefix(s: string)
    ensures TrimEnd(s) <= s && (TrimEnd(s) != "" ==> !IsSpace(TrimEnd(s)[|TrimEnd(s)| - 1]))
  {
    if s != "" && IsSpace(s[|s| - 1]) {
      TrimEndIsPrefix(s[..|s| - 1]);
    }
  }

  /** The part of a prefix of a text beyond a prefix of both. */
  lemma PrefixRest(p: string, d: string, t: string)
    requires p <= t <= p + d
    ensures t == p + t[|p|..] && t[|p|..] <= d
  {
    var e := t[|p|..];
    forall i | 0 <= i < |e| ensures e[i] == d[i] { assert t[|p| + i] == (p + d)[|p| + i]; }
  }

  /** What is left of a text that starts with p once its end is trimmed. */
  lemma TrimmedStart(p: string, d: string) returns (e: string)
    requires p != "" && !IsSpace(p[|p| - 1])
    ensures TrimEnd(p + d) == p + e && e <= d && (e == d ==> d == "" || !IsSpace(d[|d| - 1]))
  {
    TrimEndPrefix(p, d);
    TrimEndIsPrefix(p + d);
    var t := TrimEnd(p + d);
    PrefixRest(p, d, t);
    e := t[|p|..];
    Ends(p, e);
  }

  /** What is left of a printed text with a domain once it is trimmed. */
  lemma TrimmedText(a: Faddr, d: string) returns (e: string)
    requires a.domain == Some(d)
    ensures Unbracket(TrimEnd(SkipSpace(Text(a)))) == NumberText(a) + "@" + e && e <= d
    ensures e == d ==> d == "" || !IsSpace(d[|d| - 1])
  {
    var n := NumberText(a);
    var p := n + "@";
    NumberTextChars(a);
    Grouped(n, "@", d);
    e := TrimmedStart(p, d);
    FirstIsDigit(p, d);
    FirstIsDigit(p, e);
  }

  lemma FirstIsDigit(p: string, d: string)
    requires p != "" && IsDigit(p[0])
    ensures SkipSpace(p + d) == p + d && Unbracket(p + d) == p + d
  {
    Ends(p, d);
  }

  /** A name that starts like a printed address with a domain gives a domain no longer than that. */
  lemma NameDomain(n: string, e: string, name: string)
    requires '@' !in n && name <= n + "@" + e && '@' in name
    ensures |CutLast(name, '@').value.1| <= |e|
  {
    var (a, b) := CutLast(name, '@').value;
    if |a| < |n| { assert false; }
  }

  lemma BlankInDomain(n: string, e: string, f: string, t: string)
    requires ' ' !in f && t == n + "@" + (e + " " + f)
    ensures CutLast(t, ' ') == Some((n + "@" + e, f))
  {
    assert t == (n + "@" + e) + [' '] + f;
    CutLastAt(n + "@" + e, ' ', f);
  }

  /** The domain is part of the text or of the name. */
  lemma HalvesBound(s: string, name: Option<string>)
    ensures var d := Halves(s, name).1;
            d.Some? ==> |d.value| <= |s| || (name.Some? && '@' in name.value && d.value == CutLast(name.value, '@').value.1)
  {
  }

  lemma PartsAtBlank(t: string, m: string, f: string)
    requires CutLast(t, ' ') == Some((m, f))
    ensures PartsOf(t) == if NameOf(m).None? then None else Some(Halves(f, NameOf(m)))
  {
  }

  lemma NameStarts(m: string)
    ensures NameOf(m).Some? ==> NameOf(m).value <= m
  {
    TrimEndIsPrefix(m);
  }

  /** With a blank in the domain of a printed address a shorter domain is read, if any. */
  lemma BlankShortens(n: string, e: string, t: string)
    requires '@' !in n && ' ' in e && t == n + "@" + e
    ensures PartsOf(t).Some? && PartsOf(t).value.1.Some? ==> |PartsOf(t).value.1.value| < |e|
  {
    var (e', f) := CutLast(e, ' ').value;
    var m := n + "@" + e';
    BlankInDomain(n, e', f, t);
    PartsAtBlank(t, m, f);
    NameStarts(m);
    var name := NameOf(m);
    HalvesBound(f, name);
    if name.Some? && '@' in name.value { NameDomain(n, e', name.value); }
  }

  /** A domain read whole from a text without blanks has no dot and no at-sign. */
  lemma NoBlankDomain(n: string, e: string, d: string, t: string)
    requires '@' !in n && ' ' !in t && t == n + "@" + e && e <= d && NoDots(PartsOf(t).value.1) == Some(d)
    ensures e == d && '.' !in d && '@' !in d && ' ' !in d
  {
    assert t[|n|] == '@';
    var b := CutLast(t, '@').value.1;
    assert d <= b && '.' !in d && '@' !in d;
    CutLastAt(n, '@', e);
    forall i | 0 <= i < |e| ensures e[i] != ' ' { assert t[|n| + 1 + i] == e[i]; }
  }

  /** A domain read whole from a printed address has no dot, at-sign or blank. */
  lemma WholeDomain(n: string, e: string, d: string, t: string)
    requires '@' !in n && ' ' !in n && t == n + "@" + e && e <= d && PartsOf(t).Some? && NoDots(PartsOf(t).value.1) == Some(d)
    ensures e == d && '.' !in d && '@' !in d && ' ' !in d
  {
    if ' ' in e {
      BlankShortens(n, e, t);
    } else {
      assert ' ' !in t;
      NoBlankDomain(n, e, d, t);
    }
  }

  lemma ParsedDomain(s: string, a: Faddr)
    requires Parse(s) == Address(a)
    ensures var p := PartsOf(Unbracket(TrimEnd(SkipSpace(s)))); p.Some? && NoDots(p.value.1) == a.domain
  {
  }

  lemma NumberTextLacks(a: Faddr)
    ensures '@' !in NumberText(a) && ' ' !in NumberText(a)
  {
    NumberTextChars(a);
  }

  /** parsefnode undoes ascfnode only for clean domains. */
  lemma RoundTripClean(a: Faddr, d: string)
    requires a.domain == Some(d) && Parse(Text(a)) == Address(a)
    ensures Clean(d)
  {
    var e := TrimmedText(a, d);
    NumberTextLacks(a);
    ParsedDomain(Text(a), a);
    WholeDomain(NumberText(a), e, d, NumberText(a) + "@" + e);
  }

  /** parsefnode undoes ascfnode exactly for addresses without a domain or with a clean one. */
  lemma RoundTripExactly(a: Faddr)
    ensures Parse(Text(a)) == Address(a) <==> a.domain.None? || Clean(a.domain.value)
  {
    if a.domain.None? || Clean(a.domain.value) { RoundTrip(a); }
    if a.domain.Some? && Parse(Text(a)) == Address(a) { RoundTripClean(a, a.domain.value); }
  }

  /** A name in front of a printed address is dropped, unless it has an at-sign and the address
      no domain. */
  lemma NameDropped(m: string, a: Faddr, s: string)
    requires m != "" && !IsSpace(m[0]) && !Opens(m[0]) && NameOf(m).Some? && s == m + " " + Text(a)
    requires if a.domain.Some? then Clean(a.domain.value) else '@' !in NameOf(m).value
    ensures Parse(s) == Address(a)
  {
    NamedTrimmed(m, a, s);
    HalvesNamed(a, NameOf(m));
    NumbersRead(a, a.domain);
  }

  lemma HalvesNamed(a: Faddr, name: Option<string>)
    requires name.Some? && if a.domain.Some? then Clean(a.domain.value) else '@' !in name.value
    ensures Halves(Text(a), name) == (NumberText(a), a.domain) && NoDots(a.domain) == a.domain
  {
    HalvesRead(a);
    if a.domain.None? {
      NumberTextChars(a);
      assert Text(a) == NumberText(a);
    }
  }

  lemma NamedTrimmed(m: string, a: Faddr, s: string)
    requires m != "" && !IsSpace(m[0]) && !Opens(m[0]) && s == m + " " + Text(a)
    requires a.domain.Some? ==> Whole(a.domain.value)
    ensures Unbracket(TrimEnd(SkipSpace(s))) == s && CutLast(s, ' ') == Some((m, Text(a)))
  {
    LastCharOf(a);
    TextTrimmed(a);
    CutLastAt(m, ' ', Text(a));
    Ends(m, " ");
    Ends(m + " ", Text(a));
    Intact(s);
  }

  /** A printed address does not end in white space. */
  lemma LastCharOf(a: Faddr)
    requires a.domain.Some? ==> Whole(a.domain.value)
    ensures Text(a) != "" && !IsSpace(Text(a)[|Text(a)| - 1])
  {
    NumberTextChars(a);
    Ends(NumberText(a), DomainText(a.domain));
    if a.domain.Some? { Ends("@", a.domain.value); }
  }

  /** ascfnode with flags 0x1f and then parsefnode, for an address whose text fits the buffer. */
  method PrintThenParse(a: Faddr) returns (r: Parsed)
    requires |Text(a)| < BUFSIZE
    ensures r == Address(a) <==> a.domain.None? || Clean(a.domain.value)
  {
    var buf := AscFnode(a, 0x1f);
    AllPrinted(a);
    r := ParseFnode(buf);
    RoundTripExactly(a);
  }
}
