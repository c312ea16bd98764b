/** The forms of an address: what the flags of ascfnode print, and what parsefnode accepts
    beside that. */
module FtnForms {
  import opened Bytes
  import opened Decimal
  import opened FtnAddress

  // ----- printing

  lemma Alone(s: string)
    ensures s + "" + "" + "" + "" == s && "" + s + "" + "" + "" == s && "" + "" + s + "" + "" == s
    ensures "" + "" + "" + s + "" == s && "" + "" + "" + "" + s == s
  {
  }

  lemma PointFlag(a: Faddr)
    ensures Printed(a, 0x01) == if a.point != 0 then "." + Dec(a.point) else ""
  {
    Alone(PointText(a.point));
  }

  lemma NodeFlag(a: Faddr)
    ensures Printed(a, 0x02) == Dec(a.node)
  {
    Alone(Dec(a.node));
  }

  lemma NetFlag(a: Faddr)
    ensures Printed(a, 0x04) == Dec(a.net) + "/"
  {
    Alone(Dec(a.net) + "/");
  }

  lemma ZoneFlag(a: Faddr)
    ensures Printed(a, 0x08) == if a.zone != 0 then Dec(a.zone) + ":" else ""
  {
    Alone(ZoneText(a.zone));
  }

  lemma DomainFlag(a: Faddr)
    ensures Printed(a, 0x10) == if a.domain.Some? then "@" + a.domain.value else ""
  {
    Alone(DomainText(a.domain));
  }

  /** Each flag prints its own part. */
  lemma OneFlag(a: Faddr)
    ensures Printed(a, 0x01) == if a.point != 0 then "." + Dec(a.point) else ""
    ensures Printed(a, 0x02) == Dec(a.node)
    ensures Printed(a, 0x04) == Dec(a.net) + "/"
    ensures Printed(a, 0x08) == if a.zone != 0 then Dec(a.zone) + ":" else ""
    ensures Printed(a, 0x10) == if a.domain.Some? then "@" + a.domain.value else ""
  {
    PointFlag(a);
    NodeFlag(a);
    NetFlag(a);
    ZoneFlag(a);
    DomainFlag(a);
  }

  lemma InOrder(a: string, b: string, c: string, d: string)
    ensures "" + "" + c + d + "" == c + d && "" + b + c + "" + "" == b + c
    ensures "" + b + c + d + "" == b + c + d && a + b + c + "" + "" == a + b + c && a + b + c + d + "" == a + b + c + d
  {
  }

  lemma NodeAndPoint(a: Faddr, f: string, p: string)
    requires f == Dec(a.node) && p == PointText(a.point)
    ensures Printed(a, 0x03) == f + p
  {
    InOrder("", "", f, p);
  }

  lemma NetAndNode(a: Faddr, n: string, f: string)
    requires n == Dec(a.net) + "/" && f == Dec(a.node)
    ensures Printed(a, 0x06) == n + f
  {
    InOrder("", n, f, "");
  }

  lemma NetNodePoint(a: Faddr, n: string, f: string, p: string)
    requires n == Dec(a.net) + "/" && f == Dec(a.node) && p == PointText(a.point)
    ensures Printed(a, 0x07) == n + f + p
  {
    InOrder("", n, f, p);
  }

  lemma ZoneSets(a: Faddr, z: string, n: string, f: string, p: string, d: string)
    requires z == ZoneText(a.zone) && n == Dec(a.net) + "/" && f == Dec(a.node) && p == PointText(a.point) && d == DomainText(a.domain)
    ensures Printed(a, 0x0e) == z + n + f && Printed(a, 0x0f) == z + n + f + p && Printed(a, 0x1f) == z + n + f + p + d
  {
    InOrder(z, n, f, p);
  }

  /** The parts come in the order of the address: node and point, net and node, the address in
      its zone, with its zone, and with its point. */
  lemma FlagSets(a: Faddr)
    ensures Printed(a, 0x03) == Printed(a, 0x02) + Printed(a, 0x01)
    ensures Printed(a, 0x06) == Printed(a, 0x04) + Printed(a, 0x02)
    ensures Printed(a, 0x07) == Printed(a, 0x04) + Printed(a, 0x02) + Printed(a, 0x01)
    ensures Printed(a, 0x0e) == Printed(a, 0x08) + Printed(a, 0x04) + Printed(a, 0x02)
    ensures Printed(a, 0x0f) == Printed(a, 0x08) + Printed(a, 0x04) + Printed(a, 0x02) + Printed(a, 0x01)
    ensures Printed(a, 0x1f) == Printed(a, 0x0f) + Printed(a, 0x10)
  {
    OneFlag(a);
    NodeAndPoint(a, Dec(a.node), PointText(a.point));
    NetAndNode(a, Dec(a.net) + "/", Dec(a.node));
    NetNodePoint(a, Dec(a.net) + "/", Dec(a.node), PointText(a.point));
    ZoneSets(a, ZoneText(a.zone), Dec(a.net) + "/", Dec(a.node), PointText(a.point), DomainText(a.domain));
  }

  // ----- numbers

  /** A number, or a star that stands for all. */
  predicate IsPart(s: string) { AllDigits(s) || s == "*" }

  function PartValue(s: string): word
    requires IsPart(s)
  {
    if s == "*" then 0xffff_ffff else ValueOf(s) % 0x1_0000_0000
  }

  lemma PartLacks(s: string, c: char)
    requires IsPart(s) && (c == ':' || c == '/' || c == '.')
    ensures c !in s
  {
    if AllDigits(s) { DigitsLack(s, c); }
  }

  lemma BeforeMark(s: string, c: char, t: string)
    requires IsPart(s) && (c == ':' || c == '/' || c == '.')
    ensures Before(s + [c] + t, c) == (Some(PartValue(s)), t)
  {
    PartLacks(s, c);
    CutAt(s, c, t);
  }

  lemma NotIn3(a: string, m: string, b: string, c: char)
    requires c !in a && c !in m && c !in b
    ensures c !in a + m + b
  {
  }

  /** Any of the four numbers may be a star, or left out. */
  lemma AnyParts(z: string, n: string, f: string, p: string, domain: Option<string>)
    requires IsPart(z) && IsPart(n) && IsPart(f) && IsPart(p)
    ensures Numbers(z + ":" + (n + "/" + (f + "." + p)), domain) ==
            Address(Faddr(PartValue(z), PartValue(n), PartValue(f), PartValue(p), domain))
  {
    var s2 := f + "." + p;
    var s1 := n + "/" + s2;
    BeforeMark(z, ':', s1);
    BeforeMark(n, '/', s2);
    BeforeMark(f, '.', p);
  }

  /** Net and zone count as 0 when they and their marks are left out, and so does the point. */
  lemma FewerParts(n: string, f: string, domain: Option<string>)
    requires IsPart(n) && IsPart(f)
    ensures Numbers(n + "/" + f, domain) == Address(Faddr(0, PartValue(n), PartValue(f), 0, domain))
    ensures Numbers(f, domain) == Address(Faddr(0, 0, PartValue(f), 0, domain))
  {
    PartLacks(n, ':');
    PartLacks(f, ':');
    PartLacks(f, '/');
    PartLacks(f, '.');
    NotIn3(n, "/", f, ':');
    BeforeMark(n, '/', f);
  }

  /** A node that is neither a number nor a star makes the text no address. */
  lemma BadNode(n: string, f: string, domain: Option<string>)
    requires IsPart(n) && !IsPart(f) && ':' !in f && '/' !in f && '.' !in f
    ensures Numbers(n + "/" + f, domain) == NotAddress
  {
    PartLacks(n, ':');
    NotIn3(n, "/", f, ':');
    BeforeMark(n, '/', f);
  }

  // ----- marks, brackets and white space

  lemma NoBlankParts(t: string)
    requires t != "" && ' ' !in t && !IsSpace(t[0]) && !Opens(t[0]) && !IsSpace(t[|t| - 1])
    ensures Parse(t) == Numbers(Halves(t, None).0, NoDots(Halves(t, None).1))
  {
    Intact(t);
  }

  lemma NumbersLack(a: Faddr, c: char)
    requires !NumberChar(c)
    ensures c !in NumberText(a)
  {
    NumberTextChars(a);
  }

  /** A percent sign serves for the at-sign. */
  lemma PercentMark(a: Faddr, d: string)
    requires Clean(d) && '%' !in d
    ensures Parse(NumberText(a) + "%" + d) == Address(a.(domain := Some(d)))
  {
    var n := NumberText(a);
    var t := n + "%" + d;
    NumberTextChars(a);
    NumbersLack(a, '@');
    NumbersLack(a, ' ');
    NotIn3(n, "%", d, '@');
    NotIn3(n, "%", d, ' ');
    Grouped(n, "%", d);
    Ends(n, "%" + d);
    if d != "" { Ends("%", d); }
    CutLastAt(n, '%', d);
    NoBlankParts(t);
    NumbersRead(a, Some(d));
  }

  /** Before a hash the domain stands in front of the numbers. */
  lemma HashMark(a: Faddr, d: string)
    requires d != "" && '@' !in d && '%' !in d && ' ' !in d && '.' !in d && !IsSpace(d[0]) && !Opens(d[0])
    ensures Parse(d + "#" + NumberText(a)) == Address(a.(domain := Some(d)))
  {
    var n := NumberText(a);
    var t := d + "#" + n;
    NumberTextChars(a);
    NumbersLack(a, '@');
    NumbersLack(a, '%');
    NumbersLack(a, ' ');
    NumbersLack(a, '#');
    NotIn3(d, "#", n, '@');
    NotIn3(d, "#", n, '%');
    NotIn3(d, "#", n, ' ');
    Grouped(d, "#", n);
    Ends(d, "#" + n);
    Ends("#", n);
    CutLastAt(d, '#', n);
    NoBlankParts(t);
    NumbersRead(a, Some(d));
  }

  /** One pair of brackets or quotes around a printed address is taken off. */
  lemma Bracketed(a: Faddr, b: string)
    requires b in ["()", "\"\"", "''", "<>", "[]", "{}"] && (a.domain.Some? ==> Clean(a.domain.value))
    ensures Parse([b[0]] + Text(a) + [b[1]]) == Address(a)
  {
    var t := [b[0]] + Text(a) + [b[1]];
    PairOf(b);
    LastCharOf(a);
    Enclosed(b[0], Text(a), b[1], t);
    TextTrimmed(a);
    HalvesRead(a);
    NumbersRead(a, NoDots(a.domain));
  }

  lemma PairOf(b: string)
    requires b in ["()", "\"\"", "''", "<>", "[]", "{}"]
    ensures |b| == 2 && Pair(b[0], b[1]) && !IsSpace(b[0]) && !IsSpace(b[1])
  {
    if b == "()" {} else if b == "\"\"" {} else if b == "''" {} else if b == "<>" {} else if b == "[]" {} else {}
  }

  lemma Enclosed(o: char, s: string, c: char, t: string)
    requires Pair(o, c) && !IsSpace(o) && !IsSpace(c) && t == [o] + s + [c]
    ensures Unbracket(TrimEnd(SkipSpace(t))) == s
  {
    assert t[0] == o && t[|t| - 1] == c && t[1..|t| - 1] == s;
  }

  /** Blanks, tabs, line ends and form feeds. */
  predicate AllSpace(s: string) { forall i :: 0 <= i < |s| ==> s[i] == ' ' || 9 <= s[i] as int <= 13 }

  lemma {:induction false} SpaceBefore(w: string, t: string)
    requires AllSpace(w) && t != "" && !IsSpace(t[0])
    ensures SkipSpace(w + t) == t
    decreases |w|
  {
    if w == "" {
      assert w + t == t;
    } else {
      assert (w + t)[0] == w[0] && (w + t)[1..] == w[1..] + t;
      SpaceBefore(w[1..], t);
    }
  }

  lemma {:induction false} SpaceAfter(t: string, w: string)
    requires AllSpace(w) && t != "" && !IsSpace(t[|t| - 1])
    ensures TrimEnd(t + w) == t
    decreases |w|
  {
    if w == "" {
      assert t + w == t;
    } else {
      assert (t + w)[|t + w| - 1] == w[|w| - 1] && (t + w)[..|t + w| - 1] == t + w[..|w| - 1];
      SpaceAfter(t, w[..|w| - 1]);
    }
  }

  lemma SpaceTrimmed(v: string, t: string, w: string)
    requires AllSpace(v) && AllSpace(w) && t != "" && !IsSpace(t[0]) && !Opens(t[0]) && !IsSpace(t[|t| - 1])
    ensures Unbracket(TrimEnd(SkipSpace(v + (t + w)))) == t
  {
    Ends(t, w);
    SpaceBefore(v, t + w);
    SpaceAfter(t, w);
    Intact(t);
  }

  lemma FirstChar(a: Faddr)
    ensures Text(a) != "" && IsDigit(Text(a)[0])
  {
    NumberTextChars(a);
    Ends(NumberText(a), DomainText(a.domain));
  }

  /** White space around a printed address is dropped. */
  lemma Spaced(v: string, a: Faddr, w: string)
    requires AllSpace(v) && AllSpace(w) && (a.domain.Some? ==> Clean(a.domain.value))
    ensures Parse(v + (Text(a) + w)) == Address(a)
  {
    FirstChar(a);
    LastCharOf(a);
    SpaceTrimmed(v, Text(a), w);
    TextTrimmed(a);
    RoundTrip(a);
  }

  // ----- names

  lemma {:induction false} CutBackStops(t: string, c: nat)
    requires c <= |t|
    ensures CutBack(t, c) > 0 <==> exists i :: 0 <= i < c && !IsGap(t[i])
  {
    if c > 0 && IsGap(t[c - 1]) {
      CutBackStops(t, c - 1);
    } else if c > 0 {
      assert !IsGap(t[c - 1]);
    }
  }

  /** A name is cut without looking in front of it exactly when it has four characters, trimmed,
      and one before the last three is neither white space nor a comma. */
  lemma NameStands(m: string)
    ensures NameOf(m).Some? <==> |TrimEnd(m)| >= 4 && exists i :: 0 <= i < |TrimEnd(m)| - 3 && !IsGap(TrimEnd(m)[i])
  {
    var t := TrimEnd(m);
    if |t| >= 4 { CutBackStops(t, |t| - 3); }
  }

  /** So a name of at least four characters in front of a printed address is dropped. */
  lemma NameInFront(m: string, a: Faddr)
    requires |m| >= 4 && !IsGap(m[0]) && !Opens(m[0]) && !IsSpace(m[|m| - 1])
    requires if a.domain.Some? then Clean(a.domain.value) else '@' !in m
    ensures Parse(m + " " + Text(a)) == Address(a)
  {
    NameStands(m);
    assert TrimEnd(m) == m;
    NameStarts(m);
    NameDropped(m, a, m + " " + Text(a));
  }

  lemma {:induction false} CutBackTo(n: string, g: string, t: string)
    requires n != "" && !IsGap(n[|n| - 1]) && n + g <= t && forall i :: 0 <= i < |g| ==> g[i] == ' ' || g[i] == ','
    ensures CutBack(t, |n| + |g|) == |n|
    decreases |g|
  {
    assert forall i :: 0 <= i < |n| + |g| ==> t[i] == (n + g)[i];
    if g != "" {
      var h := g[..|g| - 1];
      assert n + h <= t;
      CutBackTo(n, h, t);
    }
  }

  /** The name of a user at an address: cut before the word of, in any case, and the blanks and
      commas in front of it, and to 35 characters. */
  lemma NameBeforeOf(n: string, g: string, word: string)
    requires n != "" && !IsGap(n[|n| - 1]) && word in ["of", "oF", "Of", "OF"]
    requires forall i :: 0 <= i < |g| ==> g[i] == ' ' || g[i] == ','
    ensures NameOf(n + g + (" " + word)) == Some(if |n| > 35 then n[..35] else n)
  {
    var t := n + g + (" " + word);
    OfEnds(n + g, word);
    assert TrimEnd(t) == t;
    CutBackTo(n, g, t);
    assert t[..|n|] == n;
  }

  lemma OfEnds(s: string, word: string)
    requires word in ["of", "oF", "Of", "OF"]
    ensures var t := s + (" " + word); |t| == |s| + 3 && EndsInOf(t) && !IsSpace(t[|t| - 1])
  {
    var t := s + (" " + word);
    assert t[|t| - 3..] == " " + word;
    if word == "of" {} else if word == "oF" {} else if word == "Of" {} else {}
  }
}
