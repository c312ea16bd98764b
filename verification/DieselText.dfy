/** The two scanners of the DIESEL interpreter: copying text up to a macro, and splitting a
    macro into its arguments.  Both take one level of quotes off what they copy. */
module DieselText {
  import opened Bytes

  const QUOTE: char := '"'
  const MACROCHAR: char := '@'
  const ARGOPEN: char := '('
  const ARGCLOSE: char := ')'
  const ARGSEP: char := ','
  const MAXARGS: nat := 10

  /** What ended a copy: the end of the input, the end inside a quoted string, or a macro. */
  datatype End = AtEnd | InString | AtMacro

  /** Text copied, what ended it, and the input from there on. */
  datatype Copied = Copied(text: string, end: End, rest: string)
  {
    function After(s: string): Copied { this.(text := s + text) }
  }

  /** copymode, with instring as a parameter. */
  function Copy(s: string, instring: bool): (r: Copied)
    ensures |r.rest| <= |s| && (r.end.AtMacro? ==> 0 < |r.rest| < |s| && r.rest[0] == ARGOPEN)
  {
    if s == "" then Copied("", if instring then InString else AtEnd, "")
    else if s[0] == QUOTE then
      if !instring then Copy(s[1..], true)
      else if |s| > 1 && s[1] == QUOTE then Copy(s[2..], true).After([QUOTE])
      else Copy(s[1..], false)
    else if s[0] == MACROCHAR && !instring && |s| > 1 && s[1] == ARGOPEN then Copied("", AtMacro, s[1..])
    else Copy(s[1..], instring).After([s[0]])
  }

  /** A macro's arguments and the input after it; or no macro, because it does not end or has
      too many arguments. */
  datatype Scanned = Scanned(args: seq<string>, rest: string) | Unmatched
  {
    /** With more text at the front of the first argument. */
    function After(s: string): Scanned
    {
      if Scanned? && args != [] then Scanned([s + args[0]] + args[1..], rest) else this
    }
  }

  ghost predicate Shorter(args: seq<string>, n: int) { forall i :: 0 <= i < |args| ==> |args[i]| < n }

  /** macromode after its opening bracket; depth counts open brackets, nargs separators. */
  function Scan(s: string, instring: bool, depth: nat, nargs: nat): (r: Scanned)
    ensures r.Scanned? ==> r.args != [] && |r.rest| < |s| && Shorter(r.args, |s|)
    ensures r.Scanned? && nargs < MAXARGS ==> nargs + |r.args| <= MAXARGS
  {
    if s == "" then Unmatched
    else if s[0] == QUOTE then
      if !instring then Scan(s[1..], true, depth, nargs)
      else if |s| > 1 && s[1] == QUOTE then Scan(s[2..], true, depth, nargs).After([QUOTE])
      else Scan(s[1..], false, depth, nargs)
    else if s[0] == ARGOPEN && !instring then Scan(s[1..], instring, depth + 1, nargs).After([ARGOPEN])
    else if s[0] == ARGCLOSE && !instring then
      if depth == 0 then Scanned([""], s[1..])
      else Scan(s[1..], instring, depth - 1, nargs).After([ARGCLOSE])
    else if s[0] == ARGSEP && !instring && depth == 0 then
      if nargs >= MAXARGS - 1 then Unmatched
      else
        var r := Scan(s[1..], instring, depth, nargs + 1);
        if r.Scanned? then Scanned([""] + r.args, r.rest) else r
    else Scan(s[1..], instring, depth, nargs).After([s[0]])
  }

  // ----- quoting

  /** Every quote doubled. */
  function Doubled(s: string): string
  {
    if s == "" then "" else Head(s) + Doubled(s[1..])
  }

  /** s as a quoted string. */
  function Q(s: string): string { [QUOTE] + Doubled(s) + [QUOTE] }

  /** A text after which a quote that closes a string is not taken for a doubled one. */
  predicate NoQuote(t: string) { t == "" || t[0] != QUOTE }

  lemma CopyAfterAfter(r: Copied, a: string, b: string)
    ensures r.After(b).After(a) == r.After(a + b)
    ensures r.After("") == r
  {
    assert a + (b + r.text) == (a + b) + r.text;
    assert "" + r.text == r.text;
  }

  lemma Regroup(a: string, b: string, c: string, d: string)
    ensures (a + b) + c + d == a + (b + c + d)
  {
  }

  lemma DropPrefix(a: string, b: string)
    ensures (a + b)[|a|..] == b && (a != "" ==> (a + b)[0] == a[0]) && (|a| > 1 ==> (a + b)[1] == a[1])
  {
  }

  function Head(s: string): string
    requires s != ""
  {
    if s[0] == QUOTE then [QUOTE, QUOTE] else [s[0]]
  }

  /** What follows the first character of a quoted string's inside. */
  lemma DoubledTail(s: string, t: string)
    requires s != ""
    ensures var all, more := Doubled(s) + [QUOTE] + t, Doubled(s[1..]) + [QUOTE] + t;
            all == Head(s) + more && all[0] == s[0] && all[|Head(s)|..] == more && (s[0] == QUOTE ==> all[1] == QUOTE)
    ensures s == [s[0]] + s[1..]
  {
    Regroup(Head(s), Doubled(s[1..]), [QUOTE], t);
    DropPrefix(Head(s), Doubled(s[1..]) + [QUOTE] + t);
  }

  lemma DoubledEnd(t: string)
    ensures var all := Doubled("") + [QUOTE] + t; all[0] == QUOTE && all[1..] == t && |all| == |t| + 1
    ensures NoQuote(t) ==> |t| > 0 ==> (Doubled("") + [QUOTE] + t)[1] != QUOTE
  {
  }

  lemma {:induction false} CopyDoubled(s: string, t: string)
    requires NoQuote(t)
    ensures Copy(Doubled(s) + [QUOTE] + t, true) == Copy(t, false).After(s)
  {
    if s == "" {
      DoubledEnd(t);
      CopyAfterAfter(Copy(t, false), "", "");
    } else {
      DoubledTail(s, t);
      CopyDoubled(s[1..], t);
      CopyAfterAfter(Copy(t, false), [s[0]], s[1..]);
    }
  }

  lemma QuotedTail(s: string, t: string)
    ensures (Q(s) + t)[0] == QUOTE && (Q(s) + t)[1..] == Doubled(s) + [QUOTE] + t
  {
  }

  /** Copying takes a quoted string for its text. */
  lemma CopyQuoted(s: string, t: string)
    requires NoQuote(t)
    ensures Copy(Q(s) + t, false) == Copy(t, false).After(s)
  {
    CopyDoubled(s, t);
    QuotedTail(s, t);
  }

  lemma AfterAfter(r: Scanned, a: string, b: string)
    ensures r.After(b).After(a) == r.After(a + b)
    ensures r.After("") == r
  {
    if r.Scanned? && r.args != [] {
      assert a + (b + r.args[0]) == (a + b) + r.args[0];
      assert [r.args[0]] + r.args[1..] == r.args && "" + r.args[0] == r.args[0];
      assert r.After(b).args[1..] == r.args[1..];
    }
  }

  lemma {:induction false} ScanDoubled(s: string, t: string, depth: nat, nargs: nat)
    requires NoQuote(t)
    ensures Scan(Doubled(s) + [QUOTE] + t, true, depth, nargs) == Scan(t, false, depth, nargs).After(s)
  {
    var r := Scan(t, false, depth, nargs);
    if s == "" {
      DoubledEnd(t);
      AfterAfter(r, "", "");
    } else {
      DoubledTail(s, t);
      ScanDoubled(s[1..], t, depth, nargs);
      AfterAfter(r, [s[0]], s[1..]);
    }
  }

  /** Scanning takes a quoted string for its text, brackets and separators included. */
  lemma ScanQuoted(s: string, t: string, depth: nat, nargs: nat)
    requires NoQuote(t)
    ensures Scan(Q(s) + t, false, depth, nargs) == Scan(t, false, depth, nargs).After(s)
  {
    ScanDoubled(s, t, depth, nargs);
    QuotedTail(s, t);
  }

  // ----- plain text

  predicate PlainChar(c: char) { c != QUOTE && c != MACROCHAR && c != ARGOPEN && c != ARGCLOSE && c != ARGSEP }

  predicate Plain(s: string) { forall i :: 0 <= i < |s| ==> PlainChar(s[i]) }

  lemma HeadTail(s: string, t: string)
    requires s != ""
    ensures (s + t)[0] == s[0] && (s + t)[1..] == s[1..] + t && [s[0]] + s[1..] == s
  {
  }

  lemma {:induction false} CopyPlain(s: string, t: string)
    requires Plain(s)
    ensures Copy(s + t, false) == Copy(t, false).After(s)
  {
    if s == "" {
      assert s + t == t && "" + Copy(t, false).text == Copy(t, false).text;
    } else {
      var r := Copy(t, false);
      CopyPlain(s[1..], t);
      HeadTail(s, t);
      HeadTail(s, r.text);
      CopyAfterAfter(r, [s[0]], s[1..]);
    }
  }

  // ----- texts that are one argument

  /** What a text makes of itself when it is scanned as part of one argument: all of it is
      consumed, and it ends outside strings and with its brackets closed. */
  function Piece(s: string, instring: bool, depth: nat): Option<string>
  {
    if s == "" then if !instring && depth == 0 then Some("") else None
    else if s[0] == QUOTE then
      if !instring then Piece(s[1..], true, depth)
      else if |s| > 1 && s[1] == QUOTE then Front([QUOTE], Piece(s[2..], true, depth))
      else Piece(s[1..], false, depth)
    else if s[0] == ARGOPEN && !instring then Front([s[0]], Piece(s[1..], instring, depth + 1))
    else if s[0] == ARGCLOSE && !instring then
      if depth == 0 then None else Front([s[0]], Piece(s[1..], instring, depth - 1))
    else if s[0] == ARGSEP && !instring && depth == 0 then None
    else Front([s[0]], Piece(s[1..], instring, depth))
  }

  function Front(a: string, o: Option<string>): Option<string>
  {
    match o case None => None case Some(b) => Some(a + b)
  }

  /** A text that scans as one argument. */
  predicate OneArg(s: string) { Piece(s, false, 0).Some? }

  function ArgOf(s: string): string
    requires OneArg(s)
  {
    Piece(s, false, 0).value
  }

  lemma {:induction false} PieceScan(s: string, t: string, instring: bool, depth: nat, nargs: nat)
    requires Piece(s, instring, depth).Some? && NoQuote(t)
    ensures Scan(s + t, instring, depth, nargs) == Scan(t, false, 0, nargs).After(Piece(s, instring, depth).value)
    decreases |s|
  {
    var r := Scan(t, false, 0, nargs);
    if s == "" {
      assert s + t == t;
      AfterAfter(r, "", "");
    } else {
      assert (s + t)[0] == s[0] && (s + t)[1..] == s[1..] + t;
      if s[0] == QUOTE {
        if !instring {
          PieceScan(s[1..], t, true, depth, nargs);
        } else if |s| > 1 && s[1] == QUOTE {
          assert (s + t)[1] == QUOTE && (s + t)[2..] == s[2..] + t;
          PieceScan(s[2..], t, true, depth, nargs);
          AfterAfter(r, [QUOTE], Piece(s[2..], true, depth).value);
        } else {
          PieceScan(s[1..], t, false, depth, nargs);
        }
      } else {
        var d := if instring then depth else if s[0] == ARGOPEN then depth + 1 else if s[0] == ARGCLOSE then depth - 1 else depth;
        PieceScan(s[1..], t, instring, d, nargs);
        AfterAfter(r, [s[0]], Piece(s[1..], instring, d).value);
      }
    }
  }

  lemma {:induction false} PlainPiece(s: string)
    requires Plain(s)
    ensures Piece(s, false, 0) == Some(s)
  {
    if s != "" { PlainPiece(s[1..]); assert s == [s[0]] + s[1..]; }
  }

  lemma FrontFront(o: Option<string>, a: string, b: string)
    ensures Front(a, Front(b, o)) == Front(a + b, o)
    ensures Front("", o) == o
  {
    if o.Some? {
      assert a + (b + o.value) == (a + b) + o.value && "" + o.value == o.value;
    }
  }

  lemma {:induction false} DoubledPiece(s: string, t: string, depth: nat)
    requires NoQuote(t)
    ensures Piece(Doubled(s) + [QUOTE] + t, true, depth) == Front(s, Piece(t, false, depth))
  {
    var r := Piece(t, false, depth);
    if s == "" {
      DoubledEnd(t);
      FrontFront(r, "", "");
    } else {
      DoubledTail(s, t);
      DoubledPiece(s[1..], t, depth);
      FrontFront(r, [s[0]], s[1..]);
    }
  }

  /** A quoted string is one argument, whatever is in it. */
  lemma QuotedPiece(s: string, t: string, depth: nat)
    requires NoQuote(t)
    ensures Piece(Q(s) + t, false, depth) == Front(s, Piece(t, false, depth))
  {
    DoubledPiece(s, t, depth);
    QuotedTail(s, t);
  }

  lemma QuotedIsOneArg(s: string)
    ensures Piece(Q(s), false, 0) == Some(s)
  {
    QuotedPiece(s, "", 0);
    assert Q(s) + "" == Q(s) && s + "" == s;
  }

  // ----- whole macros

  /** Argument texts with separators between them. */
  function Joined(ps: seq<string>): string
    requires ps != []
  {
    if |ps| == 1 then ps[0] else ps[0] + [ARGSEP] + Joined(ps[1..])
  }

  /** The text of a macro with these argument texts. */
  function MacroText(ps: seq<string>): string
    requires ps != []
  {
    [MACROCHAR, ARGOPEN] + Joined(ps) + [ARGCLOSE]
  }

  ghost predicate AllOneArg(ps: seq<string>) { forall i :: 0 <= i < |ps| ==> OneArg(ps[i]) }

  function ArgsOf(ps: seq<string>): (a: seq<string>)
    requires AllOneArg(ps)
    ensures |a| == |ps| && forall i :: 0 <= i < |ps| ==> a[i] == ArgOf(ps[i])
  {
    if ps == [] then [] else [ArgOf(ps[0])] + ArgsOf(ps[1..])
  }

  lemma ScanClose(rest: string, nargs: nat)
    ensures Scan([ARGCLOSE] + rest, false, 0, nargs) == Scanned([""], rest)
  {
    assert ([ARGCLOSE] + rest)[1..] == rest;
  }

  lemma ScanSep(more: string, nargs: nat, args: seq<string>, rest: string)
    requires nargs + 1 < MAXARGS && Scan(more, false, 0, nargs + 1) == Scanned(args, rest)
    ensures Scan([ARGSEP] + more, false, 0, nargs) == Scanned([""] + args, rest)
  {
    assert ([ARGSEP] + more)[1..] == more;
  }

  lemma FirstArg(a: string, args: seq<string>, rest: string)
    ensures Scanned([""] + args, rest).After(a) == Scanned([a] + args, rest)
  {
    assert ([""] + args)[1..] == args && a + "" == a;
  }

  lemma JoinedMore(a: string, b: string, rest: string)
    ensures a + [ARGSEP] + b + [ARGCLOSE] + rest == a + ([ARGSEP] + (b + [ARGCLOSE] + rest))
    ensures a + [ARGCLOSE] + rest == a + ([ARGCLOSE] + rest)
  {
  }

  lemma {:induction false} ScanJoined(ps: seq<string>, rest: string, nargs: nat)
    requires ps != [] && AllOneArg(ps) && nargs + |ps| <= MAXARGS
    ensures Scan(Joined(ps) + [ARGCLOSE] + rest, false, 0, nargs) == Scanned(ArgsOf(ps), rest)
    decreases |ps|
  {
    var a := ArgOf(ps[0]);
    var b := if |ps| == 1 then "" else Joined(ps[1..]);
    JoinedMore(ps[0], b, rest);
    if |ps| == 1 {
      PieceScan(ps[0], [ARGCLOSE] + rest, false, 0, nargs);
      ScanClose(rest, nargs);
      FirstArg(a, [], rest);
      assert [""] + [] == [""] && ArgsOf(ps) == [a] + [];
    } else {
      var more := b + [ARGCLOSE] + rest;
      ScanJoined(ps[1..], rest, nargs + 1);
      PieceScan(ps[0], [ARGSEP] + more, false, 0, nargs);
      ScanSep(more, nargs, ArgsOf(ps[1..]), rest);
      FirstArg(a, ArgsOf(ps[1..]), rest);
    }
  }

  /** Copying stops at a macro's bracket, and scanning from there gives its arguments. */
  lemma CopyMacro(ps: seq<string>, rest: string)
    requires ps != []
    ensures Copy(MacroText(ps) + rest, false) == Copied("", AtMacro, [ARGOPEN] + Joined(ps) + [ARGCLOSE] + rest)
  {
    var all := MacroText(ps) + rest;
    assert all[0] == MACROCHAR && all[1] == ARGOPEN && all[1..] == [ARGOPEN] + Joined(ps) + [ARGCLOSE] + rest;
  }

  lemma ScanMacro(ps: seq<string>, rest: string, from: string)
    requires ps != [] && AllOneArg(ps) && |ps| <= MAXARGS && from == [ARGOPEN] + Joined(ps) + [ARGCLOSE] + rest
    ensures Scan(from[1..], false, 0, 0) == Scanned(ArgsOf(ps), rest)
  {
    var inner := Joined(ps) + [ARGCLOSE] + rest;
    Regroup([ARGOPEN], Joined(ps), [ARGCLOSE], rest);
    DropPrefix([ARGOPEN], inner);
    ScanJoined(ps, rest, 0);
  }

  // ----- macros inside an argument

  /** One argument, followed by more text, scanned as part of an argument at any depth of brackets. */
  lemma {:induction false} PieceIn(s: string, t: string, instring: bool, inner: nat, depth: nat)
    requires Piece(s, instring, inner).Some? && NoQuote(t)
    ensures Piece(s + t, instring, inner + depth) == Front(Piece(s, instring, inner).value, Piece(t, false, depth))
    decreases |s|
  {
    var r := Piece(t, false, depth);
    if s == "" {
      assert s + t == t;
      FrontFront(r, "", "");
    } else {
      assert (s + t)[0] == s[0] && (s + t)[1..] == s[1..] + t;
      if s[0] == QUOTE {
        if !instring {
          PieceIn(s[1..], t, true, inner, depth);
        } else if |s| > 1 && s[1] == QUOTE {
          assert (s + t)[1] == QUOTE && (s + t)[2..] == s[2..] + t;
          PieceIn(s[2..], t, true, inner, depth);
          FrontFront(r, [QUOTE], Piece(s[2..], true, inner).value);
        } else {
          PieceIn(s[1..], t, false, inner, depth);
        }
      } else {
        var d := if instring then inner else if s[0] == ARGOPEN then inner + 1 else if s[0] == ARGCLOSE then inner - 1 else inner;
        PieceIn(s[1..], t, instring, d, depth);
        FrontFront(r, [s[0]], Piece(s[1..], instring, d).value);
      }
    }
  }

  lemma PieceMark(c: char, t: string, depth: nat)
    ensures c == ARGSEP ==> Piece([c] + t, false, depth + 1) == Front([c], Piece(t, false, depth + 1))
    ensures c == ARGCLOSE ==> Piece([c] + t, false, depth + 1) == Front([c], Piece(t, false, depth))
    ensures c == ARGOPEN ==> Piece([c] + t, false, depth) == Front([c], Piece(t, false, depth + 1))
    ensures c == MACROCHAR ==> Piece([c] + t, false, depth) == Front([c], Piece(t, false, depth))
  {
    assert ([c] + t)[0] == c && ([c] + t)[1..] == t;
  }

  lemma {:induction false} PieceJoined(ps: seq<string>, t: string, depth: nat)
    requires ps != [] && AllOneArg(ps)
    ensures Piece(Joined(ps) + ([ARGCLOSE] + t), false, depth + 1) == Front(Joined(ArgsOf(ps)) + [ARGCLOSE], Piece(t, false, depth))
    decreases |ps|
  {
    var a, o := ArgOf(ps[0]), Piece(t, false, depth);
    if |ps| == 1 {
      PieceIn(ps[0], [ARGCLOSE] + t, false, 0, depth + 1);
      PieceMark(ARGCLOSE, t, depth);
      FrontFront(o, a, [ARGCLOSE]);
    } else {
      var b, more := Joined(ArgsOf(ps[1..])), Joined(ps[1..]) + ([ARGCLOSE] + t);
      assert ArgsOf(ps) == [a] + ArgsOf(ps[1..]) && ArgsOf(ps)[1..] == ArgsOf(ps[1..]);
      JoinedMark(ps[0], Joined(ps[1..]), [ARGCLOSE] + t);
      PieceIn(ps[0], [ARGSEP] + more, false, 0, depth + 1);
      PieceMark(ARGSEP, more, depth);
      PieceJoined(ps[1..], t, depth);
      FrontFront(o, [ARGSEP], b + [ARGCLOSE]);
      FrontFront(o, a, [ARGSEP] + (b + [ARGCLOSE]));
      JoinedMark(a, b, [ARGCLOSE]);
    }
  }

  lemma JoinedMark(a: string, b: string, t: string)
    ensures a + [ARGSEP] + b + t == a + ([ARGSEP] + (b + t))
  {
  }

  /** A macro inside an argument scans as the macro with each of its arguments a quote level
      lighter, at any depth of brackets and whatever follows it. */
  lemma PieceMacro(ps: seq<string>, t: string, depth: nat)
    requires ps != [] && AllOneArg(ps)
    ensures Piece(MacroText(ps) + t, false, depth) == Front(MacroText(ArgsOf(ps)), Piece(t, false, depth))
  {
    var o, args, ts := Piece(t, false, depth), Joined(ArgsOf(ps)) + [ARGCLOSE], Joined(ps) + ([ARGCLOSE] + t);
    assert MacroText(ps) + t == [MACROCHAR] + ([ARGOPEN] + ts);
    PieceMark(MACROCHAR, [ARGOPEN] + ts, depth);
    PieceMark(ARGOPEN, ts, depth);
    PieceJoined(ps, t, depth);
    FrontFront(o, [ARGOPEN], args);
    FrontFront(o, [MACROCHAR], [ARGOPEN] + args);
    assert MacroText(ArgsOf(ps)) == [MACROCHAR] + ([ARGOPEN] + args);
  }

  lemma MacroIsOneArg(ps: seq<string>)
    requires ps != [] && AllOneArg(ps)
    ensures Piece(MacroText(ps), false, 0) == Some(MacroText(ArgsOf(ps)))
  {
    PieceMacro(ps, "", 0);
    assert MacroText(ps) + "" == MacroText(ps) && MacroText(ArgsOf(ps)) + "" == MacroText(ArgsOf(ps));
  }
}
