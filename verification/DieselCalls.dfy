/** What each function of the DIESEL interpreter gives, stated on the text of its macro. */
module DieselCalls {
  import opened Bytes
  import opened DieselText
  import opened DieselEval
  import opened DieselLaws
  import opened DieselVars

  /** The texts spell xs. */
  predicate AllSpell(ps: seq<string>, xs: seq<string>)
  {
    |ps| == |xs| && forall i :: 0 <= i < |ps| ==> Spells(ps[i], xs[i])
  }

  /** Whatever the variables, the arguments evaluate to xs and leave the variables as they are. */
  ghost predicate RunsTo(a: seq<string>, xs: seq<string>, depth: nat, lib: Library)
    requires depth <= MAXDEPTH
  {
    |a| == |xs| && forall i, v: Vars :: 0 <= i < |a| ==> Run(a[i], depth, v, lib) == Result(xs[i], 0, v)
  }

  lemma SpelledArgs(f: string, ps: seq<string>, xs: seq<string>, depth: nat, lib: Library) returns (a: seq<string>)
    requires depth <= MAXDEPTH && Plain(f) && AllSpell(ps, xs) && |ps| < MAXARGS
    ensures Macro([f] + ps) && a == ArgsOf([f] + ps)[1..] && RunsTo(a, xs, depth, lib)
  {
    var all := [f] + ps;
    PlainPiece(f);
    forall i | 0 <= i < |all| ensures OneArg(all[i]) && (i > 0 ==> ArgOf(all[i]) == ArgOfSpelling(ps[i - 1], xs[i - 1])) {
      if i > 0 { SpellsPiece(ps[i - 1], xs[i - 1]); }
    }
    a := ArgsOf(all)[1..];
    forall i, v: Vars | 0 <= i < |a| ensures Run(a[i], depth, v, lib) == Result(xs[i], 0, v) {
      assert a[i] == ArgOf(all[i + 1]);
      SpellsRuns(ps[i], xs[i], depth, v, lib);
    }
  }

  /** What a macro on its own puts out when its function fails. */
  function Failed(f: string): string { " @(" + f + ",??) " }

  // ----- text outside macros

  /** A text without quotes and macros; an at-sign that no bracket follows is a character. */
  predicate Literal(s: string)
  {
    forall i :: 0 <= i < |s| ==> s[i] != QUOTE && (s[i] == MACROCHAR && i + 1 < |s| ==> s[i + 1] != ARGOPEN)
  }

  lemma LiteralTail(s: string)
    requires Literal(s) && s != ""
    ensures Literal(s[1..])
  {
    forall i | 0 <= i < |s| - 1
      ensures s[1..][i] != QUOTE && (s[1..][i] == MACROCHAR && i + 1 < |s| - 1 ==> s[1..][i + 1] != ARGOPEN)
    {
      assert s[1..][i] == s[i + 1];
    }
  }

  lemma {:induction false} CopyLiteral(s: string, t: string)
    requires Literal(s) && (s != "" && s[|s| - 1] == MACROCHAR && t != "" ==> t[0] != ARGOPEN)
    ensures Copy(s + t, false) == Copy(t, false).After(s)
  {
    if s == "" {
      assert s + t == t && "" + Copy(t, false).text == Copy(t, false).text;
    } else {
      var r := Copy(t, false);
      LiteralTail(s);
      CopyLiteral(s[1..], t);
      HeadTail(s, t);
      HeadTail(s, r.text);
      assert |s| > 1 ==> (s + t)[1] == s[1];
      CopyAfterAfter(r, [s[0]], s[1..]);
    }
  }

  lemma {:induction false} EvalArgsBound(f: string, a: seq<string>, i: nat, m: nat, n: nat, depth: nat, v: Vars, lib: Library)
    requires depth <= MAXDEPTH && Shorter(a, m) && Shorter(a, n) && i <= |a|
    ensures EvalArgs(f, a, i, m, depth, v, lib) == EvalArgs(f, a, i, n, depth, v, lib)
    decreases |a| - i
  {
    if i < |a| { EvalArgsBound(f, a, i + 1, m, n, depth, Run(a[i], depth, v, lib).vars, lib); }
  }

  lemma CallBound(f: string, a: seq<string>, m: nat, n: nat, depth: nat, v: Vars, lib: Library)
    requires depth <= MAXDEPTH && Shorter(a, m) && Shorter(a, n)
    ensures Call(f, a, m, depth, v, lib) == Call(f, a, n, depth, v, lib)
  {
    EvalArgsBound(f, a, 0, m, n, depth, v, lib);
  }

  lemma ValueBound(args: seq<string>, m: nat, n: nat, depth: nat, v: Vars, lib: Library)
    requires depth <= MAXDEPTH && args != [] && Shorter(args, m) && Shorter(args, n)
    ensures Value(args, m, depth, v, lib) == Value(args, n, depth, v, lib)
  {
    var name := Run(args[0], depth, v, lib);
    CallBound(Upper(name.text), args[1..], m, n, depth, name.vars, lib);
  }

  /** A result with text in front of it. */
  function Behind(text: string, r: Result): Result { r.(text := text + r.text) }

  lemma BehindBehind(a: string, b: string, c: string, r: Result)
    ensures Behind(a, r.(text := b + c + r.text)) == r.(text := (a + b) + c + r.text)
  {
    assert a + (b + c + r.text) == (a + b) + c + r.text;
  }

  lemma BehindCopy(a: string, s: string, all: string, n: nat, depth: nat, v: Vars, lib: Library)
    requires depth <= MAXDEPTH && Copy(all, false) == Copy(s, false).After(a) && |s| <= |all|
    ensures RunFrom(all, n, depth, v, lib) == Behind(a, RunFrom(s, n, depth, v, lib))
  {
    var c := Copy(s, false);
    if c.end.AtMacro? {
      var m := Scan(c.rest[1..], false, 0, 0);
      assert (a + c.text) + "@?" == a + (c.text + "@?");
      if m.Scanned? {
        ValueBound(m.args, |s|, |all|, depth, v, lib);
        var x := Value(m.args, |s|, depth, v, lib);
        assert (a + c.text) + x.text == a + (c.text + x.text);
        BehindBehind(a, c.text, x.text, RunFrom(m.rest, n, depth, x.vars, lib));
      }
    }
  }

  /** Text in front comes out as it is, whatever follows. */
  lemma LiteralFirst(a: string, s: string, n: nat, depth: nat, v: Vars, lib: Library)
    requires depth <= MAXDEPTH && Literal(a) && (a != "" && a[|a| - 1] == MACROCHAR && s != "" ==> s[0] != ARGOPEN)
    ensures RunFrom(a + s, n, depth, v, lib) == Behind(a, RunFrom(s, n, depth, v, lib))
  {
    CopyLiteral(a, s);
    BehindCopy(a, s, a + s, n, depth, v, lib);
  }

  /** So does the text of a quoted string. */
  lemma QuotedFirst(a: string, s: string, n: nat, depth: nat, v: Vars, lib: Library)
    requires depth <= MAXDEPTH && NoQuote(s)
    ensures RunFrom(Q(a) + s, n, depth, v, lib) == Behind(a, RunFrom(s, n, depth, v, lib))
  {
    CopyQuoted(a, s);
    BehindCopy(a, s, Q(a) + s, n, depth, v, lib);
  }

  lemma {:induction false} CopyUnended(s: string)
    ensures Copy(Doubled(s), true) == Copied(s, InString, "")
  {
    if s != "" {
      CopyUnended(s[1..]);
      var all := Doubled(s);
      DropPrefix(Head(s), Doubled(s[1..]));
      assert all[|Head(s)|..] == Doubled(s[1..]) && s == [s[0]] + s[1..];
    }
  }

  /** A string that does not end puts out its text, with status -1. */
  lemma Unended(s: string, depth: nat, v: Vars, lib: Library)
    requires depth <= MAXDEPTH
    ensures Run([QUOTE] + Doubled(s), depth, v, lib) == Result(s, -1, v)
  {
    assert ([QUOTE] + Doubled(s))[1..] == Doubled(s);
    CopyUnended(s);
  }

  // ----- EQ

  /** The first argument is evaluated first. */
  lemma CallEq(a: seq<string>, x: string, y: string, w: Vars, u: Vars, n: nat, depth: nat, v: Vars, lib: Library)
    requires depth <= MAXDEPTH && Shorter(a, n) && |a| == 2
    requires Run(a[0], depth, v, lib) == Result(x, 0, w) && Run(a[1], depth, w, lib) == Result(y, 0, u)
    ensures Call("EQ", a, n, depth, v, lib) == Called(Some(if x == y then "1" else "0"), u)
  {
  }

  /** EQ gives 1 for equal texts and 0 for different ones. */
  lemma RunEq(p: string, q: string, x: string, y: string, depth: nat, v: Vars, lib: Library)
    requires depth <= MAXDEPTH && Spells(p, x) && Spells(q, y)
    ensures Run(MacroText(["EQ", p, q]), depth, v, lib) == Result(if x == y then "1" else "0", 0, v)
  {
    var ps := ["EQ"] + [p, q];
    var a := SpelledArgs("EQ", [p, q], [x, y], depth, lib);
    assert ps == ["EQ", p, q] && Upper("EQ") == "EQ" && BUILTINS[3] == "EQ";
    RunNamed(ps, depth, v, lib);
    assert Run(a[0], depth, v, lib) == Result(x, 0, v) && Run(a[1], depth, v, lib) == Result(y, 0, v);
    CallEq(a, x, y, v, v, |MacroText(ps)|, depth, v, lib);
  }

  // ----- IF and NTH

  lemma CallIf(a: seq<string>, c: string, b: int, x: string, y: Option<string>, n: nat, depth: nat, v: Vars, lib: Library)
    requires depth <= MAXDEPTH && Shorter(a, n) && lib.scanInt(c) == Some(b)
    requires RunsTo(a, if y.Some? then [c, x, y.value] else [c, x], depth, lib)
    ensures Call("IF", a, n, depth, v, lib) == Called(Some(if b != 0 then x else if y.Some? then y.value else ""), v)
  {
    assert Run(a[0], depth, v, lib) == Result(c, 0, v) && Run(a[1], depth, v, lib) == Result(x, 0, v);
    if y.Some? { assert Run(a[2], depth, v, lib) == Result(y.value, 0, v); }
  }

  lemma IfNamed() ensures Plain("IF") && Upper("IF") == "IF" && "IF" in BUILTINS { assert BUILTINS[0] == "IF"; }

  /** IF gives its second argument unless the first is 0, and then its third. */
  lemma RunIf(p: string, q: string, r: string, c: string, b: int, x: string, y: string, depth: nat, v: Vars, lib: Library)
    requires depth <= MAXDEPTH && Spells(p, c) && Spells(q, x) && Spells(r, y) && lib.scanInt(c) == Some(b)
    ensures Run(MacroText(["IF", p, q, r]), depth, v, lib) == Result(if b != 0 then x else y, 0, v)
  {
    var ps := ["IF"] + [p, q, r];
    IfNamed();
    var a := SpelledArgs("IF", [p, q, r], [c, x, y], depth, lib);
    assert ps == ["IF", p, q, r];
    RunNamed(ps, depth, v, lib);
    CallIf(a, c, b, x, Some(y), |MacroText(ps)|, depth, v, lib);
  }

  /** Without a third argument it gives nothing for 0. */
  lemma RunIfThen(p: string, q: string, c: string, b: int, x: string, depth: nat, v: Vars, lib: Library)
    requires depth <= MAXDEPTH && Spells(p, c) && Spells(q, x) && lib.scanInt(c) == Some(b)
    ensures Run(MacroText(["IF", p, q]), depth, v, lib) == Result(if b != 0 then x else "", 0, v)
  {
    var ps := ["IF"] + [p, q];
    IfNamed();
    var a := SpelledArgs("IF", [p, q], [c, x], depth, lib);
    assert ps == ["IF", p, q];
    RunNamed(ps, depth, v, lib);
    CallIf(a, c, b, x, None, |MacroText(ps)|, depth, v, lib);
  }

  lemma CallNth(a: seq<string>, c: string, k: int, xs: seq<string>, n: nat, depth: nat, v: Vars, lib: Library)
    requires depth <= MAXDEPTH && Shorter(a, n) && lib.scanInt(c) == Some(k) && 1 <= |xs| < MAXARGS && RunsTo(a, [c] + xs, depth, lib)
    ensures Call("NTH", a, n, depth, v, lib) == Called(if 0 <= k < |xs| then Some(xs[k]) else None, v)
  {
    assert Run(a[0], depth, v, lib) == Result(c, 0, v);
    if 0 <= k < |xs| {
      assert ([c] + xs)[k + 1] == xs[k];
      assert Run(a[k + 1], depth, v, lib) == Result(xs[k], 0, v);
    }
  }

  /** NTH gives the item its first argument counts to, from 0, and fails past the last. */
  lemma RunNth(p: string, ps: seq<string>, c: string, k: int, xs: seq<string>, depth: nat, v: Vars, lib: Library)
    requires depth <= MAXDEPTH && Spells(p, c) && AllSpell(ps, xs) && 1 <= |ps| <= MAXARGS - 2 && lib.scanInt(c) == Some(k)
    ensures var s := MacroText(["NTH", p] + ps);
            Run(s, depth, v, lib) == if 0 <= k < |xs| then Result(xs[k], 0, v) else Result(Failed("NTH"), |s|, v)
  {
    var all := ["NTH"] + ([p] + ps);
    assert Upper("NTH") == "NTH" && BUILTINS[1] == "NTH";
    var a := SpelledArgs("NTH", [p] + ps, [c] + xs, depth, lib);
    assert all == ["NTH", p] + ps;
    RunNamed(all, depth, v, lib);
    CallNth(a, c, k, xs, |MacroText(all)|, depth, v, lib);
  }

  // ----- CLEAR

  lemma ClearNamed() ensures Plain("CLEAR") && Upper("CLEAR") == "CLEAR" && "CLEAR" in BUILTINS { assert BUILTINS[4] == "CLEAR"; }

  /** A variable that is not there cannot be got. */
  lemma RunGetvarFails(p: string, x: string, n: nat, depth: nat, v: Vars, lib: Library)
    requires depth <= MAXDEPTH && Spells(p, x) && forall i :: 0 <= i < |v.chain| ==> v.chain[i].name != x
    ensures RunFrom(MacroText(["GETVAR", p]), n, depth, v, lib) == Result(Failed("GETVAR"), n, v)
  {
    var args, s := ["GETVAR", ArgOfSpelling(p, x)], MacroText(["GETVAR", p]);
    SpellsPiece(p, x);
    GetvarArgs(p);
    RunMacro(["GETVAR", p], "", n, depth, v, lib);
    assert s + "" == s && args[1..] == [ArgOfSpelling(p, x)] && BUILTINS[5] == "GETVAR";
    SpellsRuns(p, x, depth, v, lib);
    CallGetvar(args[1..], x, |s|, depth, v, lib);
    NamedValue(args, |s|, depth, v, lib);
  }

  /** GETVAR searches from what was the head of the chain before its argument was evaluated: a
      name that sets its own variable first does not find it, as in @(GETVAR,@(SETVAR,x,1)x). */
  lemma GetvarMisses(x: string, t: string, depth: nat, v: Vars, lib: Library)
    requires depth <= MAXDEPTH && Plain(x) && Plain(t) && v == Vars([], 0)
    ensures var s := MacroText(["GETVAR", MacroText(["SETVAR", x, t]) + x]);
            Run(s, depth, v, lib) == Result(Failed("GETVAR"), |s|, Vars([Var(x, t)], 0))
  {
    var name := MacroText(["SETVAR", x, t]) + x;
    var args, s := ["GETVAR", name], MacroText(["GETVAR", name]);
    NameSets(x, t, name, depth, v, lib);
    GetvarArgs(name);
    RunMacro(["GETVAR", name], "", |s|, depth, v, lib);
    assert s + "" == s && args[1..] == [name] && BUILTINS[5] == "GETVAR";
    NamedValue(args, |s|, depth, v, lib);
  }

  /** CLEAR, whatever its arguments, followed by any text: that text finds no variable. */
  lemma RunClear(ps: seq<string>, rest: string, n: nat, depth: nat, v: Vars, lib: Library)
    requires depth <= MAXDEPTH && AllOneArg(ps) && |ps| < MAXARGS
    ensures RunFrom(MacroText(["CLEAR"] + ps) + rest, n, depth, v, lib) ==
            RunFrom(rest, n, depth, Vars([], v.cleared + 1), lib)
  {
    var all, w := ["CLEAR"] + ps, Vars([], v.cleared + 1);
    ClearNamed();
    PlainPiece("CLEAR");
    var args := ArgsOf(all);
    assert args[0] == ArgOf(all[0]);
    RunThen(all, args, "", w, rest, n, depth, v, lib);
    var r := RunFrom(rest, n, depth, w, lib);
    assert "" + r.text == r.text;
  }

  /** After CLEAR no variable can be got. */
  lemma ClearGet(ps: seq<string>, p: string, x: string, depth: nat, v: Vars, lib: Library)
    requires depth <= MAXDEPTH && AllOneArg(ps) && |ps| < MAXARGS && Spells(p, x)
    ensures var s := MacroText(["CLEAR"] + ps) + MacroText(["GETVAR", p]);
            var r := Run(s, depth, v, lib);
            r.text == Failed("GETVAR") && r.status == |s| && r.vars.chain == []
  {
    var s := MacroText(["CLEAR"] + ps) + MacroText(["GETVAR", p]);
    RunClear(ps, MacroText(["GETVAR", p]), |s|, depth, v, lib);
    RunGetvarFails(p, x, |s|, depth, Vars([], v.cleared + 1), lib);
  }

  // ----- wrong numbers of arguments, and names that are none

  /** How many arguments a function of the interpreter itself takes. */
  predicate Accepts(f: string, k: nat)
  {
    if f == "IF" then k == 2 || k == 3
    else if f == "NTH" then k >= 2
    else if f == "EQ" || f == "SETVAR" then k == 2
    else if f == "EVAL" || f == "GETVAR" then k == 1
    else true
  }

  /** With another number of arguments it fails, and evaluates none of them. */
  lemma WrongCount(f: string, ps: seq<string>, depth: nat, v: Vars, lib: Library)
    requires depth <= MAXDEPTH && Plain(f) && AllOneArg(ps) && |ps| < MAXARGS && Upper(f) in BUILTINS && !Accepts(Upper(f), |ps|)
    ensures var s := MacroText([f] + ps); Run(s, depth, v, lib) == Result(Failed(Upper(f)), |s|, v)
  {
    PlainPiece(f);
    assert ([f] + ps)[0] == f;
    RunNamed([f] + ps, depth, v, lib);
  }

  /** A name that is none puts out a diagnostic of its own. */
  lemma UnknownName(f: string, ps: seq<string>, depth: nat, v: Vars, lib: Library)
    requires depth <= MAXDEPTH && Plain(f) && AllOneArg(ps) && |ps| < MAXARGS && Upper(f) !in BUILTINS && !lib.known(Upper(f))
    ensures var s := MacroText([f] + ps); Run(s, depth, v, lib) == Result(" @(" + Upper(f) + ")?? ", |s|, v)
  {
    var all, s := [f] + ps, MacroText([f] + ps);
    PlainPiece(f);
    assert s + "" == s && all[0] == f;
    RunMacro(all, "", |s|, depth, v, lib);
    RunPlain(f, depth, v, lib);
  }

  /** With a first argument that fails a function fails, and evaluates nothing further. */
  lemma FirstFails(f: string, a: seq<string>, n: nat, depth: nat, v: Vars, lib: Library)
    requires depth <= MAXDEPTH && Shorter(a, n) && f in BUILTINS && f != "CLEAR" && Accepts(f, |a|) && |a| <= MAXARGS
    requires Run(a[0], depth, v, lib).status != 0 && (f == "EVAL" ==> depth < MAXDEPTH)
    ensures Call(f, a, n, depth, v, lib) == Called(None, Run(a[0], depth, v, lib).vars)
  {
  }

  /** So with a second one: EQ and SETVAR always, IF and NTH when it is selected. */
  lemma SecondFails(f: string, a: seq<string>, w: Vars, c: string, n: nat, depth: nat, v: Vars, lib: Library)
    requires depth <= MAXDEPTH && Shorter(a, n) && |a| == 2 && Run(a[0], depth, v, lib) == Result(c, 0, w)
    requires f == "EQ" || f == "SETVAR" || (f == "IF" && lib.scanInt(c) == Some(1)) || (f == "NTH" && lib.scanInt(c) == Some(0))
    requires Run(a[1], depth, w, lib).status != 0
    ensures Call(f, a, n, depth, v, lib) == Called(None, Run(a[1], depth, w, lib).vars)
  {
  }

  /** IF and NTH fail when their first argument is no number. */
  lemma NoNumber(f: string, a: seq<string>, w: Vars, c: string, n: nat, depth: nat, v: Vars, lib: Library)
    requires depth <= MAXDEPTH && Shorter(a, n) && (f == "IF" || f == "NTH") && Accepts(f, |a|) && |a| <= MAXARGS
    requires Run(a[0], depth, v, lib) == Result(c, 0, w) && lib.scanInt(c) == None
    ensures Call(f, a, n, depth, v, lib) == Called(None, w)
  {
  }

  // ----- macros that do not scan

  /** A macro that is not closed. */
  lemma Unclosed(t: string, depth: nat, v: Vars, lib: Library)
    requires depth <= MAXDEPTH && OneArg(t)
    ensures Run([MACROCHAR, ARGOPEN] + t, depth, v, lib) == Result("@?", |t| + 2, v)
  {
    var s := [MACROCHAR, ARGOPEN] + t;
    assert s[1..][1..] == t && t + "" == t && "" + "@?" == "@?";
    PieceScan(t, "", false, 0, 0);
  }

  lemma {:induction false} ScanTooMany(ps: seq<string>, rest: string, nargs: nat)
    requires ps != [] && AllOneArg(ps) && nargs < MAXARGS < nargs + |ps|
    ensures Scan(Joined(ps) + [ARGCLOSE] + rest, false, 0, nargs) == Unmatched
    decreases |ps|
  {
    var more := Joined(ps[1..]) + [ARGCLOSE] + rest;
    JoinedMore(ps[0], Joined(ps[1..]), rest);
    PieceScan(ps[0], [ARGSEP] + more, false, 0, nargs);
    assert ([ARGSEP] + more)[1..] == more;
    if nargs + 1 < MAXARGS { ScanTooMany(ps[1..], rest, nargs + 1); }
  }

  /** A macro of more than MAXARGS parts. */
  lemma TooManyArgs(ps: seq<string>, rest: string, depth: nat, v: Vars, lib: Library)
    requires depth <= MAXDEPTH && AllOneArg(ps) && |ps| > 10
    ensures var s := MacroText(ps) + rest; Run(s, depth, v, lib) == Result("@?", |s|, v)
  {
    var inner := Joined(ps) + [ARGCLOSE] + rest;
    CopyMacro(ps, rest);
    Regroup([ARGOPEN], Joined(ps), [ARGCLOSE], rest);
    DropPrefix([ARGOPEN], inner);
    ScanTooMany(ps, rest, 0);
    assert "" + "@?" == "@?";
  }

  // ----- the library

  /** The library's function can read all the values. */
  predicate ReadsAll(f: string, xs: seq<string>, lib: Library) { forall i :: 0 <= i < |xs| ==> lib.canRead(f, i, xs[i]) }

  /** The arguments evaluate to xs one after the other, each starting from the variables that
      the one before it leaves. */
  ghost predicate InTurn(a: seq<string>, xs: seq<string>, vs: seq<Vars>, depth: nat, lib: Library)
    requires depth <= MAXDEPTH
  {
    |xs| == |a| && |vs| == |a| + 1 && forall i, j :: 0 <= i < |a| && j == i + 1 ==> Run(a[i], depth, vs[i], lib) == Result(xs[i], 0, vs[j])
  }

  /** The arguments of a library function are evaluated in order. */
  lemma {:induction false} ArgValues(f: string, a: seq<string>, xs: seq<string>, vs: seq<Vars>, i: nat, n: nat, depth: nat, lib: Library)
    requires depth <= MAXDEPTH && Shorter(a, n) && InTurn(a, xs, vs, depth, lib) && i <= |a| && ReadsAll(f, xs, lib)
    ensures EvalArgs(f, a, i, n, depth, vs[i], lib) == (Some(xs[i..]), vs[|a|])
    decreases |a| - i
  {
    if i < |a| {
      var j := i + 1;
      assert Run(a[i], depth, vs[i], lib) == Result(xs[i], 0, vs[j]);
      ArgValues(f, a, xs, vs, j, n, depth, lib);
      assert [xs[i]] + xs[j..] == xs[i..];
    } else {
      assert xs[i..] == [];
    }
  }

  /** An argument that fails, or that the function cannot read, is the last one evaluated. */
  lemma {:induction false} ArgFails(f: string, a: seq<string>, xs: seq<string>, vs: seq<Vars>, i: nat, k: nat,
                                    n: nat, depth: nat, lib: Library)
    requires depth <= MAXDEPTH && Shorter(a, n) && i <= k < |a| && InTurn(a[..k], xs, vs, depth, lib) && ReadsAll(f, xs, lib)
    requires var x := Run(a[k], depth, vs[k], lib); x.status != 0 || !lib.canRead(f, k, x.text)
    ensures EvalArgs(f, a, i, n, depth, vs[i], lib) == (None, Run(a[k], depth, vs[k], lib).vars)
    decreases k - i
  {
    if i < k {
      var j := i + 1;
      assert Run(a[..k][i], depth, vs[i], lib) == Result(xs[i], 0, vs[j]);
      ArgFails(f, a, xs, vs, j, k, n, depth, lib);
    }
  }

  lemma SpelledInTurn(a: seq<string>, xs: seq<string>, vs: seq<Vars>, v: Vars, depth: nat, lib: Library)
    requires depth <= MAXDEPTH && RunsTo(a, xs, depth, lib) && |vs| == |a| + 1 && forall i :: 0 <= i < |vs| ==> vs[i] == v
    ensures InTurn(a, xs, vs, depth, lib)
  {
  }

  /** A function of the library gets the values of its arguments in order. */
  lemma RunLibrary(f: string, ps: seq<string>, xs: seq<string>, t: string, depth: nat, v: Vars, lib: Library)
    requires depth <= MAXDEPTH && Plain(f) && AllSpell(ps, xs) && |ps| < MAXARGS
    requires var g := Upper(f); g !in BUILTINS && lib.known(g) && lib.takes(g, |ps|) && ReadsAll(g, xs, lib)
    requires forall a: seq<string> :: lib.result(Upper(f), a, xs) == Some(t)
    ensures Run(MacroText([f] + ps), depth, v, lib) == Result(t, 0, v)
  {
    var all := [f] + ps;
    var a := SpelledArgs(f, ps, xs, depth, lib);
    assert all[0] == f && xs[0..] == xs;
    RunNamed(all, depth, v, lib);
    var vs := seq(|a| + 1, _ => v);
    SpelledInTurn(a, xs, vs, v, depth, lib);
    ArgValues(Upper(f), a, xs, vs, 0, |MacroText(all)|, depth, lib);
    assert BUILTINS[0] == "IF" && BUILTINS[1] == "NTH" && BUILTINS[2] == "EVAL" && BUILTINS[3] == "EQ";
    assert BUILTINS[4] == "CLEAR" && BUILTINS[5] == "GETVAR" && BUILTINS[6] == "SETVAR";
  }
}
