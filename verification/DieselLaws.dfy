/** Laws of the DIESEL interpreter: what a macro evaluates to, and how quoting protects a text. */
module DieselLaws {
  import opened Bytes
  import opened DieselText
  import opened DieselEval

  // ----- single texts

  /** A quoted string evaluates to its text. */
  lemma RunQuoted(s: string, depth: nat, v: Vars, lib: Library)
    requires depth <= MAXDEPTH
    ensures Run(Q(s), depth, v, lib) == Result(s, 0, v)
  {
    CopyQuoted(s, "");
    assert Q(s) + "" == Q(s) && s + "" == s;
  }

  lemma RunPlain(s: string, depth: nat, v: Vars, lib: Library)
    requires depth <= MAXDEPTH && Plain(s)
    ensures Run(s, depth, v, lib) == Result(s, 0, v)
  {
    CopyPlain(s, "");
    assert s + "" == s;
  }

  /** Equal but for the column of an error. */
  predicate Same(a: Result, b: Result) { a.text == b.text && a.vars == b.vars && (a.status == 0 <==> b.status == 0) }

  /** Only the column of an error depends on how long the whole input was. */
  lemma {:induction false} ColumnOnly(s: string, m: nat, n: nat, depth: nat, v: Vars, lib: Library)
    requires depth <= MAXDEPTH && |s| <= m && |s| <= n
    ensures Same(RunFrom(s, m, depth, v, lib), RunFrom(s, n, depth, v, lib))
    decreases |s|
  {
    var c := Copy(s, false);
    if c.end.AtMacro? {
      var a := Scan(c.rest[1..], false, 0, 0);
      if a.Scanned? {
        var x := Value(a.args, |s|, depth, v, lib);
        if x.kind.Good? {
          ColumnOnly(a.rest, m, n, depth, x.vars, lib);
        }
      }
    }
  }

  // ----- single macros

  /** What diesel makes of a macro's value and the input after it. */
  function AfterMacro(x: Valued, rest: string, n: nat, depth: nat, lib: Library): Result
    requires depth <= MAXDEPTH
  {
    match x.kind
    case Bad => Result("@?", n - |rest|, x.vars)
    case Diagnostic => Result(x.text, n - |rest|, x.vars)
    case Good => var r := RunFrom(rest, n, depth, x.vars, lib); Result(x.text + r.text, r.status, r.vars)
  }

  ghost predicate Macro(ps: seq<string>) { 0 < |ps| <= MAXARGS && AllOneArg(ps) }

  /** A macro with these argument texts is evaluated on those arguments, each a quote level lighter. */
  lemma RunMacro(ps: seq<string>, rest: string, n: nat, depth: nat, v: Vars, lib: Library)
    requires depth <= MAXDEPTH && Macro(ps)
    ensures var s := MacroText(ps) + rest;
            && Shorter(ArgsOf(ps), |s|)
            && RunFrom(s, n, depth, v, lib) == AfterMacro(Value(ArgsOf(ps), |s|, depth, v, lib), rest, n, depth, lib)
  {
    var s := MacroText(ps) + rest;
    CopyMacro(ps, rest);
    var c := Copy(s, false);
    ScanMacro(ps, rest, c.rest);
    var x := Value(ArgsOf(ps), |s|, depth, v, lib);
    assert "" + x.text == x.text && "" + "@?" == "@?";
  }

  /** The value of a macro whose function is named outright. */
  lemma NamedValue(args: seq<string>, n: nat, depth: nat, v: Vars, lib: Library)
    requires depth <= MAXDEPTH && args != [] && Shorter(args, n) && Plain(args[0]) && Known(Upper(args[0]), lib)
    ensures var f := Upper(args[0]);
            var r := Call(f, args[1..], n, depth, v, lib);
            Value(args, n, depth, v, lib) ==
              if r.out.Some? then Valued(Good, r.out.value, r.vars) else Valued(Diagnostic, " @(" + f + ",??) ", r.vars)
  {
    RunPlain(args[0], depth, v, lib);
  }

  /** A macro that succeeds, followed by any text. */
  lemma RunThen(ps: seq<string>, args: seq<string>, out: string, w: Vars, rest: string, n: nat, depth: nat, v: Vars, lib: Library)
    requires depth <= MAXDEPTH && Macro(ps) && args == ArgsOf(ps) && Plain(args[0]) && Known(Upper(args[0]), lib)
    requires forall m: nat :: Shorter(args, m) ==> Call(Upper(args[0]), args[1..], m, depth, v, lib) == Called(Some(out), w)
    ensures var r := RunFrom(rest, n, depth, w, lib);
            RunFrom(MacroText(ps) + rest, n, depth, v, lib) == Result(out + r.text, r.status, r.vars)
  {
    var s := MacroText(ps) + rest;
    RunMacro(ps, rest, n, depth, v, lib);
    NamedValue(args, |s|, depth, v, lib);
  }

  /** A macro on its own whose function is named outright. */
  lemma RunNamed(ps: seq<string>, depth: nat, v: Vars, lib: Library)
    requires depth <= MAXDEPTH && Macro(ps) && Plain(ps[0]) && Known(Upper(ps[0]), lib)
    ensures var s := MacroText(ps);
            && Shorter(ArgsOf(ps)[1..], |s|)
            && var r := Call(Upper(ps[0]), ArgsOf(ps)[1..], |s|, depth, v, lib);
            && var x := Run(s, depth, v, lib);
            && x.vars == r.vars
            && (if r.out.Some? then x.text == r.out.value && x.status == 0
                else x.text == " @(" + Upper(ps[0]) + ",??) " && x.status == |s|)
  {
    var s := MacroText(ps);
    assert s + "" == s;
    RunMacro(ps, "", |s|, depth, v, lib);
    PlainPiece(ps[0]);
    NamedValue(ArgsOf(ps), |s|, depth, v, lib);
    var r := Call(Upper(ps[0]), ArgsOf(ps)[1..], |s|, depth, v, lib);
    var e := RunFrom("", |s|, depth, r.vars, lib);
    assert e == Result("", 0, r.vars);
    if r.out.Some? { assert r.out.value + "" == r.out.value; }
  }

  // ----- literals inside macros

  /** x is r, or both have failed. */
  predicate Passes(x: Result, r: Result) { if r.status == 0 then x == r else x.status != 0 }

  /** A macro around a text: the texts of the arguments before it and after it. */
  datatype Level = Level(before: seq<string>, after: seq<string>)
  {
    function Around(t: string): string { MacroText(before + [t] + after) }

    ghost predicate AllOneArg() { DieselText.AllOneArg(before) && DieselText.AllOneArg(after) }

    /** The macro as it comes out of a scan. */
    function Scanned(): Level
      requires AllOneArg()
    {
      Level(ArgsOf(before), ArgsOf(after))
    }
  }

  ghost predicate EachOneArg(levels: seq<Level>) { forall i :: 0 <= i < |levels| ==> levels[i].AllOneArg() }

  /** A text inside macros, the first one outermost. */
  function Nested(levels: seq<Level>, t: string): string
  {
    if levels == [] then t else levels[0].Around(Nested(levels[1..], t))
  }

  function ScannedLevels(levels: seq<Level>): (r: seq<Level>)
    requires EachOneArg(levels)
    ensures |r| == |levels| && forall i :: 0 <= i < |levels| ==> r[i] == levels[i].Scanned()
  {
    if levels == [] then [] else [levels[0].Scanned()] + ScannedLevels(levels[1..])
  }

  lemma Places(a: seq<string>, t: string, b: seq<string>)
    ensures var s := a + [t] + b;
            forall i :: 0 <= i < |s| ==> s[i] == if i < |a| then a[i] else if i == |a| then t else b[i - |a| - 1]
  {
  }

  lemma AroundArgs(l: Level, t: string)
    requires l.AllOneArg() && OneArg(t)
    ensures AllOneArg(l.before + [t] + l.after)
    ensures ArgsOf(l.before + [t] + l.after) == l.Scanned().before + [ArgOf(t)] + l.Scanned().after
  {
    var ps, args := l.before + [t] + l.after, l.Scanned().before + [ArgOf(t)] + l.Scanned().after;
    Places(l.before, t, l.after);
    Places(l.Scanned().before, ArgOf(t), l.Scanned().after);
    forall i | 0 <= i < |ps| ensures OneArg(ps[i]) && ArgOf(ps[i]) == args[i] {}
    assert |args| == |ps|;
  }

  /** Scanning takes one quote level off a literal, however deep in macros and in whichever
      of their arguments it stands. */
  lemma {:induction false} NestedPiece(levels: seq<Level>, s: string)
    requires EachOneArg(levels)
    ensures Piece(Nested(levels, Q(s)), false, 0) == Some(Nested(ScannedLevels(levels), s))
    decreases |levels|
  {
    if levels == [] {
      QuotedIsOneArg(s);
    } else {
      var t := Nested(levels[1..], Q(s));
      NestedPiece(levels[1..], s);
      AroundArgs(levels[0], t);
      MacroIsOneArg(levels[0].before + [t] + levels[0].after);
      assert ScannedLevels(levels)[1..] == ScannedLevels(levels[1..]);
    }
  }

  /** A text that scanning leaves as it is: one argument without quotes. */
  predicate Stable(s: string) { Piece(s, false, 0) == Some(s) }

  ghost predicate AllStable(ps: seq<string>) { forall i :: 0 <= i < |ps| ==> Stable(ps[i]) }

  /** The macro is an IF or NTH that selects the argument in question, and its other
      arguments scan to themselves. */
  ghost predicate PassesOn(l: Level, depth: nat, v: Vars, lib: Library)
    requires depth <= MAXDEPTH
  {
    && |l.before| >= 2 && |l.before| + |l.after| < MAXARGS && AllStable(l.before) && AllStable(l.after)
    && var name, c, k := Run(l.before[0], depth, v, lib), Run(l.before[1], depth, v, lib), |l.before| - 1;
    && name.status == 0 && name.vars == v && c.vars == v
    && var b := Iarg(c, lib);
    && b.Some?
    && (if Upper(name.text) == "IF" then |l.before| + |l.after| <= 3 && k == (if b.value != 0 then 1 else 2)
        else Upper(name.text) == "NTH" && k == b.value + 1)
  }

  /** With a plain name and condition, and such other arguments, IF passes the argument its
      condition selects on, and NTH the one its index selects. */
  lemma PlainPassesOn(name: string, c: string, b: int, others: seq<string>, after: seq<string>, depth: nat, v: Vars, lib: Library)
    requires depth <= MAXDEPTH && Plain(name) && Plain(c) && lib.scanInt(c) == Some(b) && AllStable(others) && AllStable(after)
    requires || (Upper(name) == "IF" && |others| == (if b != 0 then 0 else 1) && |others| + |after| <= 1)
             || (Upper(name) == "NTH" && |others| == b && |others| + |after| < MAXARGS - 2)
    ensures PassesOn(Level([name, c] + others, after), depth, v, lib)
  {
    var before := [name, c] + others;
    PlainPiece(name);
    PlainPiece(c);
    RunPlain(name, depth, v, lib);
    RunPlain(c, depth, v, lib);
    forall i | 0 <= i < |before| ensures Stable(before[i]) {
      assert i >= 2 ==> before[i] == others[i - 2];
    }
  }

  ghost predicate AllPassOn(levels: seq<Level>, depth: nat, v: Vars, lib: Library)
    requires depth <= MAXDEPTH
  {
    forall i :: 0 <= i < |levels| ==> PassesOn(levels[i], depth, v, lib)
  }

  lemma StableArgs(ps: seq<string>)
    requires AllStable(ps)
    ensures AllOneArg(ps) && ArgsOf(ps) == ps
  {
    forall i | 0 <= i < |ps| ensures OneArg(ps[i]) && ArgOf(ps[i]) == ps[i] { assert Stable(ps[i]); }
  }

  lemma StableLevel(l: Level)
    requires AllStable(l.before) && AllStable(l.after)
    ensures l.AllOneArg() && l.Scanned() == l
  {
    StableArgs(l.before);
    StableArgs(l.after);
  }

  lemma StableLevels(levels: seq<Level>, depth: nat, v: Vars, lib: Library)
    requires depth <= MAXDEPTH && AllPassOn(levels, depth, v, lib)
    ensures EachOneArg(levels) && ScannedLevels(levels) == levels
  {
    forall i | 0 <= i < |levels| ensures levels[i].AllOneArg() && levels[i].Scanned() == levels[i] {
      assert PassesOn(levels[i], depth, v, lib);
      StableLevel(levels[i]);
    }
  }

  /** Such a macro evaluates the argument it selects. */
  lemma CallPassesOn(l: Level, t: string, f: string, n: nat, depth: nat, v: Vars, lib: Library)
    requires depth <= MAXDEPTH && PassesOn(l, depth, v, lib) && f == Upper(Run(l.before[0], depth, v, lib).text)
    requires Shorter((l.before + [t] + l.after)[1..], n)
    ensures Known(f, lib)
    ensures Call(f, (l.before + [t] + l.after)[1..], n, depth, v, lib) == Sarg(Run(t, depth, v, lib))
  {
    var a := (l.before + [t] + l.after)[1..];
    assert a[0] == l.before[1] && a[|l.before| - 1] == t;
    assert BUILTINS[0] == "IF" && BUILTINS[1] == "NTH";
  }

  /** Evaluating a text inside such a macro is evaluating it a quote level lighter. */
  lemma RunAround(l: Level, t: string, depth: nat, v: Vars, lib: Library)
    requires depth <= MAXDEPTH && PassesOn(l, depth, v, lib) && OneArg(t)
    ensures Passes(Run(l.Around(t), depth, v, lib), Run(ArgOf(t), depth, v, lib))
  {
    var ps, args, s := l.before + [t] + l.after, l.before + [ArgOf(t)] + l.after, l.Around(t);
    StableLevel(l);
    AroundArgs(l, t);
    assert s + "" == s && |s| > 0;
    RunMacro(ps, "", |s|, depth, v, lib);
    assert args[0] == l.before[0];
    CallPassesOn(l, ArgOf(t), Upper(Run(l.before[0], depth, v, lib).text), |s|, depth, v, lib);
    var r := Run(ArgOf(t), depth, v, lib);
    assert RunFrom("", |s|, depth, r.vars, lib) == Result("", 0, r.vars);
    assert r.text + "" == r.text;
  }

  /** Evaluating a quoted text as the argument a macro selects is evaluating the text. */
  lemma QuotingProtects(l: Level, t: string, depth: nat, v: Vars, lib: Library)
    requires depth <= MAXDEPTH && PassesOn(l, depth, v, lib)
    ensures Passes(Run(l.Around(Q(t)), depth, v, lib), Run(t, depth, v, lib))
  {
    QuotedIsOneArg(t);
    RunAround(l, Q(t), depth, v, lib);
  }

  // ----- matching quotes

  function QuotedTimes(s: string, k: nat): string { if k == 0 then s else Q(QuotedTimes(s, k - 1)) }

  /** Each level of macros around a quoted literal costs it one quote level. */
  lemma RunNested(levels: seq<Level>, s: string, depth: nat, v: Vars, lib: Library)
    requires depth <= MAXDEPTH && levels != [] && AllPassOn(levels, depth, v, lib)
    ensures Passes(Run(Nested(levels, Q(s)), depth, v, lib), Run(Nested(levels[1..], s), depth, v, lib))
  {
    StableLevels(levels[1..], depth, v, lib);
    NestedPiece(levels[1..], s);
    RunAround(levels[0], Nested(levels[1..], Q(s)), depth, v, lib);
  }

  /** Of n macros around a text, run(i, t) is the result with the outer i taken off: a quote
      level and a macro come off together. */
  ghost predicate Strips(run: (nat, string) -> Result, n: nat)
  {
    forall i: nat, s {:trigger run(i, Q(s))} :: i < n ==> Passes(run(i, Q(s)), run(i + 1, s))
  }

  lemma RunStrips(levels: seq<Level>, depth: nat, v: Vars, lib: Library) returns (run: (nat, string) -> Result)
    requires depth <= MAXDEPTH && AllPassOn(levels, depth, v, lib)
    ensures Strips(run, |levels|)
    ensures forall i: nat, t :: i <= |levels| ==> run(i, t) == Run(Nested(levels[i..], t), depth, v, lib)
  {
    run := (i: nat, t: string) => if i <= |levels| then Run(Nested(levels[i..], t), depth, v, lib) else Result("", 0, v);
    forall i: nat, s {:trigger run(i, Q(s))} | i < |levels| ensures Passes(run(i, Q(s)), run(i + 1, s)) {
      RunNested(levels[i..], s, depth, v, lib);
      assert levels[i..][1..] == levels[i + 1..];
    }
  }

  lemma {:induction false} Stripped(run: (nat, string) -> Result, n: nat, i: nat, j: nat, k: nat, s: string)
    requires Strips(run, n) && i <= j <= n && j - i <= k
    ensures Passes(run(i, QuotedTimes(s, k)), run(j, QuotedTimes(s, k - (j - i))))
    decreases j - i
  {
    if i < j {
      assert Passes(run(i, Q(QuotedTimes(s, k - 1))), run(i + 1, QuotedTimes(s, k - 1)));
      Stripped(run, n, i + 1, j, k - 1, s);
    }
  }

  /** The quote levels and the macros cancel, one for one, until either has run out. */
  lemma LevelsStripped(levels: seq<Level>, k: nat, j: nat, s: string, depth: nat, v: Vars, lib: Library)
    requires depth <= MAXDEPTH && AllPassOn(levels, depth, v, lib) && j <= k && j <= |levels|
    ensures Passes(Run(Nested(levels, QuotedTimes(s, k)), depth, v, lib),
                   Run(Nested(levels[j..], QuotedTimes(s, k - j)), depth, v, lib))
  {
    var run := RunStrips(levels, depth, v, lib);
    Stripped(run, |levels|, 0, j, k, s);
    assert levels[0..] == levels;
  }

  lemma {:induction false} QuotedLonger(s: string, k: nat)
    ensures |QuotedTimes(s, k)| >= |s| + 2 * k
  {
    if k > 0 {
      QuotedLonger(s, k - 1);
      DoubledLonger(QuotedTimes(s, k - 1));
    }
  }

  lemma {:induction false} DoubledLonger(s: string)
    ensures |Doubled(s)| >= |s|
  {
    if s != "" { DoubledLonger(s[1..]); }
  }

  /** The text comes out as itself, without error. */
  predicate Yields(x: Result, s: string) { x.status == 0 && x.text == s }

  /** A literal inside n macros, quoted k times, comes out as itself exactly when k is n + 1, or
      k is at most n and the bare literal inside the n - k innermost macros comes out as itself. */
  lemma QuotesMatched(levels: seq<Level>, k: nat, s: string, depth: nat, v: Vars, lib: Library)
    requires depth <= MAXDEPTH && AllPassOn(levels, depth, v, lib)
    ensures Yields(Run(Nested(levels, QuotedTimes(s, k)), depth, v, lib), s) <==>
            k == |levels| + 1 || (k <= |levels| && Yields(Run(Nested(levels[k..], s), depth, v, lib), s))
  {
    var n := |levels|;
    if k <= n {
      LevelsStripped(levels, k, k, s, depth, v, lib);
    } else {
      LevelsStripped(levels, k, n, s, depth, v, lib);
      RunQuoted(QuotedTimes(s, k - n - 1), depth, v, lib);
      QuotedLonger(s, k - n - 1);
    }
  }

  lemma {:induction false} StableInside(levels: seq<Level>, s: string, depth: nat, v: Vars, lib: Library)
    requires depth <= MAXDEPTH && AllPassOn(levels, depth, v, lib) && Stable(s)
    ensures Stable(Nested(levels, s))
    ensures Passes(Run(Nested(levels, s), depth, v, lib), Run(s, depth, v, lib))
    decreases |levels|
  {
    if levels != [] {
      var l, t := levels[0], Nested(levels[1..], s);
      StableInside(levels[1..], s, depth, v, lib);
      StableLevel(l);
      AroundArgs(l, t);
      MacroIsOneArg(l.before + [t] + l.after);
      RunAround(l, t, depth, v, lib);
    }
  }

  /** A literal that scans to itself needs no quotes inside macros beyond those it needs outside. */
  lemma StableSurvives(levels: seq<Level>, k: nat, s: string, depth: nat, v: Vars, lib: Library)
    requires depth <= MAXDEPTH && AllPassOn(levels, depth, v, lib) && Stable(s)
    ensures Yields(Run(Nested(levels, QuotedTimes(s, k)), depth, v, lib), s) <==>
            k == |levels| + 1 || (k <= |levels| && Yields(Run(s, depth, v, lib), s))
  {
    QuotesMatched(levels, k, s, depth, v, lib);
    if k <= |levels| { StableInside(levels[k..], s, depth, v, lib); }
  }

  /** Some literals do need their last quotes: a lone quote. */
  lemma QuoteNeedsQuotes(levels: seq<Level>, depth: nat, v: Vars, lib: Library)
    requires depth <= MAXDEPTH && AllPassOn(levels, depth, v, lib)
    ensures Run(Nested(levels, QuotedTimes("\"", |levels|)), depth, v, lib).status != 0
  {
    LevelsStripped(levels, |levels|, |levels|, "\"", depth, v, lib);
    assert Copy("\"", false) == Copied("", InString, "");
  }
}
