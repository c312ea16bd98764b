/** Laws of the DIESEL interpreter about variables, unevaluated arguments and rescanning. */
module DieselVars {
  import opened Bytes
  import opened DieselText
  import opened DieselEval
  import opened DieselLaws

  // ----- variables

  lemma {:induction false} FirstNamedSame(chain: seq<Var>, chain': seq<Var>, name: string, from: nat)
    requires |chain| == |chain'| && from <= |chain| && forall i :: 0 <= i < |chain| ==> chain[i].name == chain'[i].name
    ensures FirstNamed(chain, name, from) == FirstNamed(chain', name, from)
    decreases |chain| - from
  {
    if from < |chain| { FirstNamedSame(chain, chain', name, from + 1); }
  }

  lemma {:induction false} FirstNamedShift(x: Var, chain: seq<Var>, name: string, from: nat)
    requires from <= |chain|
    ensures FirstNamed([x] + chain, name, from + 1) == FirstNamed(chain, name, from) + 1
    decreases |chain| - from
  {
    if from < |chain| {
      assert ([x] + chain)[from + 1] == chain[from];
      FirstNamedShift(x, chain, name, from + 1);
    }
  }

  /** A variable of that name stands before place from of the chain. */
  predicate NamedBefore(chain: seq<Var>, x: string, from: nat)
    requires from <= |chain|
  {
    exists i :: 0 <= i < from && chain[i].name == x
  }

  predicate NamedFrom(chain: seq<Var>, x: string, from: nat)
    requires from <= |chain|
  {
    exists i :: from <= i < |chain| && chain[i].name == x
  }

  /** Setting a variable in the chain from some place on leaves every other variable what it was,
      and gives this one the value unless both an older and a newer variable have its name. */
  lemma SetThenGet(v: Vars, x: string, s: string, from: nat, y: string)
    requires from <= |v.chain|
    ensures Get(Set(v, x, s, from).chain, y, 0) ==
            if y != x || (NamedBefore(v.chain, x, from) && NamedFrom(v.chain, x, from)) then Get(v.chain, y, 0) else Some(s)
  {
    var w := Set(v, x, s, from);
    var i := FirstNamed(v.chain, x, from);
    if i < |v.chain| {
      FirstNamedSame(v.chain, w.chain, y, 0);
    } else {
      assert w.chain[0].name == x;
      if y != x {
        FirstNamedShift(Var(x, s), v.chain, y, 0);
        var j := FirstNamed(v.chain, y, 0);
        assert j < |v.chain| ==> w.chain[j + 1] == v.chain[j];
      }
    }
  }

  predicate Distinct(chain: seq<Var>) { forall i, j :: 0 <= i < j < |chain| ==> chain[i].name != chain[j].name }

  /** Setting makes a second variable of a name exactly when one of that name stands before the
      place where the search starts. */
  lemma SetKeepsNames(v: Vars, x: string, s: string, from: nat)
    requires from <= |v.chain| && Distinct(v.chain)
    ensures Distinct(Set(v, x, s, from).chain) <==> !NamedBefore(v.chain, x, from)
  {
    var c := Set(v, x, s, from).chain;
    if i :| 0 <= i < from && v.chain[i].name == x {
      assert FirstNamed(v.chain, x, from) == |v.chain|;
      assert c[0].name == c[i + 1].name;
    }
  }

  /** A text of a macro argument that spells x: x itself if it is plain, or x quoted twice. */
  predicate Spells(p: string, x: string) { p == Q(Q(x)) || (p == x && Plain(x)) }

  /** What scanning leaves of it. */
  function ArgOfSpelling(p: string, x: string): string { if p == Q(Q(x)) then Q(x) else x }

  lemma SpellsPiece(p: string, x: string)
    requires Spells(p, x)
    ensures Piece(p, false, 0) == Some(ArgOfSpelling(p, x))
  {
    if p == Q(Q(x)) { QuotedIsOneArg(Q(x)); } else { PlainPiece(x); }
  }

  lemma SpellsRuns(p: string, x: string, depth: nat, v: Vars, lib: Library)
    requires depth <= MAXDEPTH && Spells(p, x)
    ensures Run(ArgOfSpelling(p, x), depth, v, lib) == Result(x, 0, v)
  {
    if p == Q(Q(x)) { RunQuoted(x, depth, v, lib); } else { RunPlain(x, depth, v, lib); }
  }

  /** SETVAR searches the chain from what was its head before the arguments were evaluated; names
      that are distinct then stay so exactly when the arguments put no variable of that name in front. */
  lemma CallSetvar(a: seq<string>, x: string, s: string, w: Vars, u: Vars, n: nat, depth: nat, v: Vars, lib: Library)
    requires depth <= MAXDEPTH && Shorter(a, n) && |a| == 2
    requires Run(a[0], depth, v, lib) == Result(x, 0, w) && Run(a[1], depth, w, lib) == Result(s, 0, u)
    ensures Call("SETVAR", a, n, depth, v, lib) == Called(Some(""), Set(u, x, s, Since(v, u)))
    ensures Distinct(u.chain) ==>
            (Distinct(Call("SETVAR", a, n, depth, v, lib).vars.chain) <==> !NamedBefore(u.chain, x, Since(v, u)))
  {
    if Distinct(u.chain) { SetKeepsNames(u, x, s, Since(v, u)); }
  }

  lemma CallGetvar(a: seq<string>, x: string, n: nat, depth: nat, v: Vars, lib: Library)
    requires depth <= MAXDEPTH && Shorter(a, n) && |a| == 1 && Run(a[0], depth, v, lib) == Result(x, 0, v)
    ensures Call("GETVAR", a, n, depth, v, lib) == Called(Get(v.chain, x, 0), v)
  {
  }

  lemma SetvarArgs(p: string, q: string)
    requires OneArg(p) && OneArg(q)
    ensures Macro(["SETVAR", p, q]) && ArgsOf(["SETVAR", p, q]) == ["SETVAR", ArgOf(p), ArgOf(q)]
    ensures Plain("SETVAR") && Upper("SETVAR") == "SETVAR"
  {
    PlainPiece("SETVAR");
  }

  lemma GetvarArgs(p: string)
    requires OneArg(p)
    ensures Macro(["GETVAR", p]) && ArgsOf(["GETVAR", p]) == ["GETVAR", ArgOf(p)]
    ensures Plain("GETVAR") && Upper("GETVAR") == "GETVAR"
  {
    PlainPiece("GETVAR");
  }

  /** SETVAR, followed by any text, when its first argument leaves the variables w and its second
      argument no others. */
  lemma RunSetvar(p: string, q: string, x: string, s: string, w: Vars, rest: string, n: nat, depth: nat, v: Vars, lib: Library)
    requires depth <= MAXDEPTH && OneArg(p) && OneArg(q)
    requires Run(ArgOf(p), depth, v, lib) == Result(x, 0, w) && Run(ArgOf(q), depth, w, lib) == Result(s, 0, w)
    ensures RunFrom(MacroText(["SETVAR", p, q]) + rest, n, depth, v, lib) == RunFrom(rest, n, depth, Set(w, x, s, Since(v, w)), lib)
  {
    var args, u := ["SETVAR", ArgOf(p), ArgOf(q)], Set(w, x, s, Since(v, w));
    SetvarArgs(p, q);
    forall m: nat | Shorter(args, m) ensures Call("SETVAR", args[1..], m, depth, v, lib) == Called(Some(""), u) {
      CallSetvar(args[1..], x, s, w, w, m, depth, v, lib);
    }
    RunThen(["SETVAR", p, q], args, "", u, rest, n, depth, v, lib);
    var r := RunFrom(rest, n, depth, u, lib);
    assert "" + r.text == r.text;
  }

  /** Setting a variable, followed by any text. */
  lemma RunSpelledSetvar(p: string, q: string, x: string, s: string, rest: string, n: nat, depth: nat, v: Vars, lib: Library)
    requires depth <= MAXDEPTH && Spells(p, x) && Spells(q, s)
    ensures RunFrom(MacroText(["SETVAR", p, q]) + rest, n, depth, v, lib) == RunFrom(rest, n, depth, Set(v, x, s, 0), lib)
  {
    SpellsPiece(p, x);
    SpellsPiece(q, s);
    SpellsRuns(p, x, depth, v, lib);
    SpellsRuns(q, s, depth, v, lib);
    RunSetvar(p, q, x, s, v, rest, n, depth, v, lib);
  }

  /** Getting a variable, on its own. */
  lemma RunGetvar(p: string, x: string, n: nat, depth: nat, v: Vars, lib: Library)
    requires depth <= MAXDEPTH && Spells(p, x) && Get(v.chain, x, 0).Some?
    ensures RunFrom(MacroText(["GETVAR", p]), n, depth, v, lib) == Result(Get(v.chain, x, 0).value, 0, v)
  {
    var args, s := ["GETVAR", ArgOfSpelling(p, x)], Get(v.chain, x, 0).value;
    SpellsPiece(p, x);
    GetvarArgs(p);
    forall m: nat | Shorter(args, m) ensures Call("GETVAR", args[1..], m, depth, v, lib) == Called(Some(s), v) {
      SpellsRuns(p, x, depth, v, lib);
      CallGetvar(args[1..], x, m, depth, v, lib);
    }
    RunThen(["GETVAR", p], args, s, v, "", n, depth, v, lib);
    assert MacroText(["GETVAR", p]) + "" == MacroText(["GETVAR", p]);
    assert RunFrom("", n, depth, v, lib) == Result("", 0, v);
    assert s + "" == s;
  }

  /** A variable set to any text, spelled out, and got again gives the text, with status 0. */
  lemma SetGet(p: string, q: string, p': string, x: string, s: string, depth: nat, v: Vars, lib: Library)
    requires depth <= MAXDEPTH && Spells(p, x) && Spells(q, s) && Spells(p', x)
    ensures Run(MacroText(["SETVAR", p, q]) + MacroText(["GETVAR", p']), depth, v, lib) == Result(s, 0, Set(v, x, s, 0))
  {
    var rest := MacroText(["GETVAR", p']);
    var n := |MacroText(["SETVAR", p, q]) + rest|;
    RunSpelledSetvar(p, q, x, s, rest, n, depth, v, lib);
    SetThenGet(v, x, s, 0, x);
    RunGetvar(p', x, n, depth, Set(v, x, s, 0), lib);
  }

  lemma SetvarText(p: string, q: string)
    ensures MacroText(["SETVAR", p, q]) == "@(SETVAR," + p + "," + q + ")"
  {
    assert ["SETVAR", p, q][1..] == [p, q] && [p, q][1..] == [q];
    assert Joined([q]) == q;
    assert Joined([p, q]) == p + "," + q;
    assert Joined(["SETVAR", p, q]) == "SETVAR" + "," + (p + "," + q);
  }

  /** Text after a macro in one argument. */
  lemma MacroThenPlain(ps: seq<string>, t: string)
    requires ps != [] && AllOneArg(ps) && Plain(t)
    ensures Piece(MacroText(ps) + t, false, 0) == Some(MacroText(ArgsOf(ps)) + t)
  {
    PieceMacro(ps, t, 0);
    PlainPiece(t);
  }

  /** A name whose evaluation sets a variable first. */
  lemma NameSets(x: string, s: string, name: string, depth: nat, v: Vars, lib: Library)
    requires depth <= MAXDEPTH && Plain(x) && Plain(s) && name == MacroText(["SETVAR", x, s]) + x
    ensures Piece(name, false, 0) == Some(name) && Run(name, depth, v, lib) == Result(x, 0, Set(v, x, s, 0))
  {
    var ps, w := ["SETVAR", x, s], Set(v, x, s, 0);
    PlainPiece(x);
    PlainPiece(s);
    SetvarArgs(x, s);
    MacroThenPlain(ps, x);
    RunSpelledSetvar(x, s, x, s, x, |name|, depth, v, lib);
    RunPlain(x, depth, w, lib);
    ColumnOnly(x, |name|, |x|, depth, w, lib);
    assert ArgsOf(ps) == ps;
  }

  /** Names do not stay distinct: a name that sets its own variable first makes a second one,
      as in @(SETVAR,@(SETVAR,x,1)x,2). */
  lemma SetvarTwice(x: string, s: string, s': string, depth: nat, v: Vars, lib: Library)
    requires depth <= MAXDEPTH && Plain(x) && Plain(s) && Plain(s') && v == Vars([], 0)
    ensures var name := "@(SETVAR," + x + "," + s + ")" + x;
            Run("@(SETVAR," + name + "," + s' + ")", depth, v, lib) == Result("", 0, Vars([Var(x, s'), Var(x, s)], 0))
  {
    var w, name := Vars([Var(x, s)], 0), MacroText(["SETVAR", x, s]) + x;
    var all := MacroText(["SETVAR", name, s']);
    SetvarText(x, s);
    SetvarText(name, s');
    NameSets(x, s, name, depth, v, lib);
    PlainPiece(s');
    RunPlain(s', depth, w, lib);
    RunSetvar(name, s', x, s', w, "", |all|, depth, v, lib);
    assert all + "" == all && Set(w, x, s', Since(v, w)) == Vars([Var(x, s'), Var(x, s)], 0);
  }

  // ----- arguments that are not evaluated

  /** IF and NTH, called with these arguments, do not evaluate argument k. */
  predicate Unused(f: string, a: seq<string>, k: nat, depth: nat, v: Vars, lib: Library)
    requires depth <= MAXDEPTH
  {
    && 1 <= k < |a|
    && var c := Iarg(Run(a[0], depth, v, lib), lib);
    && c.Some?
    && ((f == "IF" && |a| <= 3 && k == if c.value != 0 then 2 else 1) ||
        (f == "NTH" && |a| <= MAXARGS && k != c.value + 1))
  }

  /** Whatever stands in the place of an argument that is not evaluated makes no difference. */
  lemma CallLazy(f: string, a: seq<string>, k: nat, t: string, m: nat, n: nat, depth: nat, v: Vars, lib: Library)
    requires depth <= MAXDEPTH && Unused(f, a, k, depth, v, lib) && Shorter(a, m) && Shorter(a[k := t], n)
    ensures Call(f, a, m, depth, v, lib) == Call(f, a[k := t], n, depth, v, lib)
  {
  }

  lemma {:induction false} ArgsReplaced(ps: seq<string>, k: nat, t: string)
    requires AllOneArg(ps) && OneArg(t) && k < |ps|
    ensures AllOneArg(ps[k := t]) && ArgsOf(ps[k := t]) == ArgsOf(ps)[k := ArgOf(t)]
  {
  }

  lemma ValueLazy(args: seq<string>, k: nat, t: string, m: nat, n: nat, depth: nat, v: Vars, lib: Library)
    requires depth <= MAXDEPTH && args != [] && 1 <= k < |args| && Shorter(args, m) && Shorter(args[k := t], n)
    requires var name := Run(args[0], depth, v, lib);
             name.status == 0 && Unused(Upper(name.text), args[1..], k - 1, depth, name.vars, lib)
    ensures Value(args, m, depth, v, lib) == Value(args[k := t], n, depth, v, lib)
  {
    var name := Run(args[0], depth, v, lib);
    assert args[k := t][1..] == args[1..][k - 1 := t];
    CallLazy(Upper(name.text), args[1..], k - 1, t, m, n, depth, name.vars, lib);
  }

  /** In the text of a macro, an argument that IF or NTH does not evaluate may be replaced by any
      text that scans as one argument: the output, the variables and whether there is an error
      stay the same, whatever macros the text contains and whatever follows. */
  lemma LazyText(ps: seq<string>, k: nat, t: string, rest: string, depth: nat, v: Vars, lib: Library)
    requires depth <= MAXDEPTH && Macro(ps) && OneArg(t) && 1 <= k < |ps|
    requires var name := Run(ArgOf(ps[0]), depth, v, lib);
             name.status == 0 && Unused(Upper(name.text), ArgsOf(ps)[1..], k - 1, depth, name.vars, lib)
    ensures Same(Run(MacroText(ps) + rest, depth, v, lib), Run(MacroText(ps[k := t]) + rest, depth, v, lib))
  {
    var ps' := ps[k := t];
    var s, s' := MacroText(ps) + rest, MacroText(ps') + rest;
    ArgsReplaced(ps, k, t);
    RunMacro(ps, rest, |s|, depth, v, lib);
    RunMacro(ps', rest, |s'|, depth, v, lib);
    ValueLazy(ArgsOf(ps), k, ArgOf(t), |s|, |s'|, depth, v, lib);
    var x := Value(ArgsOf(ps), |s|, depth, v, lib);
    if x.kind.Good? {
      ColumnOnly(rest, |s|, |s'|, depth, x.vars, lib);
    }
  }

  // ----- rescanning

  /** A text rescanned: quoted twice, for the scan and for the argument. */
  function Rescan(t: string): string { MacroText(["EVAL", Q(Q(t))]) }

  /** EVAL evaluates a text one level deeper; at the depth limit it fails. */
  lemma RunRescan(t: string, depth: nat, v: Vars, lib: Library)
    requires depth <= MAXDEPTH
    ensures depth == MAXDEPTH ==> Run(Rescan(t), depth, v, lib).status != 0
    ensures depth < MAXDEPTH ==> Passes(Run(Rescan(t), depth, v, lib), Run(t, depth + 1, v, lib))
  {
    var ps := ["EVAL", Q(Q(t))];
    PlainPiece("EVAL");
    QuotedIsOneArg(Q(t));
    assert Upper("EVAL") == "EVAL";
    RunNamed(ps, depth, v, lib);
    RunQuoted(t, depth, v, lib);
    assert ArgsOf(ps)[1..] == [Q(t)];
    assert |MacroText(ps)| > 0;
  }

  function RescanTimes(t: string, k: nat): string { if k == 0 then t else Rescan(RescanTimes(t, k - 1)) }

  /** run(k, d) is the result of k nested EVALs at depth d: each hands its text on one level
      deeper, and fails at the limit. */
  ghost predicate Deepens(run: (nat, nat) -> Result)
  {
    && (forall k: nat, d: nat {:trigger run(k + 1, d)} :: d < MAXDEPTH ==> Passes(run(k + 1, d), run(k, d + 1)))
    && (forall k: nat {:trigger run(k + 1, MAXDEPTH)} :: run(k + 1, MAXDEPTH).status != 0)
  }

  lemma {:induction false} RescanDeep(run: (nat, nat) -> Result, k: nat, depth: nat)
    requires Deepens(run) && depth <= MAXDEPTH
    ensures if depth + k > MAXDEPTH then run(k, depth).status != 0 else Passes(run(k, depth), run(0, depth + k))
    decreases k
  {
    if k > 0 {
      var j := k - 1;
      if depth < MAXDEPTH {
        assert Passes(run(j + 1, depth), run(j, depth + 1));
        RescanDeep(run, j, depth + 1);
      } else {
        assert run(j + 1, MAXDEPTH).status != 0;
      }
    }
  }

  function Rescanned(t: string, k: nat, depth: nat, v: Vars, lib: Library): Result
  {
    if depth <= MAXDEPTH then Run(RescanTimes(t, k), depth, v, lib) else Result("", 0, v)
  }

  lemma RescannedDeeper(t: string, k: nat, depth: nat, v: Vars, lib: Library)
    requires depth <= MAXDEPTH
    ensures depth == MAXDEPTH ==> Rescanned(t, k + 1, depth, v, lib).status != 0
    ensures depth < MAXDEPTH ==> Passes(Rescanned(t, k + 1, depth, v, lib), Rescanned(t, k, depth + 1, v, lib))
  {
    RunRescan(RescanTimes(t, k), depth, v, lib);
  }

  lemma RescannedDeepens(t: string, v: Vars, lib: Library, run: (nat, nat) -> Result)
    requires forall k: nat, d: nat :: run(k, d) == Rescanned(t, k, d, v, lib)
    ensures Deepens(run)
  {
    forall k: nat, d: nat {:trigger run(k + 1, d)} | d < MAXDEPTH ensures Passes(run(k + 1, d), run(k, d + 1)) {
      RescannedDeeper(t, k, d, v, lib);
    }
    forall k: nat {:trigger run(k + 1, MAXDEPTH)} | true ensures run(k + 1, MAXDEPTH).status != 0 {
      RescannedDeeper(t, k, MAXDEPTH, v, lib);
    }
  }

  /** k nested EVALs evaluate their text k levels deeper, and fail past the limit. */
  lemma RescanLevels(t: string, k: nat, v: Vars, lib: Library)
    ensures if k > MAXDEPTH then Rescanned(t, k, 0, v, lib).status != 0
            else Passes(Rescanned(t, k, 0, v, lib), Rescanned(t, 0, k, v, lib))
  {
    var run := (k: nat, d: nat) => Rescanned(t, k, d, v, lib);
    RescannedDeepens(t, v, lib, run);
    RescanDeep(run, k, 0);
    assert run(k, 0) == Rescanned(t, k, 0, v, lib) && run(0, k) == Rescanned(t, 0, k, v, lib);
  }

  /** A plain text under k nested EVALs evaluates to itself exactly when k is at most the limit. */
  lemma RescanLimit(t: string, k: nat, s: string, v: Vars, lib: Library)
    requires Plain(t) && s == RescanTimes(t, k)
    ensures Run(s, 0, v, lib) == Result(t, 0, v) <==> k <= 32
    ensures Run(s, 0, v, lib).status == 0 <==> k <= 32
  {
    RescanLevels(t, k, v, lib);
    if k <= MAXDEPTH { RunPlain(t, k, v, lib); }
  }
}
