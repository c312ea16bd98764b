/** What the DIESEL interpreter computes: the value of a text, its status, and the variables
    it leaves.  Functions other than those that choose, rescan or touch variables are given
    by a library. */
module DieselEval {
  import opened Bytes
  import opened DieselText

  const MAXDEPTH: nat := 32

  datatype Var = Var(name: string, value: string)

  /** The chain of variables, newest first, and how often it has been cleared. */
  datatype Vars = Vars(chain: seq<Var>, cleared: nat)

  /** The functions that evaluate their arguments in order and compute a string from them:
      which names there are, how many arguments they take, which argument values they can
      read, and what they return, if anything; and sscanf's reading of an integer. */
  datatype Library = Library(known: string -> bool, takes: (string, nat) -> bool, canRead: (string, nat, string) -> bool,
                             result: (string, seq<string>, seq<string>) -> Option<string>, scanInt: string -> Option<int>)

  /** Output and status of diesel: 0, -1 for a string that does not end, or the column of an error. */
  datatype Result = Result(text: string, status: int, vars: Vars)

  /** What a macro function leaves: its output, or nothing if it fails. */
  datatype Called = Called(out: Option<string>, vars: Vars)

  /** macrovalue: a value, a diagnostic text, or no output at all. */
  datatype Kind = Good | Diagnostic | Bad
  datatype Valued = Valued(kind: Kind, text: string, vars: Vars)

  function FirstNamed(chain: seq<Var>, name: string, from: nat): (i: nat)
    requires from <= |chain|
    ensures from <= i <= |chain| && (i < |chain| ==> chain[i].name == name) && forall j :: from <= j < i ==> chain[j].name != name
    decreases |chain| - from
  {
    if from == |chain| || chain[from].name == name then from else FirstNamed(chain, name, from + 1)
  }

  /** Where the chain that started at was's head starts in now; nowhere, once it was cleared. */
  function Since(was: Vars, now: Vars): (i: nat)
    ensures i <= |now.chain|
  {
    if was.cleared == now.cleared && |was.chain| <= |now.chain| then |now.chain| - |was.chain| else |now.chain|
  }

  function Get(chain: seq<Var>, name: string, from: nat): Option<string>
    requires from <= |chain|
  {
    var i := FirstNamed(chain, name, from);
    if i < |chain| then Some(chain[i].value) else None
  }

  /** A new value for a variable of the chain, or a new variable at its head. */
  function Set(v: Vars, name: string, value: string, from: nat): Vars
    requires from <= |v.chain|
  {
    var i := FirstNamed(v.chain, name, from);
    v.(chain := if i < |v.chain| then v.chain[i := Var(name, value)] else [Var(name, value)] + v.chain)
  }

  const BUILTINS: seq<string> := ["IF", "NTH", "EVAL", "EQ", "CLEAR", "GETVAR", "SETVAR"]

  predicate Known(name: string, lib: Library) { name in BUILTINS || lib.known(name) }

  /** Sarg: an argument's value, if it evaluates without error. */
  function Sarg(r: Result): Called { Called(if r.status == 0 then Some(r.text) else None, r.vars) }

  /** Iarg */
  function Iarg(r: Result, lib: Library): Option<int> { if r.status == 0 then lib.scanInt(r.text) else None }

  /** diesel */
  function Run(s: string, depth: nat, v: Vars, lib: Library): Result
    requires depth <= MAXDEPTH
    decreases MAXDEPTH - depth, |s|, 4, 0
  {
    RunFrom(s, |s|, depth, v, lib)
  }

  /** The loop of diesel from the point where s is left of an input of n characters. */
  function RunFrom(s: string, n: nat, depth: nat, v: Vars, lib: Library): Result
    requires depth <= MAXDEPTH
    decreases MAXDEPTH - depth, |s|, 3, 0
  {
    var c := Copy(s, false);
    match c.end
    case AtEnd => Result(c.text, 0, v)
    case InString => Result(c.text, -1, v)
    case AtMacro =>
      var m := Scan(c.rest[1..], false, 0, 0);
      if m.Unmatched? then Result(c.text + "@?", n, v)
      else
        var x := Value(m.args, |s|, depth, v, lib);
        match x.kind
        case Bad => Result(c.text + "@?", n - |m.rest|, x.vars)
        case Diagnostic => Result(c.text + x.text, n - |m.rest|, x.vars)
        case Good =>
          var r := RunFrom(m.rest, n, depth, x.vars, lib);
          Result(c.text + x.text + r.text, r.status, r.vars)
  }

  /** macrovalue */
  function Value(args: seq<string>, n: nat, depth: nat, v: Vars, lib: Library): Valued
    requires depth <= MAXDEPTH && args != [] && Shorter(args, n)
    decreases MAXDEPTH - depth, n, 2, 0
  {
    var name := Run(args[0], depth, v, lib);
    if name.status != 0 then Valued(Bad, "", name.vars)
    else
      var f := Upper(name.text);
      if !Known(f, lib) then Valued(Diagnostic, " @(" + f + ")?? ", name.vars)
      else
        var r := Call(f, args[1..], n, depth, name.vars, lib);
        match r.out
        case None => Valued(Diagnostic, " @(" + f + ",??) ", r.vars)
        case Some(t) => Valued(Good, t, r.vars)
  }

  /** The macro functions. */
  function Call(f: string, a: seq<string>, n: nat, depth: nat, v: Vars, lib: Library): Called
    requires depth <= MAXDEPTH && Shorter(a, n)
    decreases MAXDEPTH - depth, n, 1, 0
  {
    if f == "IF" then
      if |a| < 2 || |a| > 3 then Called(None, v)
      else
        var c := Run(a[0], depth, v, lib);
        match Iarg(c, lib)
        case None => Called(None, c.vars)
        case Some(b) =>
          if b != 0 then Sarg(Run(a[1], depth, c.vars, lib))
          else if |a| > 2 then Sarg(Run(a[2], depth, c.vars, lib))
          else Called(Some(""), c.vars)
    else if f == "NTH" then
      if |a| < 2 || |a| > MAXARGS then Called(None, v)
      else
        var c := Run(a[0], depth, v, lib);
        match Iarg(c, lib)
        case None => Called(None, c.vars)
        case Some(k) =>
          if k < 0 || k + 1 >= |a| then Called(None, c.vars) else Sarg(Run(a[k + 1], depth, c.vars, lib))
    else if f == "EVAL" then
      if depth >= MAXDEPTH || |a| != 1 then Called(None, v)
      else
        var x := Run(a[0], depth, v, lib);
        if x.status != 0 then Called(None, x.vars) else Sarg(Run(x.text, depth + 1, x.vars, lib))
    else if f == "EQ" then
      if |a| != 2 then Called(None, v)
      else
        var x := Run(a[0], depth, v, lib);
        if x.status != 0 then Called(None, x.vars)
        else
          var y := Run(a[1], depth, x.vars, lib);
          Called(if y.status == 0 then Some(if x.text == y.text then "1" else "0") else None, y.vars)
    else if f == "CLEAR" then Called(Some(""), Vars([], v.cleared + 1))
    else if f == "GETVAR" then
      if |a| != 1 then Called(None, v)
      else
        var x := Run(a[0], depth, v, lib);
        Called(if x.status == 0 then Get(x.vars.chain, x.text, Since(v, x.vars)) else None, x.vars)
    else if f == "SETVAR" then
      if |a| != 2 then Called(None, v)
      else
        var x := Run(a[0], depth, v, lib);
        if x.status != 0 then Called(None, x.vars)
        else
          var y := Run(a[1], depth, x.vars, lib);
          if y.status != 0 then Called(None, y.vars)
          else Called(Some(""), Set(y.vars, x.text, y.text, Since(v, y.vars)))
    else if !lib.takes(f, |a|) then Called(None, v)
    else
      var (vals, w) := EvalArgs(f, a, 0, n, depth, v, lib);
      Called(if vals.Some? then lib.result(f, a, vals.value) else None, w)
  }

  /** The values of arguments i and up, in order, while the function can read them. */
  function EvalArgs(f: string, a: seq<string>, i: nat, n: nat, depth: nat, v: Vars, lib: Library): (r: (Option<seq<string>>, Vars))
    requires depth <= MAXDEPTH && Shorter(a, n) && i <= |a|
    decreases MAXDEPTH - depth, n, 0, |a| - i
  {
    if i == |a| then (Some([]), v)
    else
      var x := Run(a[i], depth, v, lib);
      if x.status != 0 || !lib.canRead(f, i, x.text) then (None, x.vars)
      else
        var (more, w) := EvalArgs(f, a, i + 1, n, depth, x.vars, lib);
        (if more.Some? then Some([x.text] + more.value) else None, w)
  }
}
