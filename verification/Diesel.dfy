/** The DIESEL interpreter of lib/diesel.c: scanning loops, recursive evaluation, and the two
    static variables it keeps, the chain of variables and the depth of EVAL. */
module Diesel {
  import opened Bytes
  import opened DieselText
  import opened DieselEval

  lemma Step(s: string, i: nat)
    requires i < |s|
    ensures s[i..] != "" && s[i..][0] == s[i] && s[i..][1..] == s[i + 1..]
    ensures (|s[i..]| > 1 <==> i + 1 < |s|) && (i + 1 < |s| ==> s[i..][1] == s[i + 1] && s[i..][2..] == s[i + 2..])
  {
  }

  /** copymode from position pos: 0 at the end of the input, -1 if that is inside a string, 1 at
      a macro, with next at its bracket. */
  method CopyMode(input: string, pos: nat) returns (stat: int, next: nat, out: string)
    requires pos <= |input|
    ensures var c := Copy(input[pos..], false);
            && next <= |input| && out == c.text && input[next..] == c.rest
            && stat == (match c.end case AtEnd => 0 case InString => -1 case AtMacro => 1)
  {
    out := "";
    var ip, instring := pos, false;
    ghost var c := Copy(input[pos..], false);
    CopyIs(c, "");
    while ip < |input|
      invariant pos <= ip <= |input| && c == Copy(input[ip..], instring).After(out)
      decreases |input| - ip
    {
      var ch := input[ip];
      Step(input, ip);
      ip := ip + 1;
      if ch == QUOTE {
        if instring {
          if ip < |input| && input[ip] == QUOTE {
            CopyMore(Copy(input[ip + 1..], true), out, [QUOTE]);
            out := out + [QUOTE];
            ip := ip + 1;
          } else {
            instring := false;
          }
        } else {
          instring := true;
        }
      } else if ch == MACROCHAR && !instring && ip < |input| && input[ip] == ARGOPEN {
        assert out + "" == out;
        return 1, ip, out;
      } else {
        CopyMore(Copy(input[ip..], instring), out, [ch]);
        out := out + [ch];
      }
    }
    assert out + "" == out;
    return if instring then -1 else 0, ip, out;
  }

  lemma CopyIs(c: Copied, a: string)
    ensures c.After("") == c
  {
    assert "" + c.text == c.text;
  }

  lemma CopyMore(c: Copied, a: string, b: string)
    ensures c.After(b).After(a) == c.After(a + b)
  {
    assert a + (b + c.text) == (a + b) + c.text;
  }

  /** A scan that already has these arguments in front. */
  function Prepended(args: seq<string>, r: Scanned): Scanned
  {
    if r.Scanned? then Scanned(args + r.args, r.rest) else r
  }

  lemma NextArg(args: seq<string>, op: string, r: Scanned)
    requires r.Scanned? ==> r.args != []
    ensures Prepended(args, (if r.Scanned? then Scanned([""] + r.args, r.rest) else r).After(op)) == Prepended(args + [op], r.After(""))
  {
    AfterAfter(r, "", "");
    if r.Scanned? {
      assert ([""] + r.args)[1..] == r.args && op + "" == op;
      assert args + ([op] + r.args) == (args + [op]) + r.args;
    }
  }

  lemma LastArg(args: seq<string>, op: string, rest: string)
    ensures Prepended(args, Scanned([""], rest).After(op)) == Scanned(args + [op], rest)
  {
    assert [""][1..] == [] && op + "" == op && [op] + [] == [op];
  }

  /** What the scan is once args and op have been split off and s is left. */
  ghost function Left(args: seq<string>, op: string, s: string, instring: bool, depth: nat): Scanned
  {
    Prepended(args, Scan(s, instring, depth, |args|).After(op))
  }

  /** A character that goes into the argument. */
  lemma KeepChar(args: seq<string>, op: string, s: string, instring: bool, depth: nat, d: nat)
    requires s != "" && s[0] != QUOTE
    requires instring || s[0] == ARGOPEN || s[0] == ARGCLOSE || s[0] != ARGSEP || depth > 0
    requires if instring then d == depth
             else if s[0] == ARGOPEN then d == depth + 1
             else if s[0] == ARGCLOSE then depth > 0 && d == depth - 1
             else d == depth
    ensures Left(args, op, s, instring, depth) == Left(args, op + [s[0]], s[1..], instring, d)
  {
    AfterAfter(Scan(s[1..], instring, d, |args|), op, [s[0]]);
  }

  /** A quote: it opens or closes a string, or is one of two that stand for a quote. */
  lemma QuoteChar(args: seq<string>, op: string, s: string, instring: bool, depth: nat)
    requires s != "" && s[0] == QUOTE
    ensures if instring && |s| > 1 && s[1] == QUOTE then Left(args, op, s, instring, depth) == Left(args, op + [QUOTE], s[2..], true, depth)
            else Left(args, op, s, instring, depth) == Left(args, op, s[1..], !instring, depth)
  {
    if instring && |s| > 1 && s[1] == QUOTE {
      AfterAfter(Scan(s[2..], true, depth, |args|), op, [QUOTE]);
    }
  }

  lemma CloseChar(args: seq<string>, op: string, s: string)
    requires s != "" && s[0] == ARGCLOSE
    ensures Left(args, op, s, false, 0) == Scanned(args + [op], s[1..])
  {
    LastArg(args, op, s[1..]);
  }

  lemma SepChar(args: seq<string>, op: string, s: string)
    requires s != "" && s[0] == ARGSEP
    ensures if |args| >= MAXARGS - 1 then Left(args, op, s, false, 0) == Unmatched
            else Left(args, op, s, false, 0) == Left(args + [op], "", s[1..], false, 0)
  {
    if |args| < MAXARGS - 1 {
      NextArg(args, op, Scan(s[1..], false, 0, |args| + 1));
    }
  }

  /** What macromode does with one character: it goes on, or has found the end of the macro or
      one argument too many. */
  method MacroChar(input: string, at: nat, instring: bool, depth: nat, args: seq<string>, op: string, ghost s: string)
    returns (stop: bool, valid: bool, next: nat, instring': bool, depth': nat, args': seq<string>, op': string)
    requires at < |input| && |args| < MAXARGS && s == input[at..]
    ensures !stop ==>
              && at < next <= |input| && |args'| < MAXARGS
              && Left(args, op, s, instring, depth) == Left(args', op', input[next..], instring', depth')
    ensures stop ==>
              next <= |input| && (!valid ==> next == |input|) &&
              Left(args, op, s, instring, depth) == if valid then Scanned(args', input[next..]) else Unmatched
  {
    var ch := input[at];
    Step(input, at);
    stop, valid, next, instring', depth', args', op' := false, false, at + 1, instring, depth, args, op;
    if ch == QUOTE {
      QuoteChar(args, op, s, instring, depth);
      if instring && next < |input| && input[next] == QUOTE {
        op' := op + [QUOTE];
        next := next + 1;
      } else {
        instring' := !instring;
      }
    } else if ch == ARGCLOSE && !instring && depth == 0 {
      CloseChar(args, op, s);
      stop, valid, args' := true, true, args + [op];
    } else if ch == ARGSEP && !instring && depth == 0 {
      SepChar(args, op, s);
      if |args| >= MAXARGS - 1 {
        stop, next := true, |input|;
      } else {
        args', op' := args + [op], "";
      }
    } else {
      if !instring {
        if ch == ARGOPEN {
          depth' := depth + 1;
        } else if ch == ARGCLOSE {
          depth' := depth - 1;
        }
      }
      KeepChar(args, op, s, instring, depth, depth');
      op' := op + [ch];
    }
  }

  /** macromode from a macro's opening bracket. */
  method MacroMode(input: string, pos: nat) returns (valid: bool, next: nat, args: seq<string>)
    requires pos < |input| && input[pos] == ARGOPEN
    ensures next <= |input|
    ensures var m := Scan(input[pos..][1..], false, 0, 0);
            if valid then m == Scanned(args, input[next..]) else m.Unmatched? && next == |input|
  {
    Step(input, pos);
    args, next := [], pos + 1;
    var op, instring := "", false;
    var depth: nat := 0;
    ghost var m := Left(args, op, input[next..], false, 0);
    LeftStart(input[next..]);
    while next < |input|
      invariant pos < next <= |input| && |args| < MAXARGS
      invariant m == Left(args, op, input[next..], instring, depth)
      decreases |input| - next
    {
      var stop;
      stop, valid, next, instring, depth, args, op := MacroChar(input, next, instring, depth, args, op, input[next..]);
      if stop {
        return;
      }
    }
    LeftEnd(args, op, input[next..], instring, depth);
    valid := false;
  }

  lemma LeftEnd(args: seq<string>, op: string, s: string, instring: bool, depth: nat)
    requires s == ""
    ensures Left(args, op, s, instring, depth) == Unmatched
  {
  }

  lemma LeftStart(s: string)
    ensures Left([], "", s, false, 0) == Scan(s, false, 0, 0)
  {
    var r := Scan(s, false, 0, 0);
    AfterAfter(r, "", "");
    if r.Scanned? { assert [] + r.args == r.args; }
  }

  lemma RunFromEnd(s: string, n: nat, depth: nat, v: Vars, lib: Library)
    requires depth <= MAXDEPTH && !Copy(s, false).end.AtMacro?
    ensures var c := Copy(s, false);
            RunFrom(s, n, depth, v, lib) == Result(c.text, if c.end.AtEnd? then 0 else -1, v)
  {
  }

  lemma RunFromMacro(s: string, n: nat, depth: nat, v: Vars, lib: Library)
    requires depth <= MAXDEPTH && Copy(s, false).end.AtMacro?
    ensures var c := Copy(s, false); var m := Scan(c.rest[1..], false, 0, 0);
            if m.Unmatched? then RunFrom(s, n, depth, v, lib) == Result(c.text + "@?", n, v)
            else
              && Shorter(m.args, |s|)
              && var x := Value(m.args, |s|, depth, v, lib);
              && RunFrom(s, n, depth, v, lib) ==
                 match x.kind
                 case Bad => Result(c.text + "@?", n - |m.rest|, x.vars)
                 case Diagnostic => Result(c.text + x.text, n - |m.rest|, x.vars)
                 case Good => FoundAfter(c.text + x.text, RunFrom(m.rest, n, depth, x.vars, lib))
  {
  }

  class Interpreter {
    var vars: Vars
    var depth: nat
    const lib: Library

    constructor (lib: Library)
      ensures this.lib == lib && vars == Vars([], 0) && depth == 0
    {
      this.lib, vars, depth := lib, Vars([], 0), 0;
    }

    /** diesel: evaluates a text; the depth is what it was. */
    method Diesel(input: string) returns (out: string, status: int)
      requires depth <= MAXDEPTH
      modifies this
      ensures Result(out, status, vars) == Run(input, old(depth), old(vars), lib) && depth == old(depth)
      decreases MAXDEPTH - depth, |input|, 4, 0
    {
      out, status := "", 0;
      var pos, n, done := 0, |input|, false;
      ghost var d, r := depth, Run(input, depth, vars, lib);
      assert input[0..] == input;
      FoundMore(r, "", "");
      while !done
        invariant pos <= n == |input| && depth == d <= MAXDEPTH
        invariant if done then r == Result(out, status, vars) else r == FoundAfter(out, RunFrom(input[pos..], n, d, vars, lib))
        decreases n - pos, if done then 0 else 1
      {
        var more;
        done, more, status, pos := DieselStep(input, pos);
        FoundMore(if done then Result("", status, vars) else RunFrom(input[pos..], n, d, vars, lib), out, more);
        assert more + "" == more && (out + more) + "" == out + more;
        out := out + more;
      }
    }

    /** One round of diesel's loop: text up to a macro, and the macro. */
    method DieselStep(input: string, pos: nat) returns (done: bool, out: string, status: int, next: nat)
      requires depth <= MAXDEPTH && pos <= |input|
      modifies this
      ensures depth == old(depth) && pos <= next <= |input| && (!done ==> pos < next)
      ensures RunFrom(input[pos..], |input|, old(depth), old(vars), lib) ==
              if done then Result(out, status, vars)
              else FoundAfter(out, RunFrom(input[next..], |input|, old(depth), vars, lib))
      decreases MAXDEPTH - depth, |input|, 3, 2
    {
      ghost var s := input[pos..];
      var stat;
      stat, next, out := CopyMode(input, pos);
      if stat != 1 {
        RunFromEnd(s, |input|, depth, vars, lib);
        return true, out, stat, |input|;
      }
      Step(input, next);
      done, out, status, next := MacroStep(input, next, s, out);
    }

    /** The macro whose bracket is at position at, after text that has been copied. */
    method MacroStep(input: string, at: nat, ghost s: string, text: string)
      returns (done: bool, out: string, status: int, next: nat)
      requires depth <= MAXDEPTH && at < |input| && input[at] == ARGOPEN && |input| - at < |s| <= |input|
      requires Copy(s, false) == Copied(text, AtMacro, input[at..])
      modifies this
      ensures depth == old(depth) && at < next <= |input|
      ensures RunFrom(s, |input|, old(depth), old(vars), lib) ==
              if done then Result(out, status, vars)
              else FoundAfter(out, RunFrom(input[next..], |input|, old(depth), vars, lib))
      decreases MAXDEPTH - depth, |input|, 3, 1
    {
      RunFromMacro(s, |input|, depth, vars, lib);
      var kind, value;
      kind, value, next := MacroEval(input, at, |s|);
      if kind.Bad? {
        return true, text + "@?", next, next;
      }
      return kind.Diagnostic?, text + value, next, next;
    }

    /** macroeval: scans and evaluates the macro whose bracket is at position at. */
    method MacroEval(input: string, at: nat, ghost n: nat) returns (kind: Kind, value: string, next: nat)
      requires depth <= MAXDEPTH && at < |input| && input[at] == ARGOPEN && |input| - at < n <= |input|
      modifies this
      ensures depth == old(depth) && at < next <= |input|
      ensures var m := Scan(input[at..][1..], false, 0, 0);
              if m.Unmatched? then kind == Bad && next == |input| && vars == old(vars)
              else Shorter(m.args, n) && |m.rest| == |input| - next && input[next..] == m.rest &&
                   Valued(kind, value, vars) == Value(m.args, n, old(depth), old(vars), lib)
      decreases MAXDEPTH - depth, n, 3, 0
    {
      Step(input, at);
      var valid, args;
      valid, next, args := MacroMode(input, at);
      if valid {
        kind, value := MacroValue(args, n);
      } else {
        kind, value := Bad, "";
      }
    }

    /** macrovalue */
    method MacroValue(args: seq<string>, ghost n: nat) returns (kind: Kind, output: string)
      requires depth <= MAXDEPTH && args != [] && Shorter(args, n)
      modifies this
      ensures depth == old(depth) && Valued(kind, output, vars) == Value(args, n, old(depth), old(vars), lib)
      decreases MAXDEPTH - depth, n, 2, 0
    {
      var name, stat := Diesel(args[0]);
      if stat != 0 {
        return Bad, "";
      }
      var f := Upper(name);
      if !Known(f, lib) {
        return Diagnostic, " @(" + f + ")?? ";
      }
      var out := Function(f, args[1..], n);
      if out.None? {
        return Diagnostic, " @(" + f + ",??) ";
      }
      return Good, out.value;
    }

    /** The function table. */
    method Function(f: string, a: seq<string>, ghost n: nat) returns (out: Option<string>)
      requires depth <= MAXDEPTH && Shorter(a, n)
      modifies this
      ensures depth == old(depth) && Called(out, vars) == Call(f, a, n, old(depth), old(vars), lib)
      decreases MAXDEPTH - depth, n, 1, 1
    {
      if f == "IF" { out := FIf(a, n); }
      else if f == "NTH" { out := FNth(a, n); }
      else if f == "EVAL" { out := FEval(a, n); }
      else if f == "EQ" { out := FEqual(a, n); }
      else if f == "CLEAR" { out := FClear(a, n); }
      else if f == "GETVAR" { out := FGetvar(a, n); }
      else if f == "SETVAR" { out := FSetvar(a, n); }
      else { out := FLibrary(f, a, n); }
    }

    /** f_if */
    method FIf(a: seq<string>, ghost n: nat) returns (out: Option<string>)
      requires depth <= MAXDEPTH && Shorter(a, n)
      modifies this
      ensures depth == old(depth) && Called(out, vars) == Call("IF", a, n, old(depth), old(vars), lib)
      decreases MAXDEPTH - depth, n, 1, 0
    {
      if |a| < 2 || |a| > 3 { return None; }
      var str, stat := Diesel(a[0]);
      if stat != 0 { return None; }
      var bval := lib.scanInt(str);
      if bval.None? { return None; }
      if bval.value != 0 {
        str, stat := Diesel(a[1]);
        if stat != 0 { return None; }
      } else {
        if |a| > 2 {
          str, stat := Diesel(a[2]);
          if stat != 0 { return None; }
        } else {
          str := "";
        }
      }
      return Some(str);
    }

    /** f_nth */
    method FNth(a: seq<string>, ghost n: nat) returns (out: Option<string>)
      requires depth <= MAXDEPTH && Shorter(a, n)
      modifies this
      ensures depth == old(depth) && Called(out, vars) == Call("NTH", a, n, old(depth), old(vars), lib)
      decreases MAXDEPTH - depth, n, 1, 0
    {
      if |a| < 2 || |a| > MAXARGS { return None; }
      var str, stat := Diesel(a[0]);
      if stat != 0 { return None; }
      var k := lib.scanInt(str);
      if k.None? || k.value < 0 || k.value + 1 >= |a| { return None; }
      str, stat := Diesel(a[k.value + 1]);
      if stat != 0 { return None; }
      return Some(str);
    }

    /** f_eval */
    method FEval(a: seq<string>, ghost n: nat) returns (out: Option<string>)
      requires depth <= MAXDEPTH && Shorter(a, n)
      modifies this
      ensures depth == old(depth) && Called(out, vars) == Call("EVAL", a, n, old(depth), old(vars), lib)
      decreases MAXDEPTH - depth, n, 1, 0
    {
      if depth >= MAXDEPTH || |a| != 1 { return None; }
      var arg, stat := Diesel(a[0]);
      if stat != 0 { return None; }
      depth := depth + 1;
      var value;
      value, stat := Diesel(arg);
      depth := depth - 1;
      return if stat == 0 then Some(value) else None;
    }

    /** f_equal */
    method FEqual(a: seq<string>, ghost n: nat) returns (out: Option<string>)
      requires depth <= MAXDEPTH && Shorter(a, n)
      modifies this
      ensures depth == old(depth) && Called(out, vars) == Call("EQ", a, n, old(depth), old(vars), lib)
      decreases MAXDEPTH - depth, n, 1, 0
    {
      if |a| != 2 { return None; }
      var arg1, stat := Diesel(a[0]);
      if stat != 0 { return None; }
      var arg2;
      arg2, stat := Diesel(a[1]);
      if stat != 0 { return None; }
      return Some(if arg1 == arg2 then "1" else "0");
    }

    /** f_clear */
    method FClear(a: seq<string>, ghost n: nat) returns (out: Option<string>)
      requires depth <= MAXDEPTH && Shorter(a, n)
      modifies this
      ensures depth == old(depth) && Called(out, vars) == Call("CLEAR", a, n, old(depth), old(vars), lib)
    {
      vars := Vars([], vars.cleared + 1);
      return Some("");
    }

    /** Walks the chain from position vp to the first variable of this name. */
    method Seek(name: string, vp: nat) returns (i: nat)
      requires vp <= |vars.chain|
      ensures i == FirstNamed(vars.chain, name, vp)
    {
      i := vp;
      while i < |vars.chain|
        invariant vp <= i <= |vars.chain| && FirstNamed(vars.chain, name, vp) == FirstNamed(vars.chain, name, i)
      {
        if vars.chain[i].name == name {
          return;
        }
        i := i + 1;
      }
    }

    /** f_getvar: the chain is entered at what was its head before the name was evaluated. */
    method FGetvar(a: seq<string>, ghost n: nat) returns (out: Option<string>)
      requires depth <= MAXDEPTH && Shorter(a, n)
      modifies this
      ensures depth == old(depth) && Called(out, vars) == Call("GETVAR", a, n, old(depth), old(vars), lib)
      decreases MAXDEPTH - depth, n, 1, 0
    {
      var was := vars;
      if |a| != 1 { return None; }
      var vname, stat := Diesel(a[0]);
      if stat != 0 { return None; }
      var i := Seek(vname, Since(was, vars));
      return if i < |vars.chain| then Some(vars.chain[i].value) else None;
    }

    /** f_setvar */
    method FSetvar(a: seq<string>, ghost n: nat) returns (out: Option<string>)
      requires depth <= MAXDEPTH && Shorter(a, n)
      modifies this
      ensures depth == old(depth) && Called(out, vars) == Call("SETVAR", a, n, old(depth), old(vars), lib)
      decreases MAXDEPTH - depth, n, 1, 0
    {
      var was := vars;
      if |a| != 2 { return None; }
      var vname, stat := Diesel(a[0]);
      if stat != 0 { return None; }
      var vvalue;
      vvalue, stat := Diesel(a[1]);
      if stat != 0 { return None; }
      var i := Seek(vname, Since(was, vars));
      if i < |vars.chain| {
        vars := vars.(chain := vars.chain[i := Var(vname, vvalue)]);
      } else {
        vars := vars.(chain := [Var(vname, vvalue)] + vars.chain);
      }
      return Some("");
    }

    /** A function of the library: evaluates its arguments in order, as far as it can read them. */
    method FLibrary(f: string, a: seq<string>, ghost n: nat) returns (out: Option<string>)
      requires depth <= MAXDEPTH && Shorter(a, n) && f !in BUILTINS
      modifies this
      ensures depth == old(depth) && Called(out, vars) == Call(f, a, n, old(depth), old(vars), lib)
      decreases MAXDEPTH - depth, n, 1, 0
    {
      if !lib.takes(f, |a|) { return None; }
      var vals, i := [], 0;
      ghost var d, v := depth, vars;
      ValuesNone(EvalArgs(f, a, 0, n, d, v, lib));
      while i < |a|
        invariant i == |vals| <= |a| && depth == d
        invariant EvalArgs(f, a, 0, n, d, v, lib) == ValuesAfter(vals, EvalArgs(f, a, i, n, d, vars, lib))
      {
        var val, stat := Diesel(a[i]);
        if stat != 0 || !lib.canRead(f, i, val) { return None; }
        ValuesMore(EvalArgs(f, a, i + 1, n, d, vars, lib), vals, val);
        vals := vals + [val];
        i := i + 1;
      }
      assert vals + [] == vals;
      return lib.result(f, a, vals);
    }
  }

  /** A result with text in front of it. */
  function FoundAfter(s: string, r: Result): Result { r.(text := s + r.text) }

  lemma FoundMore(r: Result, a: string, b: string)
    ensures FoundAfter(a, FoundAfter(b, r)) == FoundAfter(a + b, r) && FoundAfter("", r) == r
  {
    assert a + (b + r.text) == (a + b) + r.text && "" + r.text == r.text;
  }

  lemma ValuesNone(r: (Option<seq<string>>, Vars))
    ensures ValuesAfter([], r) == r
  {
    if r.0.Some? { assert [] + r.0.value == r.0.value; }
  }

  lemma ValuesMore(r: (Option<seq<string>>, Vars), vals: seq<string>, val: string)
    ensures ValuesAfter(vals, (if r.0.Some? then Some([val] + r.0.value) else None, r.1)) == ValuesAfter(vals + [val], r)
  {
    if r.0.Some? { assert vals + ([val] + r.0.value) == (vals + [val]) + r.0.value; }
  }

  function ValuesAfter(vals: seq<string>, r: (Option<seq<string>>, Vars)): (Option<seq<string>>, Vars)
  {
    (if r.0.Some? then Some(vals + r.0.value) else None, r.1)
  }
}
