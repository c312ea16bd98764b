/** lib/dbdupe.c: the cache of CRCs that tells duplicates, kept in memory while it is loaded
    and cut to its limit when it is written back. */
module Dupes {
  import opened Bytes

  const SPARE: nat := 5000

  /** dupesrec while it is loaded; crcs are the first count entries of its buffer. */
  datatype Memory = Memory(crcs: seq<word>, changed: bool, max: nat, peak: nat)

  /** One duplicate database: its file, and what is in memory. */
  datatype Cache = Cache(file: seq<word>, mem: Option<Memory>)

  /** The last n entries. */
  function LastOf(s: seq<word>, n: nat): (r: seq<word>)
    ensures |r| == if |s| > n then n else |s|
  {
    if |s| > n then s[|s| - n..] else s
  }

  function Load(c: Cache, max: nat): Memory
  {
    match c.mem
    case Some(m) => m
    case None => Memory(c.file, false, max, (if |c.file| > max then |c.file| else max) + SPARE)
  }

  function Close(c: Cache): Cache
  {
    match c.mem
    case None => c
    case Some(m) => Cache(if m.changed then LastOf(m.crcs, m.max) else c.file, None)
  }

  function Check(c: Cache, crc: word, max: nat): (Cache, bool)
  {
    var m := Load(c, max);
    if crc in m.crcs then (c.(mem := Some(m)), true)
    else
      var c' := c.(mem := Some(m.(crcs := m.crcs + [crc], changed := true)));
      (if |m.crcs| + 1 >= m.peak then Close(c') else c', false)
  }

  // ----- what every run keeps

  /** s is what is left of hist: its end, and at least its last n entries. */
  predicate EndOf(s: seq<word>, hist: seq<word>, n: nat)
  {
    |s| <= |hist| && s == hist[|hist| - |s|..] && (|s| >= n || |s| == |hist|)
  }

  predicate Inv(c: Cache, hist: seq<word>, max: nat)
  {
    match c.mem
    case None => EndOf(c.file, hist, max)
    case Some(m) =>
      EndOf(m.crcs, hist, max) && m.max == max && |m.crcs| < m.peak && m.peak >= max + SPARE && (m.changed || m.crcs == c.file)
  }

  lemma LastIsEnd(s: seq<word>, hist: seq<word>, n: nat)
    requires EndOf(s, hist, n)
    ensures EndOf(LastOf(s, n), hist, n)
  {
    if |s| > n {
      assert hist[|hist| - |s|..][|s| - n..] == hist[|hist| - n..];
    }
  }

  lemma CloseKeeps(c: Cache, hist: seq<word>, max: nat)
    requires Inv(c, hist, max)
    ensures Inv(Close(c), hist, max)
  {
    if c.mem.Some? { LastIsEnd(c.mem.value.crcs, hist, max); }
  }

  lemma MoreIsEnd(s: seq<word>, hist: seq<word>, n: nat, x: word)
    requires EndOf(s, hist, n)
    ensures EndOf(s + [x], hist + [x], n)
  {
    assert (hist + [x])[|hist| - |s|..] == hist[|hist| - |s|..] + [x];
  }

  lemma CheckKeeps(c: Cache, hist: seq<word>, crc: word, max: nat)
    requires Inv(c, hist, max)
    ensures var (c', dup) := Check(c, crc, max); Inv(c', if dup then hist else hist + [crc], max)
  {
    var m := Load(c, max);
    assert Inv(c.(mem := Some(m)), hist, max);
    if crc !in m.crcs {
      var m' := m.(crcs := m.crcs + [crc], changed := true);
      MoreIsEnd(m.crcs, hist, max, crc);
      if |m.crcs| + 1 >= m.peak { LastIsEnd(m'.crcs, hist + [crc], max); }
    }
  }

  lemma InEnd(s: seq<word>, hist: seq<word>, n: nat, x: word)
    requires EndOf(s, hist, n)
    ensures x in LastOf(hist, n) ==> x in s
    ensures x in s ==> x in hist
  {
    var last := LastOf(hist, n);
    LastIsEnd(s, hist, n);
    if x in last {
      var k :| 0 <= k < |last| && last[k] == x;
      InBoth(s, hist, last, k);
    }
    if x in s {
      var k :| 0 <= k < |s| && s[k] == x;
      assert hist[|hist| - |s| + k] == x;
    }
  }

  /** An entry of a shorter end is an entry of a longer one. */
  lemma InBoth(s: seq<word>, hist: seq<word>, last: seq<word>, k: nat)
    requires |last| <= |s| <= |hist| && s == hist[|hist| - |s|..] && last == hist[|hist| - |last|..] && k < |last|
    ensures last[k] in s
  {
    var j := |s| - |last| + k;
    assert s[j] == hist[|hist| - |s| + j];
  }

  datatype Op = CheckOp(crc: word) | CloseOp

  function Run(c: Cache, ops: seq<Op>, max: nat): Cache
  {
    if ops == [] then c
    else
      var b := Run(c, ops[..|ops| - 1], max);
      match ops[|ops| - 1]
      case CloseOp => Close(b)
      case CheckOp(crc) => Check(b, crc, max).0
  }

  /** The values a run accepts as new, in order. */
  function Accepted(c: Cache, ops: seq<Op>, max: nat): seq<word>
  {
    if ops == [] then []
    else
      var init := ops[..|ops| - 1];
      match ops[|ops| - 1]
      case CloseOp => Accepted(c, init, max)
      case CheckOp(crc) =>
        Accepted(c, init, max) + if Check(Run(c, init, max), crc, max).1 then [] else [crc]
  }

  lemma {:induction false} RunKeeps(file: seq<word>, ops: seq<Op>, max: nat)
    ensures var c := Cache(file, None); Inv(Run(c, ops, max), file + Accepted(c, ops, max), max)
  {
    var c := Cache(file, None);
    if ops == [] {
      assert file + [] == file;
    } else {
      var init := ops[..|ops| - 1];
      RunKeeps(file, init, max);
      StepKeeps(Run(c, init, max), file, Accepted(c, init, max), ops[|ops| - 1], max);
    }
  }

  lemma StepKeeps(b: Cache, file: seq<word>, accepted: seq<word>, op: Op, max: nat)
    requires Inv(b, file + accepted, max)
    ensures match op
            case CloseOp => Inv(Close(b), file + accepted, max)
            case CheckOp(crc) =>
              var (c, dup) := Check(b, crc, max); Inv(c, file + (accepted + if dup then [] else [crc]), max)
  {
    match op
    case CloseOp => CloseKeeps(b, file + accepted, max);
    case CheckOp(crc) =>
      CheckKeeps(b, file + accepted, crc, max);
      assert accepted + [] == accepted;
      assert file + accepted + [crc] == file + (accepted + [crc]);
  }

  /** After any run of checks, automatic flushes, closes and reloads, a value among the last max
      that were in the file or accepted is reported, and a value is reported only if it was in
      the file or accepted. */
  lemma Reports(file: seq<word>, ops: seq<Op>, max: nat, crc: word)
    ensures var c := Cache(file, None);
            var hist, dup := file + Accepted(c, ops, max), Check(Run(c, ops, max), crc, max).1;
            (crc in LastOf(hist, max) ==> dup) && (dup ==> crc in hist)
  {
    var c := Cache(file, None);
    var hist := file + Accepted(c, ops, max);
    RunKeeps(file, ops, max);
    InEnd(Load(Run(c, ops, max), max).crcs, hist, max, crc);
  }

  /** Right after a changed cache is closed, exactly the last max values are reported. */
  lemma ReportsAfterClose(file: seq<word>, ops: seq<Op>, max: nat, crc: word)
    requires var m := Run(Cache(file, None), ops, max).mem; m.Some? && m.value.changed
    ensures var c := Cache(file, None);
            Check(Run(c, ops + [CloseOp], max), crc, max).1 <==> crc in LastOf(file + Accepted(c, ops, max), max)
  {
    var c := Cache(file, None);
    var hist := file + Accepted(c, ops, max);
    RunKeeps(file, ops, max);
    var m := Run(c, ops, max).mem.value;
    assert (ops + [CloseOp])[..|ops|] == ops;
    LastIsEnd(m.crcs, hist, max);
    assert LastOf(m.crcs, max) == LastOf(hist, max);
  }

  // ----- the cache in place

  class DupeRec {
    var file: seq<word>
    var crcs: array<word>
    var loaded: bool
    var changed: bool
    var count: nat
    var max: nat
    var peak: nat

    /** While loaded, peak entries are allocated and there is room for at least one more. */
    ghost predicate Valid()
      reads this, crcs
    {
      loaded ==> crcs.Length == peak && count < peak
    }

    ghost function State(): Cache
      reads this, crcs
      requires Valid()
    {
      Cache(file, if loaded then Some(Memory(crcs[..count], changed, max, peak)) else None)
    }

    constructor (file: seq<word>)
      ensures Valid() && State() == Cache(file, None) && fresh(crcs)
    {
      this.file := file;
      crcs := new word[0];
      loaded, changed, count, max, peak := false, false, 0, 0, 0;
    }

    /** Reads the file into a new buffer. */
    method LoadFile(limit: nat)
      requires Valid() && !loaded
      modifies this
      ensures Valid() && loaded && fresh(crcs) && State() == old(State()).(mem := Some(Load(old(State()), limit)))
    {
      var size := |file|;
      if size > limit {
        peak := size + SPARE;
      } else {
        peak := limit + SPARE;
      }
      crcs := new word[peak](_ => 0);
      count := 0;
      while count < |file|
        invariant count <= |file| < peak == crcs.Length && fresh(crcs)
        invariant crcs[..count] == file[..count]
        modifies `count, crcs
      {
        crcs[count] := file[count];
        count := count + 1;
      }
      loaded, changed, max := true, false, limit;
      assert file[..count] == file;
    }

    /** CheckDupe: every store is below the allocated size. */
    method CheckDupe(crc: word, limit: nat) returns (dup: bool)
      requires Valid()
      modifies this, crcs
      ensures Valid() && (State(), dup) == Check(old(State()), crc, limit)
      ensures crcs == old(crcs) || fresh(crcs)
    {
      if !loaded {
        LoadFile(limit);
      }
      for i := 0 to count
        invariant crc !in crcs[..i]
      {
        if crcs[i] == crc {
          return true;
        }
        assert crcs[..i + 1] == crcs[..i] + [crcs[i]];
      }
      ghost var was := crcs[..count];
      crcs[count] := crc;
      count := count + 1;
      assert crcs[..count] == was + [crc];
      changed := true;
      if count >= peak {
        Flush();
      }
      return false;
    }

    /** The part of CloseDdb that writes the file and forgets the buffer. */
    method Flush()
      requires loaded && crcs.Length == peak && count <= peak
      modifies this
      ensures Valid() && State() == Close(Cache(old(file), Some(Memory(old(crcs[..count]), old(changed), old(max), old(peak)))))
      ensures crcs == old(crcs) || fresh(crcs)
    {
      if changed {
        var start := if count > max then count - max else 0;
        file := [];
        for j := start to count
          invariant file == crcs[start..j]
          modifies `file
        {
          file := file + [crcs[j]];
          assert crcs[start..j + 1] == crcs[start..j] + [crcs[j]];
        }
        assert crcs[..count][start..] == crcs[start..count];
      }
      changed, loaded, count, max, peak := false, false, 0, 0, 0;
      crcs := new word[0];
    }

    /** CloseDdb */
    method CloseDdb()
      requires Valid()
      modifies this
      ensures Valid() && State() == Close(old(State()))
      ensures crcs == old(crcs) || fresh(crcs)
    {
      if loaded {
        Flush();
      }
    }
  }

  /** CloseDupes: closes each of the databases. */
  method CloseDupes(dupes: seq<DupeRec>)
    requires forall i, j :: 0 <= i < j < |dupes| ==> dupes[i] != dupes[j] && dupes[i].crcs != dupes[j].crcs
    requires forall i :: 0 <= i < |dupes| ==> dupes[i].Valid()
    modifies dupes
    ensures forall i :: 0 <= i < |dupes| ==> dupes[i].Valid() && dupes[i].State() == Close(old(dupes[i].State()))
  {
    for i := 0 to |dupes|
      invariant forall j :: 0 <= j < i ==> dupes[j].Valid() && dupes[j].State() == Close(old(dupes[j].State()))
      invariant forall j :: i <= j < |dupes| ==> dupes[j].Valid() && dupes[j].State() == old(dupes[j].State())
    {
      dupes[i].CloseDdb();
    }
  }
}
