/** Every run of operations on a message base. */
module JamRuns {
  import opened Bytes
  import opened JamFormat
  import opened JamText
  import opened JamStore
  import opened JamPackSpec
  import opened JamPointers
  import opened JamBases
  import opened JamHeaders
  import opened MsgLinkSpec

  datatype Op =
    | AddOp(m: MsgBuf, lines: seq<string>)
    | DeleteOp(n: word)
    | WriteOp(n: word, m: MsgBuf)
    | ReadsOp(lastReads: seq<LastRead>)
    | PackOp(users: Option<seq<word>>)
    | LinkOp(crc: string -> word)

  /** What an operation does; an addition or header write its caller may not ask for does nothing. */
  function Step(s: Store, op: Op): Store
  {
    match op
    case AddOp(m, lines) => if CanAdd(s, m, lines) then Add(s, m, lines) else s
    case DeleteOp(n) => Delete(s, n)
    case WriteOp(n, m) => if m.flags < MSG_DELETED then Write(s, n, m) else s
    case ReadsOp(lrs) => s.(lastReads := lrs)
    case PackOp(users) => Pack(s, users)
    case LinkOp(crc) => s.(recs := Linked(s.recs, crc))
  }

  function Run(s: Store, ops: seq<Op>): Store
  {
    if ops == [] then s else Step(Run(s, ops[..|ops| - 1]), ops[|ops| - 1])
  }

  /** A base just created. */
  function New(now: word): Store { Store(NewInfo(now), [], "", []) }

  lemma NewInv(now: word)
    ensures Inv(New(now))
  {
    EmptyBase(now);
  }

  lemma ReadsKeepInv(s: Store, lrs: seq<LastRead>)
    requires Inv(s)
    ensures Inv(s.(lastReads := lrs))
  {
  }

  lemma AddStepKeepsInv(s: Store, m: MsgBuf, lines: seq<string>)
    requires Inv(s)
    ensures Inv(Step(s, AddOp(m, lines)))
  {
    if CanAdd(s, m, lines) { AddKeepsInv(s, m, lines); }
  }

  lemma WriteStepKeepsInv(s: Store, n: word, m: MsgBuf)
    requires Inv(s)
    ensures Inv(Step(s, WriteOp(n, m)))
  {
    if m.flags < MSG_DELETED { WriteKeepsInv(s, n, m); }
  }

  /** Every operation keeps the invariant. */
  lemma StepKeepsInv(s: Store, op: Op)
    requires Inv(s)
    ensures Inv(Step(s, op))
  {
    match op
    case AddOp(m, lines) => AddStepKeepsInv(s, m, lines);
    case DeleteOp(n) => DeleteKeepsInv(s, n);
    case WriteOp(n, m) => WriteStepKeepsInv(s, n, m);
    case ReadsOp(lrs) => ReadsKeepInv(s, lrs);
    case PackOp(users) => PackKeepsInv(s, users);
    case LinkOp(crc) => LinkKeepsInv(s, crc);
  }

  lemma {:induction false} RunKeepsInv(s: Store, ops: seq<Op>)
    requires Inv(s)
    ensures Inv(Run(s, ops))
  {
    if ops != [] {
      RunKeepsInv(s, ops[..|ops| - 1]);
      StepKeepsInv(Run(s, ops[..|ops| - 1]), ops[|ops| - 1]);
    }
  }

  lemma InvMeans(s: Store)
    requires Inv(s)
    ensures s.info.activeMsgs == LiveCount(s.recs)
    ensures forall i, j :: 0 <= i < j < |s.recs| && s.recs[i].Live() && s.recs[j].Live() ==> s.recs[i].Num() < s.recs[j].Num()
    ensures forall i :: 0 <= i < |s.recs| && s.recs[i].Live() ==> s.recs[i].Num() <= Highest(s)
  {
    NumbersOrdered(s);
    if s.info.activeMsgs == 0 {
      NoneLive(s.recs);
    }
  }

  /** After every run on a new base: the count of active messages is right, undeleted numbers
      increase in index order, and while any message is active the last record has the highest. */
  lemma EveryRun(now: word, ops: seq<Op>, s: Store)
    requires s == Run(New(now), ops)
    ensures s.info.activeMsgs == LiveCount(s.recs)
    ensures forall i, j :: 0 <= i < j < |s.recs| && s.recs[i].Live() && s.recs[j].Live() ==> s.recs[i].Num() < s.recs[j].Num()
    ensures forall i :: 0 <= i < |s.recs| && s.recs[i].Live() ==> s.recs[i].Num() <= Highest(s)
  {
    NewInv(now);
    RunKeepsInv(New(now), ops);
    InvMeans(s);
  }

  /** After every run, a last-read pointer to an undeleted message follows it through packing
      exactly when no left-over of an earlier numbering bears its number too. */
  lemma EveryPointer(now: word, ops: seq<Op>, i: nat)
    requires i < |Run(New(now), ops).recs| && Run(New(now), ops).recs[i].Live()
    ensures var s := Run(New(now), ops);
            Remap(s.recs, s.recs[i].Num()) == LiveCount(s.recs[..i]) + 1 <==>
            forall j :: 0 <= j < i ==> s.recs[j].Num() != s.recs[i].Num()
  {
    NewInv(now);
    RunKeepsInv(New(now), ops);
    PointerToLiveMessage(Run(New(now), ops), i);
  }

  // ----- the order of pointers

  lemma SameNumbersSuccessive(recs: seq<Rec>, recs': seq<Rec>)
    requires Successive(recs) && |recs'| == |recs| && forall i :: 0 <= i < |recs| ==> recs'[i].Num() == recs[i].Num()
    ensures Successive(recs')
  {
  }

  lemma AddedSuccessive(s: Store, r: Rec)
    requires Inv(s) && Successive(s.recs) && r.Num() == Highest(s) + 1
    ensures Successive(s.recs + [r])
  {
    if s.recs != [] && s.info.activeMsgs == 0 { assert r.Num() == 1; }
  }

  lemma PackedSuccessive(recs: seq<Rec>, text: string)
    requires LiveCount(recs) < 0x1_0000_0000
    ensures Successive(PackedRecs(recs, text))
  {
    var out := PackedRecs(recs, text);
    forall t | 0 <= t < |out| ensures out[t].Num() == t + 1 { PackedAt(recs, text, t); }
  }

  lemma AddSuccessive(s: Store, m: MsgBuf, lines: seq<string>)
    requires Inv(s) && Successive(s.recs) && CanAdd(s, m, lines)
    ensures Successive(Add(s, m, lines).recs)
  {
    AddedSuccessive(s, AddedRec(s, m, FieldsOf(m, lines), |BodyText(lines)|));
  }

  lemma PackSuccessive(s: Store, users: Option<seq<word>>)
    requires Inv(s)
    ensures Successive(Pack(s, users).recs)
  {
    RecordsFew(s);
    PackedSuccessive(s.recs, s.text);
  }

  lemma LinkedSuccessive(recs: seq<Rec>, crc: string -> word)
    requires Successive(recs)
    ensures Successive(Linked(recs, crc))
  {
    var out := Linked(recs, crc);
    LinkKeeps(recs, crc);
    forall i | 0 <= i < |recs| ensures out[i].Num() == recs[i].Num() { assert SameMessage(recs[i], out[i]); }
    SameNumbersSuccessive(recs, out);
  }

  lemma StepSuccessive(s: Store, op: Op)
    requires Inv(s) && Successive(s.recs)
    ensures Successive(Step(s, op).recs)
  {
    match op
    case AddOp(m, lines) => if CanAdd(s, m, lines) { AddSuccessive(s, m, lines); }
    case DeleteOp(n) => SameNumbersSuccessive(s.recs, Delete(s, n).recs);
    case WriteOp(n, m) => SameNumbersSuccessive(s.recs, Write(s, n, m).recs);
    case ReadsOp(lrs) =>
    case PackOp(users) => PackSuccessive(s, users);
    case LinkOp(crc) => LinkedSuccessive(s.recs, crc);
  }

  /** In every reachable base numbers run on from record to record, or start again at 1. */
  lemma {:induction false} EveryRunSuccessive(now: word, ops: seq<Op>)
    ensures Inv(Run(New(now), ops)) && Successive(Run(New(now), ops).recs)
  {
    NewInv(now);
    RunKeepsInv(New(now), ops);
    if ops != [] {
      EveryRunSuccessive(now, ops[..|ops| - 1]);
      StepSuccessive(Run(New(now), ops[..|ops| - 1]), ops[|ops| - 1]);
    }
  }

  /** After every run, restarts of the numbering included, packing keeps the order of pointers
      that name records. */
  lemma EveryRunKeepsOrder(now: word, ops: seq<Op>, u: word, v: word)
    requires var s := Run(New(now), ops); First(s.recs, u) >= 0 && First(s.recs, v) >= 0
    requires u <= v
    ensures var s := Run(New(now), ops); Remap(s.recs, u) <= Remap(s.recs, v)
  {
    EveryRunSuccessive(now, ops);
    SuccessiveKeepOrder(Run(New(now), ops), u, v);
  }

  // ----- a run after which a pointer is misled

  /** Adding to an empty base, deleting what was added and adding again. */
  lemma AddDeleteAdd(s: Store, m: MsgBuf, fs: seq<Field>, body: string)
    requires s.recs == [] && s.info.activeMsgs == 0 && m.flags < MSG_DELETED
    ensures var b := AddRec(s, m, fs, body); var c := Delete(b, 1); var e := AddRec(c, m, fs, body);
            && |c.recs| == 1 && c.recs[0].fields == fs && |c.text| == |s.text| + |body| && c.info.activeMsgs == 0
            && |e.recs| == 2 && !e.recs[0].Live() && e.recs[1].Live() && e.recs[0].Num() == e.recs[1].Num() == 1
  {
    var b := AddRec(s, m, fs, body);
    assert b.recs == [AddedRec(s, m, fs, |body|)];
    assert Find(b.recs, 1) == 0;
  }

  lemma MisledPointer(recs: seq<Rec>)
    requires |recs| == 2 && !recs[0].Live() && recs[1].Live() && recs[0].Num() == recs[1].Num() == 1
    ensures Remap(recs, 1) == 0
  {
    var dead := recs[..1];
    assert dead[..0] == [];
    assert LiveCount(dead) == 0;
    assert Remap(dead, 1) == 0;
  }

  lemma EmptyMessageSize()
    ensures |EncFields(FieldsOf(EMPTY_MSG, []))| == 16 && BodyText([]) == ""
  {
    var a, b := Field(SFLD_SENDERNAME, ""), Field(SFLD_SUBJECT, "");
    assert FieldsOf(EMPTY_MSG, []) == [a] + [b];
    EncFieldsConcat([a], [b]);
    OneField(a);
    OneField(b);
  }

  lemma RunSnoc(s: Store, ops: seq<Op>, op: Op)
    ensures Run(s, ops + [op]) == Step(Run(s, ops), op)
  {
    assert (ops + [op])[..|ops|] == ops;
  }

  lemma RunThree(s: Store, a: Op, b: Op, c: Op)
    ensures Run(s, [a, b, c]) == Step(Step(Step(s, a), b), c)
  {
    RunSnoc(s, [], a);
    RunSnoc(s, [a], b);
    RunSnoc(s, [a, b], c);
    assert [] + [a] == [a] && [a] + [b] == [a, b] && [a, b] + [c] == [a, b, c];
  }

  lemma RoomFor(s: Store, fs: seq<Field>)
    requires |EncFields(fs)| == 16 && s.text == "" && s.info.activeMsgs == 0
    requires s.recs == [] || (|s.recs| == 1 && s.recs[0].fields == fs)
    ensures CanAddRec(s, EMPTY_MSG, fs, "")
  {
    if s.recs != [] {
      SnocSize([], s.recs[0]);
      assert [] + [s.recs[0]] == s.recs;
    }
  }

  lemma RoomForTwo(now: word)
    ensures var s := New(now);
            CanAdd(s, EMPTY_MSG, []) && CanAdd(Delete(Add(s, EMPTY_MSG, []), 1), EMPTY_MSG, [])
  {
    var fs := FieldsOf(EMPTY_MSG, []);
    EmptyMessageSize();
    RoomFor(New(now), fs);
    AddDeleteAdd(New(now), EMPTY_MSG, fs, "");
    RoomFor(Delete(AddRec(New(now), EMPTY_MSG, fs, ""), 1), fs);
  }

  /** The condition is needed: add a message, delete it, add another.  The new message has
      number 1 and is undeleted, but packing takes a pointer to it back to 0. */
  lemma RestartMisleadsPointer(now: word)
    ensures var s := Run(New(now), [AddOp(EMPTY_MSG, []), DeleteOp(1), AddOp(EMPTY_MSG, [])]);
            |s.recs| == 2 && s.recs[1].Live() && s.recs[1].Num() == 1 && Remap(s.recs, 1) == 0
  {
    RoomForTwo(now);
    RunThree(New(now), AddOp(EMPTY_MSG, []), DeleteOp(1), AddOp(EMPTY_MSG, []));
    AddDeleteAdd(New(now), EMPTY_MSG, FieldsOf(EMPTY_MSG, []), BodyText([]));
    MisledPointer(Run(New(now), [AddOp(EMPTY_MSG, []), DeleteOp(1), AddOp(EMPTY_MSG, [])]).recs);
  }
}
