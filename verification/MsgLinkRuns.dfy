/** Threading with the real subject key, after any run of operations. */
module MsgLinkRuns {
  import opened Bytes
  import opened JamFormat
  import opened JamStore
  import opened JamPackSpec
  import opened JamBases
  import opened JamHeaders
  import opened JamRuns
  import opened MsgLinkSpec
  import opened MsgLinkChains
  import opened MsgLinkReplies

  /** The first record, if there is one, has number 1. */
  predicate StartsAtOne(s: Store) { |s.recs| > 0 ==> s.recs[0].Num() == 1 }

  /** So it is in every reachable base. */
  lemma RunStartsAtOne(now: word, ops: seq<Op>)
    ensures Inv(Run(New(now), ops)) && StartsAtOne(Run(New(now), ops))
  {
    EveryRunSuccessive(now, ops);
  }

  lemma InvNumbers(s: Store)
    requires Inv(s)
    ensures Numbers(s.recs)
  {
    NumbersOrdered(s);
    var k: nat :| Numbered(s.recs, k);
  }

  /** After every run, threading makes one chain of every subject exactly when message 1 is
      undeleted, or no message has an empty subject's key and the last message is alone with
      its subject. */
  lemma EveryRunThreads(now: word, ops: seq<Op>, crc: string -> word)
    ensures var recs := Run(New(now), ops).recs;
            Threaded(Linked(recs, crc), crc) <==>
            (exists i :: LiveAt(recs, i, 1)) || (NoEmptySubject(recs, crc) && LastAlone(recs, crc))
  {
    RunStartsAtOne(now, ops);
    InvNumbers(Run(New(now), ops));
    if Run(New(now), ops).recs != [] { LinkThreadsExactly(Run(New(now), ops).recs, crc); }
  }

  /** After every run that leaves message 1 undeleted, threading makes an original and its replies
      one chain exactly when no other subject has their CRC. */
  lemma EveryRunChainsReplies(now: word, ops: seq<Op>, crc: string -> word, t: string)
    requires Bare(t) && exists i :: LiveAt(Run(New(now), ops).recs, i, 1)
    ensures var recs := Run(New(now), ops).recs;
            OneChain(Linked(recs, crc), t) <==> NoMember(recs, t) || NoStranger(recs, crc, t)
  {
    RunStartsAtOne(now, ops);
    InvNumbers(Run(New(now), ops));
    LinkChainsReplies(Run(New(now), ops).recs, crc, t);
  }

  /** After every run, threading a second time changes no header; it returns 1 exactly when
      message 1 is not there and an undeleted message other than the last has the key of an
      empty subject, and 0 otherwise. */
  lemma EveryRunSettles(now: word, ops: seq<Op>, crc: string -> word)
    ensures var recs := Run(New(now), ops).recs; var again := Linked(recs, crc);
            && Linked(again, crc) == again
            && LinkCount(again, crc) == if !(exists i :: LiveAt(recs, i, 1)) && EmptyBeforeLast(recs, crc) then 1 else 0
  {
    RunStartsAtOne(now, ops);
    InvNumbers(Run(New(now), ops));
    if Run(New(now), ops).recs != [] { SecondRun(Run(New(now), ops).recs, crc); }
  }

  // ----- a run after which threading goes wrong

  /** Adding n empty messages. */
  function Adds(n: nat): (ops: seq<Op>)
    ensures |ops| == n
  {
    if n == 0 then [] else Adds(n - 1) + [AddOp(EMPTY_MSG, [])]
  }

  predicate Plain(r: Rec, n: word, fs: seq<Field>) { r.Live() && r.Num() == n && r.fields == fs }

  ghost predicate AllPlain(recs: seq<Rec>, fs: seq<Field>)
    requires |recs| < 1000
  {
    forall i {:trigger recs[i]} :: 0 <= i < |recs| ==> Plain(recs[i], i + 1, fs)
  }

  lemma PlainSnoc(recs: seq<Rec>, r: Rec, fs: seq<Field>)
    requires |recs| + 1 < 1000 && AllPlain(recs, fs) && Plain(r, |recs| + 1, fs)
    ensures AllPlain(recs + [r], fs)
  {
  }

  lemma {:induction false} PlainSize(recs: seq<Rec>, fs: seq<Field>)
    requires |recs| < 1000 && AllPlain(recs, fs) && |EncFields(fs)| == 16
    ensures |RecBytes(recs)| == 92 * |recs|
  {
    if recs != [] {
      var init, r := recs[..|recs| - 1], recs[|recs| - 1];
      PlainSize(init, fs);
      SnocSize(init, r);
      assert recs == init + [r] && r.fields == fs;
    }
  }

  /** n undeleted messages without text, numbered from 1, with these subfields. */
  ghost predicate Messages(s: Store, n: nat, fs: seq<Field>)
  {
    n < 1000 && |s.recs| == n && s.info.activeMsgs == n && s.text == "" && AllPlain(s.recs, fs)
  }

  lemma RoomForPlain(s: Store, n: nat, fs: seq<Field>)
    requires Messages(s, n, fs) && |EncFields(fs)| == 16
    ensures Highest(s) == n && CanAddRec(s, EMPTY_MSG, fs, "")
  {
    PlainSize(s.recs, fs);
    assert n > 0 ==> Plain(s.recs[n - 1], n, fs);
  }

  lemma AddPlain(s: Store, n: nat, fs: seq<Field>, r: Rec)
    requires n + 1 < 1000 && Messages(s, n, fs) && Highest(s) == n && r == AddedRec(s, EMPTY_MSG, fs, 0)
    ensures Messages(AddRec(s, EMPTY_MSG, fs, ""), n + 1, fs)
  {
    PlainSnoc(s.recs, r, fs);
  }

  lemma StepAdds(s: Store, n: nat)
    requires n + 1 < 1000 && Messages(s, n, FieldsOf(EMPTY_MSG, []))
    ensures Messages(Step(s, AddOp(EMPTY_MSG, [])), n + 1, FieldsOf(EMPTY_MSG, []))
  {
    var fs := FieldsOf(EMPTY_MSG, []);
    EmptyMessageSize();
    RoomForPlain(s, n, fs);
    AddPlain(s, n, fs, AddedRec(s, EMPTY_MSG, fs, 0));
  }

  lemma {:induction false} AfterAdds(now: word, n: nat)
    requires n < 1000
    ensures Messages(Run(New(now), Adds(n)), n, FieldsOf(EMPTY_MSG, []))
  {
    if n > 0 {
      var s := Run(New(now), Adds(n - 1));
      AfterAdds(now, n - 1);
      StepAdds(s, n - 1);
      assert Run(New(now), Adds(n)) == Step(s, AddOp(EMPTY_MSG, [])) by { RunSnoc(New(now), Adds(n - 1), AddOp(EMPTY_MSG, [])); }
    }
  }

  lemma EmptyKey(r: Rec, crc: string -> word)
    requires r.fields == FieldsOf(EMPTY_MSG, [])
    ensures Key(r, crc) == KeyOf(EMPTY_MSG, crc)
  {
    var a, b := Field(SFLD_SENDERNAME, ""), Field(SFLD_SUBJECT, "");
    assert r.fields == [a, b] && [a, b][..1] == [a] && [a][..0] == [];
  }

  lemma FirstDeleted(s: Store, n: nat, fs: seq<Field>)
    requires 1 <= n && Messages(s, n, fs)
    ensures var t := Delete(s, 1);
            |t.recs| == n && !t.recs[0].Live() && forall i :: 1 <= i < n ==> Plain(t.recs[i], i + 1, fs)
  {
    assert Plain(s.recs[0], 1, fs) && LiveAt(s.recs, 0, 1);
    forall i | 1 <= i < n ensures !LiveAt(s.recs, i, 1) { assert Plain(s.recs[i], i + 1, fs); }
  }

  lemma OneGone(recs: seq<Rec>)
    requires |recs| == 3 && !recs[0].Live() && recs[1].Num() == 2 && recs[2].Num() == 3
    ensures !(exists i :: LiveAt(recs, i, 1))
  {
    forall i ensures !LiveAt(recs, i, 1) {}
  }

  lemma SecondEmpty(recs: seq<Rec>, crc: string -> word)
    requires |recs| == 3 && recs[1].Live() && recs[2].Live() && Key(recs[1], crc) == KeyOf(EMPTY_MSG, crc)
    ensures !NoEmptySubject(recs, crc) && EmptyBeforeLast(recs, crc)
  {
    var j := 2;
    assert 1 < j < |recs| && recs[j].Live();
    assert !LastLive(recs, 1);
  }

  /** Three messages without subjects, the first deleted: threading does not make chains of them,
      and a second run counts a change. */
  lemma DeletedFirstMisleads(now: word, crc: string -> word)
    ensures var recs := Run(New(now), Adds(3) + [DeleteOp(1)]).recs;
            !Threaded(Linked(recs, crc), crc) && LinkCount(Linked(recs, crc), crc) == 1
  {
    var ops := Adds(3) + [DeleteOp(1)];
    AfterAdds(now, 3);
    RunSnoc(New(now), Adds(3), DeleteOp(1));
    FirstDeleted(Run(New(now), Adds(3)), 3, FieldsOf(EMPTY_MSG, []));
    var recs := Run(New(now), ops).recs;
    assert Plain(recs[1], 2, FieldsOf(EMPTY_MSG, [])) && Plain(recs[2], 3, FieldsOf(EMPTY_MSG, []));
    OneGone(recs);
    EmptyKey(recs[1], crc);
    SecondEmpty(recs, crc);
    EveryRunThreads(now, ops, crc);
    EveryRunSettles(now, ops, crc);
  }
}

/** The subject key of lib/msg.c: StringCRC32. */
module MsgLinkCrc {
  import opened Bytes
  import opened JamFormat
  import opened JamBases
  import opened JamHeaders
  import opened JamStore
  import Crc32
  import Crc32Changes
  import CrcTheory
  import S = Crc32Steps
  import W = Crc32Words
  import MsgLinkSpec
  import MsgLinking
  import opened MsgLinkChains
  import opened MsgLinkReplies

  /** The bytes of a string. */
  function ToBytes(s: string): CrcTheory.bytes
  {
    if s == "" then [] else [(s[0] as int % 256) as bv8] + ToBytes(s[1..])
  }

  function StringCRC32(s: string): word { Crc32.Crc(0xffff_ffff, CrcTheory.CString(ToBytes(s))) as int }

  /** Of every subject the original and its replies are one chain in after, exactly when no other
      subject has their CRC. */
  ghost predicate ChainsReplies(before: seq<Rec>, after: seq<Rec>)
  {
    forall t :: Bare(t) ==> (OneChain(after, t) <==> NoMember(before, t) || NoStranger(before, StringCRC32, t))
  }

  lemma AllChained(recs: seq<Rec>)
    requires Numbers(recs) && StartsLive(recs)
    ensures ChainsReplies(recs, MsgLinkSpec.Linked(recs, StringCRC32))
  {
    forall t | Bare(t)
      ensures OneChain(MsgLinkSpec.Linked(recs, StringCRC32), t) <==> NoMember(recs, t) || NoStranger(recs, StringCRC32, t)
    {
      LinkChainsReplies(recs, StringCRC32, t);
    }
  }

  /** Msg_Link: what it leaves is linked by the CRCs of the stripped subjects. */
  method MsgLink(b: JamBase) returns (n: nat)
    requires b.Valid()
    modifies b
    ensures b.Valid()
    ensures b.Base() == old(b.Base()).(recs := MsgLinkSpec.Linked(old(b.recs), StringCRC32))
    ensures n == MsgLinkSpec.LinkCount(old(b.recs), StringCRC32)
    ensures Numbers(old(b.recs)) && StartsLive(old(b.recs)) ==> Threaded(b.recs, StringCRC32)
    ensures Numbers(old(b.recs)) && StartsLive(old(b.recs)) ==> ChainsReplies(old(b.recs), b.recs)
    ensures Numbers(old(b.recs)) && StartsLive(old(b.recs)) ==> n == |Changed(old(b.recs), b.recs)|
  {
    n := MsgLinking.Link(b, StringCRC32);
    if Numbers(old(b.recs)) && StartsLive(old(b.recs)) {
      LinkThreads(old(b.recs), StringCRC32);
      CountIsChanged(old(b.recs), StringCRC32);
      AllChained(old(b.recs));
    }
  }

  /** Two runs in a row: the second writes nothing, and what it returns. */
  method LinkTwice(b: JamBase) returns (n: nat, again: nat)
    requires b.Valid()
    modifies b
    ensures b.Valid() && b.Base() == old(b.Base()).(recs := MsgLinkSpec.Linked(old(b.recs), StringCRC32))
    ensures Numbers(old(b.recs)) && LowestFirst(old(b.recs)) ==>
            again == if !FirstFound(old(b.recs)) && EmptyBeforeLast(old(b.recs), StringCRC32) then 1 else 0
  {
    b.ValidIsNavigable();
    SecondRunCount(b.recs, StringCRC32);
    if Numbers(b.recs) && LowestFirst(b.recs) { SecondRun(b.recs, StringCRC32); }
    n := MsgLink(b);
    again := MsgLink(b);
  }

  // ----- a reply to a reply

  /** The register that the next byte makes of c is r. */
  predicate Next(c: bv32, b: bv8, r: bv32)
  {
    S.Step(S.Step(S.Step(S.Step(S.Step(S.Step(S.Step(S.Step(W.Mix(c, b))))))))) == r
  }

  lemma OneByte(c: bv32, s: CrcTheory.bytes, x: bv32, b: bv8, r: bv32, t: CrcTheory.bytes)
    requires Crc32.Crc(c, s) == x && Next(x, b, r) && t == s + [b]
    ensures Crc32.Crc(c, t) == r
  {
    assert t[..|t| - 1] == s;
  }

  lemma MarkSteps()
    ensures Next(0xffff_ffff, 82, 0xa89820aa) && Next(0xa89820aa, 69, 0x301d67c9)
    ensures Next(0x301d67c9, 58, 0x2484bec1) && Next(0x2484bec1, 32, 0xd7295650)
  {
  }

  const MARK: CrcTheory.bytes := [82, 69, 58]

  const MARK_BLANK: CrcTheory.bytes := [82, 69, 58, 32]

  lemma MarkRegister()
    ensures Crc32.Crc(0xffff_ffff, MARK) == 0x2484bec1
    ensures Crc32.Crc(0xffff_ffff, MARK_BLANK) == 0xd7295650
  {
    MarkSteps();
    OneByte(0xffff_ffff, [], 0xffff_ffff, 82, 0xa89820aa, [82]);
    OneByte(0xffff_ffff, [82], 0xa89820aa, 69, 0x301d67c9, [82, 69]);
    OneByte(0xffff_ffff, [82, 69], 0x301d67c9, 58, 0x2484bec1, MARK);
    OneByte(0xffff_ffff, MARK, 0x2484bec1, 32, 0xd7295650, MARK_BLANK);
  }

  /** Bytes that change the register matter in front of any others. */
  lemma FrontMatters(p: CrcTheory.bytes, s: CrcTheory.bytes, r: bv32)
    requires Crc32.Crc(0xffff_ffff, p) == r != 0xffff_ffff
    ensures Crc32.Crc(0xffff_ffff, p + s) != Crc32.Crc(0xffff_ffff, s)
  {
    CrcTheory.Chunks(CrcTheory.Eight(S.Step), W.Mix, 0xffff_ffff, p, s);
    Crc32Changes.RegisterSeen(r, 0xffff_ffff, s);
  }

  lemma BackAgain(x: bv32) ensures x as int as bv32 == x {}

  lemma NumbersDiffer(x: bv32, y: bv32)
    requires x != y
    ensures x as int != y as int
  {
    BackAgain(x);
    BackAgain(y);
  }

  lemma ByteR() ensures ('R' as int % 256) as bv8 == 82 {}

  lemma ByteE() ensures ('E' as int % 256) as bv8 == 69 {}

  lemma ByteColon() ensures (':' as int % 256) as bv8 == 58 {}

  lemma ByteBlank() ensures (' ' as int % 256) as bv8 == 32 {}

  lemma NextByte(ch: char, b: bv8, t: string)
    requires (ch as int % 256) as bv8 == b && b != 0
    ensures CrcTheory.CString(ToBytes([ch] + t)) == [b] + CrcTheory.CString(ToBytes(t))
  {
    assert ([ch] + t)[1..] == t;
    assert ([b] + ToBytes(t))[1..] == ToBytes(t);
  }

  lemma MarkedBytes(t: string)
    ensures CrcTheory.CString(ToBytes("RE:" + t)) == MARK + CrcTheory.CString(ToBytes(t))
  {
    var rest := CrcTheory.CString(ToBytes(t));
    ByteR();
    ByteE();
    ByteColon();
    NextByte(':', 58, t);
    NextByte('E', 69, ":" + t);
    NextByte('R', 82, "E" + (":" + t));
    assert "RE:" + t == "R" + ("E" + (":" + t)) && [82] + ([69] + ([58] + rest)) == MARK + rest;
  }

  lemma BlankBytes(t: string)
    ensures CrcTheory.CString(ToBytes(" " + t)) == [32] + CrcTheory.CString(ToBytes(t))
  {
    ByteBlank();
    NextByte(' ', 32, t);
  }

  lemma FrontKey(p: CrcTheory.bytes, r: bv32, s: string, t: string)
    requires Crc32.Crc(0xffff_ffff, p) == r != 0xffff_ffff
    requires CrcTheory.CString(ToBytes(s)) == p + CrcTheory.CString(ToBytes(t))
    ensures StringCRC32(s) != StringCRC32(t)
  {
    FrontMatters(p, CrcTheory.CString(ToBytes(t)), r);
    NumbersDiffer(Crc32.Crc(0xffff_ffff, CrcTheory.CString(ToBytes(s))), Crc32.Crc(0xffff_ffff, CrcTheory.CString(ToBytes(t))));
  }

  lemma MarkBlankBytes(t: string)
    ensures CrcTheory.CString(ToBytes("RE:" + (" " + t))) == MARK_BLANK + CrcTheory.CString(ToBytes(t))
  {
    MarkedBytes(" " + t);
    BlankBytes(t);
    Grouped(MARK, [32], CrcTheory.CString(ToBytes(t)), MARK_BLANK);
  }

  lemma Grouped(a: CrcTheory.bytes, b: CrcTheory.bytes, c: CrcTheory.bytes, ab: CrcTheory.bytes)
    requires ab == a + b
    ensures a + (b + c) == ab + c
  {
  }

  /** A reply mark in front of a text always changes its CRC. */
  lemma MarkMatters(t: string)
    ensures StringCRC32("RE:" + t) != StringCRC32(t) && StringCRC32("RE:" + (" " + t)) != StringCRC32(t)
  {
    MarkRegister();
    MarkedBytes(t);
    MarkBlankBytes(t);
    FrontKey(MARK, 0x2484bec1, "RE:" + t, t);
    FrontKey(MARK_BLANK, 0xd7295650, "RE:" + (" " + t), t);
  }

  lemma UpperMarked(t: string)
    requires ReMark(t)
    ensures Upper(t) == "RE:" + Upper(t[3..])
    ensures LeadingBlank(t[3..]) ==> Upper(t) == "RE:" + (" " + Upper(t[4..]))
  {
    MarkUpper(t);
    assert Upper(t)[..3] == "RE:" && Upper(t) == Upper(t)[..3] + Upper(t)[3..];
    BlankUpper(t[3..]);
    if LeadingBlank(t[3..]) {
      assert t[3..][1..] == t[4..];
      assert Upper(t[3..]) == Upper(t[3..])[..1] + Upper(t[3..])[1..];
    }
  }

  /** With StringCRC32 a reply threads with t exactly when t is no reply itself. */
  lemma ReplyThreadsWith(re: string, t: string, original: MsgBuf, reply: MsgBuf)
    requires ReMark(re) && |re| == 3 && !LeadingBlank(t)
    requires original.subject == t && (reply.subject == re + t || reply.subject == re + " " + t)
    ensures MsgLinkSpec.KeyOf(original, StringCRC32) == MsgLinkSpec.KeyOf(reply, StringCRC32) <==> !ReMark(t)
  {
    MarkedSubject(re, t, reply, StringCRC32);
    KeyCases(original, StringCRC32);
    if ReMark(t) {
      UpperMarked(t);
      MarkMatters(Upper(t[3..]));
      if LeadingBlank(t[3..]) { MarkMatters(Upper(t[4..])); }
    }
  }

  lemma NestedIsMarked()
    ensures ReMark("Re: Hello") && !LeadingBlank("Re: Hello") && ReMark("Re:")
  {
  }

  /** "Re: Re: Hello" does not thread with "Re: Hello". */
  lemma NestedReply(original: MsgBuf, reply: MsgBuf)
    requires original.subject == "Re: Hello" && reply.subject == "Re:" + " " + original.subject
    ensures MsgLinkSpec.KeyOf(original, StringCRC32) != MsgLinkSpec.KeyOf(reply, StringCRC32)
  {
    NestedIsMarked();
    ReplyThreadsWith("Re:", original.subject, original, reply);
  }
}
