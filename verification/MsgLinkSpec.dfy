/** Threading by subject, lib/msg.c Msg_Link, on values: which message headers a run visits,
    what it writes in them, and when the result is one chain per subject. */
module MsgLinkSpec {
  import opened Bytes
  import opened JamFormat
  import opened JamStore
  import opened JamBases
  import opened JamHeaders
  import opened JamPackSpec

  /** MSGLINK */
  datatype Slot = Slot(subject: word, number: word)

  /** A subject in upper case, without a leading RE: and one blank after it. */
  function Stripped(s: string): string
  {
    var p := Upper(s);
    if "RE:" <= p then
      var q := p[3..];
      if " " <= q then q[1..] else q
    else p
  }

  function KeyOf(m: MsgBuf, crc: string -> word): word { crc(Stripped(m.subject)) }

  /** What ReadHeader leaves in the message buffer. */
  function Read(recs: seq<Rec>, n: word): MsgBuf
  {
    var i := Find(recs, n);
    if i < 0 then EMPTY_MSG else Loaded(recs[i])
  }

  function SlotAt(recs: seq<Rec>, n: word, crc: string -> word): Slot { Slot(KeyOf(Read(recs, n), crc), n) }

  // ----- the messages a run visits

  /** The undeleted numbers above n, in index order. */
  function Above(recs: seq<Rec>, n: word): (s: seq<word>)
    ensures |s| <= LiveCount(recs)
  {
    if recs == [] then []
    else
      var r := recs[|recs| - 1];
      Above(recs[..|recs| - 1], n) + if r.Live() && r.Num() > n then [r.Num()] else []
  }

  /** From the first record's number, whether deleted or not, and on with Next. */
  function Visits(recs: seq<Rec>): seq<word>
    requires recs != []
  {
    [recs[0].Num()] + Above(recs, recs[0].Num())
  }

  lemma InitOrdered(recs: seq<Rec>)
    requires recs != [] && LiveOrdered(recs)
    ensures LiveOrdered(recs[..|recs| - 1])
  {
    var init := recs[..|recs| - 1];
    forall i, j {:trigger init[i].Num(), init[j].Num()} | 0 <= i < j < |init| && init[i].Live() && init[j].Live()
      ensures init[i].Num() < init[j].Num()
    {
      assert recs[i].Num() < recs[j].Num();
    }
  }

  lemma {:induction false} NoneAbove(recs: seq<Rec>, n: word)
    requires forall i :: 0 <= i < |recs| && recs[i].Live() ==> recs[i].Num() <= n
    ensures Above(recs, n) == []
  {
    if recs != [] {
      NoneAbove(recs[..|recs| - 1], n);
    }
  }

  /** When the last message is the next one above n. */
  lemma LastIsNext(recs: seq<Rec>, n: word, x: word)
    requires recs != [] && LiveOrdered(recs) && LiveAt(recs, |recs| - 1, x) && x > n
    requires forall j :: 0 <= j < |recs| && recs[j].Live() && recs[j].Num() > n ==> recs[j].Num() >= x
    ensures Above(recs, n) == [x] && Above(recs, x) == []
  {
    var init := recs[..|recs| - 1];
    forall j | 0 <= j < |init| && init[j].Live() ensures init[j].Num() <= n {
      assert recs[j].Num() < recs[|recs| - 1].Num();
    }
    NoneAbove(init, n);
    NoneAbove(init, x);
  }

  /** The next undeleted message is the first of those above. */
  lemma {:induction false} NextAbove(recs: seq<Rec>, n: word, i: nat, x: word)
    requires LiveOrdered(recs) && LiveAt(recs, i, x) && x > n
    requires forall j :: 0 <= j < |recs| && recs[j].Live() && recs[j].Num() > n ==> recs[j].Num() >= x
    ensures Above(recs, n) == [x] + Above(recs, x)
  {
    var last := |recs| - 1;
    var init := recs[..last];
    if i == last {
      LastIsNext(recs, n, x);
      assert [x] + [] == [x];
    } else {
      InitOrdered(recs);
      assert LiveAt(init, i, x);
      forall j | 0 <= j < |init| && init[j].Live() && init[j].Num() > n ensures init[j].Num() >= x {
        assert recs[j].Num() >= x;
      }
      NextAbove(init, n, i, x);
      assert recs[last].Live() ==> recs[i].Num() < recs[last].Num();
    }
  }

  /** Numbers above n are undeleted, above n and increasing. */
  lemma {:induction false} AboveIncreases(recs: seq<Rec>, n: word)
    requires LiveOrdered(recs)
    ensures forall t :: 0 <= t < |Above(recs, n)| ==> Above(recs, n)[t] > n && exists i :: LiveAt(recs, i, Above(recs, n)[t])
    ensures forall t, u :: 0 <= t < u < |Above(recs, n)| ==> Above(recs, n)[t] < Above(recs, n)[u]
  {
    if recs != [] {
      var last := |recs| - 1;
      var init := recs[..last];
      InitOrdered(recs);
      AboveIncreases(init, n);
      var s := Above(init, n);
      forall t | 0 <= t < |s|
        ensures exists i :: LiveAt(recs, i, s[t])
        ensures recs[last].Live() ==> s[t] < recs[last].Num()
      {
        var i :| LiveAt(init, i, s[t]);
        assert LiveAt(recs, i, s[t]);
      }
      assert recs[last].Live() ==> LiveAt(recs, last, recs[last].Num());
    }
  }

  lemma VisitsDiffer(recs: seq<Rec>, t: nat, u: nat)
    requires recs != [] && LiveOrdered(recs) && t < |Visits(recs)| && u < |Visits(recs)| && t != u
    ensures Visits(recs)[t] != Visits(recs)[u]
  {
    AboveIncreases(recs, recs[0].Num());
  }

  // ----- the table, and what it says about neighbours

  /** The table after the first pass: total + 1 slots, those of the visits and zeroes. */
  function Table(recs: seq<Rec>, crc: string -> word, visits: seq<word>): (t: seq<Slot>)
    ensures |t| == |visits|
    ensures forall i :: 0 <= i < |visits| ==> t[i] == SlotAt(recs, visits[i], crc)
  {
    seq(|visits|, i requires 0 <= i < |visits| => SlotAt(recs, visits[i], crc))
  }

  function Zeroes(n: nat): seq<Slot> { seq(n, _ => Slot(0, 0)) }

  function Slots(recs: seq<Rec>, crc: string -> word): (t: seq<Slot>)
    requires recs != []
    ensures |t| == LiveCount(recs) + 1
  {
    var v := Visits(recs);
    Table(recs, crc, v) + Zeroes(LiveCount(recs) + 1 - |v|)
  }

  /** The number in the last slot before k with this key, or 0. */
  function LastBefore(table: seq<Slot>, key: word, k: nat): word
    requires k <= |table|
  {
    if k == 0 then 0 else if table[k - 1].subject == key then table[k - 1].number else LastBefore(table, key, k - 1)
  }

  /** The number in the first slot from k up to total with this key, or 0. */
  function FirstFrom(table: seq<Slot>, key: word, k: nat, total: nat): word
    requires total <= |table|
    decreases total - k
  {
    if k >= total then 0 else if table[k].subject == key then table[k].number else FirstFrom(table, key, k + 1, total)
  }

  function PrevOf(table: seq<Slot>, i: nat): word
    requires i < |table|
  {
    LastBefore(table, table[i].subject, if i < |table| - 1 then i else |table| - 1)
  }

  function NextOf(table: seq<Slot>, i: nat): word
    requires i < |table|
  {
    FirstFrom(table, table[i].subject, i + 1, |table| - 1)
  }

  // ----- the second pass

  predicate Changes(recs: seq<Rec>, n: word, prev: word, next: word)
  {
    Read(recs, n).original != prev || Read(recs, n).reply != next
  }

  /** Message n with its two links set, if they were not so already. */
  function Relink(recs: seq<Rec>, n: word, prev: word, next: word): (r: seq<Rec>)
    ensures |r| == |recs|
  {
    var i := Find(recs, n);
    if i < 0 || !Changes(recs, n, prev, next) then recs
    else recs[i := Rec(Rewritten(recs[i].h, Loaded(recs[i]).(original := prev, reply := next)), recs[i].fields)]
  }

  /** After the first t visits of the second pass. */
  function LinkedTo(recs: seq<Rec>, table: seq<Slot>, t: nat): (r: seq<Rec>)
    requires t <= |table|
    ensures |r| == |recs|
  {
    if t == 0 then recs
    else Relink(LinkedTo(recs, table, t - 1), table[t - 1].number, PrevOf(table, t - 1), NextOf(table, t - 1))
  }

  function CountTo(recs: seq<Rec>, table: seq<Slot>, t: nat): nat
    requires t <= |table|
  {
    if t == 0 then 0
    else CountTo(recs, table, t - 1) +
         if Changes(LinkedTo(recs, table, t - 1), table[t - 1].number, PrevOf(table, t - 1), NextOf(table, t - 1)) then 1 else 0
  }

  function Linked(recs: seq<Rec>, crc: string -> word): (r: seq<Rec>)
    ensures |r| == |recs|
  {
    if LiveCount(recs) == 0 then recs
    else LinkedTo(recs, Slots(recs, crc), |Visits(recs)|)
  }

  function LinkCount(recs: seq<Rec>, crc: string -> word): nat
  {
    if LiveCount(recs) == 0 then 0
    else CountTo(recs, Slots(recs, crc), |Visits(recs)|)
  }

  // ----- what linking leaves alone

  /** Number, deleted mark and subfields are those of r. */
  predicate SameMessage(r: Rec, r': Rec) { r'.Num() == r.Num() && r'.Live() == r.Live() && r'.fields == r.fields }

  ghost predicate SameMessages(recs: seq<Rec>, recs': seq<Rec>)
  {
    |recs'| == |recs| && forall i {:trigger recs'[i]} :: 0 <= i < |recs| ==> SameMessage(recs[i], recs'[i])
  }

  lemma {:induction false} ApplyKeeps(m: MsgBuf, fs: seq<Field>)
    ensures var r := ApplyFields(m, fs); r.original == m.original && r.reply == m.reply && r.flags == m.flags && r.id == m.id
  {
    if fs != [] {
      ApplyKeeps(m, fs[..|fs| - 1]);
    }
  }

  lemma LoadedLinks(r: Rec)
    ensures Loaded(r).original == r.h.replyTo && Loaded(r).reply == r.h.replyNext && Loaded(r).flags == KnownFlags(r.h.attribute)
    ensures Loaded(r).id == r.h.msgNum
  {
    ApplyKeeps(MsgBuf(r.h.msgNum, r.h.msgNum, "", "", "", KnownFlags(r.h.attribute), r.h.dateWritten, r.h.dateProcessed,
                      r.h.dateReceived, "", "", r.h.replyNext, r.h.replyTo, 0, 0, "", ""), r.fields);
  }

  /** The subject comes from the subfields alone. */
  lemma {:induction false} SubjectFromFields(m: MsgBuf, m': MsgBuf, fs: seq<Field>)
    requires m.subject == m'.subject
    ensures ApplyFields(m, fs).subject == ApplyFields(m', fs).subject
  {
    if fs != [] {
      SubjectFromFields(m, m', fs[..|fs| - 1]);
    }
  }

  lemma SameSubject(r: Rec, r': Rec)
    requires r.fields == r'.fields
    ensures Loaded(r).subject == Loaded(r').subject
  {
    var m := MsgBuf(r.h.msgNum, r.h.msgNum, "", "", "", KnownFlags(r.h.attribute), r.h.dateWritten, r.h.dateProcessed,
                    r.h.dateReceived, "", "", r.h.replyNext, r.h.replyTo, 0, 0, "", "");
    var m' := MsgBuf(r'.h.msgNum, r'.h.msgNum, "", "", "", KnownFlags(r'.h.attribute), r'.h.dateWritten, r'.h.dateProcessed,
                     r'.h.dateReceived, "", "", r'.h.replyNext, r'.h.replyTo, 0, 0, "", "");
    SubjectFromFields(m, m', r.fields);
  }

  lemma RelinkKeeps(recs: seq<Rec>, n: word, prev: word, next: word)
    ensures SameMessages(recs, Relink(recs, n, prev, next))
  {
    var i := Find(recs, n);
    if i >= 0 {
      LoadedLinks(recs[i]);
    }
  }

  lemma {:induction false} LinkedKeeps(recs: seq<Rec>, table: seq<Slot>, t: nat)
    requires t <= |table|
    ensures SameMessages(recs, LinkedTo(recs, table, t))
    decreases t
  {
    if t > 0 {
      LinkedKeeps(recs, table, t - 1);
      RelinkKeeps(LinkedTo(recs, table, t - 1), table[t - 1].number, PrevOf(table, t - 1), NextOf(table, t - 1));
    }
  }

  /** Threading changes no number, deleted mark or subfield. */
  lemma LinkKeeps(recs: seq<Rec>, crc: string -> word)
    ensures SameMessages(recs, Linked(recs, crc))
  {
    if LiveCount(recs) > 0 {
      LinkedKeeps(recs, Slots(recs, crc), |Visits(recs)|);
    }
  }

  lemma InitSame(recs: seq<Rec>, recs': seq<Rec>)
    requires SameMessages(recs, recs') && recs != []
    ensures SameMessages(recs[..|recs| - 1], recs'[..|recs| - 1])
    ensures SameMessage(recs[|recs| - 1], recs'[|recs| - 1])
  {
    var init, init' := recs[..|recs| - 1], recs'[..|recs| - 1];
    forall i {:trigger init'[i]} | 0 <= i < |init| ensures SameMessage(init[i], init'[i]) {
      assert SameMessage(recs[i], recs'[i]);
    }
  }

  lemma {:induction false} SameNumbers(recs: seq<Rec>, recs': seq<Rec>, n: word)
    requires SameMessages(recs, recs')
    ensures Above(recs', n) == Above(recs, n) && Find(recs', n) == Find(recs, n) && LiveCount(recs') == LiveCount(recs)
    ensures forall i :: LiveAt(recs, i, n) <==> LiveAt(recs', i, n)
    decreases |recs|
  {
    if recs != [] {
      InitSame(recs, recs');
      SameNumbers(recs[..|recs| - 1], recs'[..|recs| - 1], n);
    }
  }

  lemma SameOrder(recs: seq<Rec>, recs': seq<Rec>)
    requires SameMessages(recs, recs') && LiveOrdered(recs)
    ensures LiveOrdered(recs')
  {
    forall i, j {:trigger recs'[i].Num(), recs'[j].Num()} | 0 <= i < j < |recs'| && recs'[i].Live() && recs'[j].Live()
      ensures recs'[i].Num() < recs'[j].Num()
    {
      assert SameMessage(recs[i], recs'[i]) && SameMessage(recs[j], recs'[j]);
      assert recs[i].Num() < recs[j].Num();
    }
  }

  lemma SameSlot(recs: seq<Rec>, recs': seq<Rec>, n: word, crc: string -> word)
    requires SameMessages(recs, recs')
    ensures SlotAt(recs', n, crc) == SlotAt(recs, n, crc)
  {
    SameNumbers(recs, recs', n);
    var i := Find(recs, n);
    if i >= 0 {
      SameSubject(recs[i], recs'[i]);
    }
  }

  /** Linking changes no table a later run would build. */
  lemma SameSlots(recs: seq<Rec>, recs': seq<Rec>, crc: string -> word)
    requires SameMessages(recs, recs') && recs != []
    ensures Visits(recs') == Visits(recs) && Slots(recs', crc) == Slots(recs, crc)
  {
    assert SameMessage(recs[0], recs'[0]);
    SameNumbers(recs, recs', recs[0].Num());
    var v := Visits(recs);
    forall t | 0 <= t < |v| ensures SlotAt(recs', v[t], crc) == SlotAt(recs, v[t], crc) {
      SameSlot(recs, recs', v[t], crc);
    }
    assert Table(recs', crc, v) == Table(recs, crc, v);
  }

  // ----- what linking keeps

  lemma RelinkKeepsInv(s: Store, n: word, prev: word, next: word)
    requires Inv(s)
    ensures Inv(s.(recs := Relink(s.recs, n, prev, next)))
  {
    var i := Find(s.recs, n);
    if i >= 0 && Changes(s.recs, n, prev, next) {
      LoadedLinks(s.recs[i]);
      WriteKeepsInv(s, n, Read(s.recs, n).(original := prev, reply := next));
    }
  }

  lemma {:induction false} LinkedToKeepsInv(s: Store, table: seq<Slot>, t: nat)
    requires Inv(s) && t <= |table|
    ensures Inv(s.(recs := LinkedTo(s.recs, table, t)))
    decreases t
  {
    if t > 0 {
      LinkedToKeepsInv(s, table, t - 1);
      RelinkKeepsInv(s.(recs := LinkedTo(s.recs, table, t - 1)), table[t - 1].number, PrevOf(table, t - 1), NextOf(table, t - 1));
    }
  }

  lemma LinkKeepsInv(s: Store, crc: string -> word)
    requires Inv(s)
    ensures Inv(s.(recs := Linked(s.recs, crc)))
  {
    if LiveCount(s.recs) > 0 {
      LinkedToKeepsInv(s, Slots(s.recs, crc), |Visits(s.recs)|);
    }
  }
}
