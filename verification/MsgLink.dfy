/** Msg_Link of lib/msg.c on the open base: two passes over the messages and a table. */
module MsgLinking {
  import opened Bytes
  import opened JamFormat
  import opened JamStore
  import opened JamBases
  import opened JamHeaders
  import opened JamPackSpec
  import opened MsgLinkSpec

  lemma ReadRight(b: JamBase, n: word, i: int)
    requires LiveOrdered(b.recs)
    ensures LiveAt(b.recs, i, n) ==> Read(b.recs, n) == Loaded(b.recs[i])
    ensures (forall j :: !LiveAt(b.recs, j, n)) ==> Read(b.recs, n) == EMPTY_MSG
  {
    if LiveAt(b.recs, i, n) { FindUnique(b.recs, i, n); }
  }

  /** Reads message n, or clears the message buffer if there is none. */
  method Load(b: JamBase, n: word) returns (found: bool)
    requires b.Navigable() && b.jdxPos <= |b.jdx|
    modifies b`jdxPos, b`jamHdr, b`msg, b`lines
    ensures b.jdxPos <= |b.jdx|
    ensures b.msg == Read(b.recs, n)
    ensures found <==> Find(b.recs, n) >= 0
  {
    found := b.ReadHeader(n);
    ReadRight(b, n, b.jdxPos - 1);
  }

  /** Names a round of a pass where a proof needs what is said of that round. */
  predicate Round(i: nat) { true }

  /** The walk stands at visit i - 1 of v and those after it are still to come. */
  ghost predicate At(v: seq<word>, recs: seq<Rec>, i: nat, number: word)
  {
    && 1 <= i <= |v| && number == v[i - 1]
    && forall k: nat {:trigger Round(k)} :: Round(k) && k == i ==> v[k..] == Above(recs, number)
  }

  lemma StartAt(recs: seq<Rec>)
    requires recs != []
    ensures At(Visits(recs), recs, 1, recs[0].Num())
  {
    assert Visits(recs)[1..] == Above(recs, recs[0].Num());
  }

  lemma MoveOn(v: seq<word>, recs: seq<Rec>, i: nat, n: word, next: word, at: nat)
    requires At(v, recs, i, n) && LiveOrdered(recs) && LiveAt(recs, at, next) && next > n
    requires forall j :: 0 <= j < |recs| && recs[j].Live() && recs[j].Num() > n ==> recs[j].Num() >= next
    ensures At(v, recs, i + 1, next)
  {
    NextAbove(recs, n, at, next);
    assert Round(i);
    assert v[i..][1..] == v[i + 1..] && v[i..][0] == v[i];
  }

  lemma AtEnd(v: seq<word>, recs: seq<Rec>, i: nat, n: word)
    requires At(v, recs, i, n) && forall j :: 0 <= j < |recs| && recs[j].Live() ==> recs[j].Num() <= n
    ensures i == |v|
  {
    NoneAbove(recs, n);
    assert Round(i);
  }

  /** Moves to the next message, if there is one. */
  method Advance(b: JamBase, number: word, ghost v: seq<word>, ghost i: nat) returns (more: bool, next: word)
    requires b.Navigable() && b.jdxPos <= |b.jdx| && At(v, b.recs, i, number)
    modifies b`jdxPos, b`jamHdr, b`msg
    ensures b.jdxPos <= |b.jdx|
    ensures if more then At(v, b.recs, i + 1, next) else i == |v|
  {
    more, next := b.Next(number);
    if more {
      MoveOn(v, b.recs, i, number, next, b.jdxPos - 1);
    } else {
      AtEnd(v, b.recs, i, number);
    }
  }

  lemma {:induction false} UpperAt(s: string, k: nat)
    requires k < |s|
    ensures Upper(s)[k] == ToUpper(s[k])
  {
    if k > 0 { UpperAt(s[1..], k - 1); }
  }

  /** strupr */
  method StrUpr(s: array<char>)
    modifies s
    ensures s[..] == Upper(old(s[..]))
  {
    for p := 0 to s.Length
      invariant forall k :: 0 <= k < p ==> s[k] == ToUpper(old(s[k]))
      invariant forall k :: p <= k < s.Length ==> s[k] == old(s[k])
    {
      s[p] := ToUpper(s[p]);
    }
    forall k | 0 <= k < s.Length ensures s[k] == Upper(old(s[..]))[k] { UpperAt(old(s[..]), k); }
  }

  /** The subject in upper case without RE:, and its CRC. */
  method SubjectKey(subject: string, crc: string -> word) returns (key: word)
    ensures key == crc(Stripped(subject))
  {
    var temp := new char[|subject|](i requires 0 <= i < |subject| => subject[i]);
    assert temp[..] == subject;
    StrUpr(temp);
    var p := temp[..];
    if "RE:" <= p {
      p := p[3..];
      if " " <= p {
        p := p[1..];
      }
    }
    key := crc(p);
  }

  lemma TableStep(recs: seq<Rec>, crc: string -> word, i: nat)
    requires recs != [] && i < |Visits(recs)|
    ensures i < |Slots(recs, crc)| && Slots(recs, crc)[i] == SlotAt(recs, Visits(recs)[i], crc)
  {
  }

  lemma TableRoom(recs: seq<Rec>, crc: string -> word)
    requires recs != []
    ensures |Visits(recs)| <= |Slots(recs, crc)| && Slots(recs, crc) == Filled(Slots(recs, crc), |Visits(recs)|)
  {
  }

  /** The first i slots of a table, then zeroes. */
  function Filled(table: seq<Slot>, i: nat): seq<Slot>
    requires i <= |table|
  {
    table[..i] + Zeroes(|table| - i)
  }

  lemma FillNext(table: seq<Slot>, i: nat)
    requires i < |table|
    ensures Filled(table, i)[i := table[i]] == Filled(table, i + 1)
  {
  }

  /** One step of the first pass. */
  method FillSlot(b: JamBase, link: array<Slot>, i: nat, number: word, crc: string -> word)
    requires b.Navigable() && b.jdxPos <= |b.jdx| && i < link.Length
    modifies link, b`jdxPos, b`jamHdr, b`msg, b`lines
    ensures b.jdxPos <= |b.jdx| && link[..] == old(link[..])[i := SlotAt(b.recs, number, crc)]
  {
    var found := Load(b, number);
    var key := SubjectKey(b.msg.subject, crc);
    link[i] := Slot(key, number);
  }

  /** First pass: fills the table. */
  method FillTable(b: JamBase, link: array<Slot>, crc: string -> word, ghost table: seq<Slot>)
    requires b.Navigable() && b.jdxPos <= |b.jdx| && b.jamHdrInfo.activeMsgs > 0 && b.recs != []
    requires table == Slots(b.recs, crc) && link[..] == Filled(table, 0)
    modifies link, b`jdxPos, b`jamHdr, b`msg, b`lines
    ensures b.jdxPos <= |b.jdx| && link[..] == table
  {
    ghost var recs, v := b.recs, Visits(b.recs);
    TableRoom(recs, crc);
    var number := b.Lowest();
    StartAt(recs);
    var i, more := 0, true;
    while more
      invariant b.jdxPos <= |b.jdx| && i <= |v| <= |table| == link.Length
      invariant if more then At(v, recs, i + 1, number) else i == |v|
      invariant link[..] == Filled(table, i)
      decreases |v| - i, if more then 1 else 0
    {
      FillSlot(b, link, i, number, crc);
      TableStep(recs, crc, i);
      FillNext(table, i);
      i := i + 1;
      more, number := Advance(b, number, v, i);
    }
  }

  /** The search of the table for the neighbours of slot i. */
  method Neighbours(link: array<Slot>, i: nat, total: nat) returns (prev: word, next: word)
    requires i < link.Length == total + 1
    ensures prev == PrevOf(link[..], i) && next == NextOf(link[..], i)
  {
    prev, next := 0, 0;
    var crc := link[i].subject;
    var m, go := 0, true;
    while go && m < total
      invariant m <= total
      invariant m <= i ==> go && next == 0 && prev == LastBefore(link[..], crc, m)
      invariant m > i ==> prev == LastBefore(link[..], crc, i)
      invariant m > i ==> next == 0 || !go
      invariant m > i ==> FirstFrom(link[..], crc, i + 1, total) == if go then FirstFrom(link[..], crc, m, total) else next
      decreases total - m, if go then 1 else 0
    {
      if m != i && link[m].subject == crc {
        if m < i {
          prev := link[m].number;
        } else {
          next := link[m].number;
          go := false;
        }
      }
      if go {
        m := m + 1;
      }
    }
  }

  lemma AtSame(v: seq<word>, recs: seq<Rec>, recs': seq<Rec>, i: nat, number: word)
    requires SameMessages(recs, recs')
    ensures At(v, recs', i, number) <==> At(v, recs, i, number)
  {
    SameNumbers(recs, recs', number);
  }

  /** What the second pass relies on while it rewrites headers. */
  ghost predicate Ready(b: JamBase)
    reads b
  {
    b.Holds() && b.Navigable() && b.jdxPos <= |b.jdx| && AllWellFormed(b.recs, b.jdt)
  }

  lemma RelinkWellFormed(recs: seq<Rec>, text: string, n: word, prev: word, next: word)
    requires AllWellFormed(recs, text)
    ensures AllWellFormed(Relink(recs, n, prev, next), text)
  {
    var i := Find(recs, n);
    if i >= 0 && Changes(recs, n, prev, next) {
      assert WellFormed(recs[i], text);
      ReplaceWellFormed(recs, i, Relink(recs, n, prev, next)[i], text);
    }
  }

  /** Records with the same messages can be walked in the same way. */
  lemma StillNavigable(b: JamBase, was: seq<Rec>)
    requires b.Holds() && AllWellFormed(b.recs, b.jdt) && SameMessages(was, b.recs) && LiveOrdered(was)
    requires b.jamHdrInfo.activeMsgs == 0 <==> forall i :: 0 <= i < |was| ==> !was[i].Live()
    ensures b.Navigable()
  {
    FilesReadable(b.hdr, b.jdx, b.jamHdrInfo, b.recs, b.jdt);
    SameOrder(was, b.recs);
    forall i | 0 <= i < |was| ensures b.recs[i].Live() == was[i].Live() { assert SameMessage(was[i], b.recs[i]); }
  }

  /** Gives message n its links, if it does not have them. */
  method RelinkMessage(b: JamBase, n: word, prev: word, next: word) returns (changed: bool)
    requires Ready(b)
    modifies b`hdr, b`jdxPos, b`jamHdr, b`msg, b`lines, b`recs
    ensures Ready(b) && b.recs == Relink(old(b.recs), n, prev, next)
    ensures changed <==> Changes(old(b.recs), n, prev, next)
  {
    ghost var was := b.recs;
    var found := Load(b, n);
    changed := b.msg.original != prev || b.msg.reply != next;
    if changed {
      b.msg := b.msg.(original := prev, reply := next);
      var done := b.WriteInFiles(n);
      RelinkKeeps(was, n, prev, next);
      RelinkWellFormed(was, b.jdt, n, prev, next);
      StillNavigable(b, was);
    }
  }

  /** Moves to the next message while headers are being rewritten. */
  method AdvanceRewriting(b: JamBase, number: word, ghost v: seq<word>, ghost recs: seq<Rec>, ghost i: nat)
    returns (more: bool, next: word)
    requires Ready(b) && SameMessages(recs, b.recs) && At(v, recs, i, number)
    modifies b`jdxPos, b`jamHdr, b`msg
    ensures Ready(b)
    ensures if more then At(v, recs, i + 1, next) else i == |v|
  {
    ghost var now := b.recs;
    AtSame(v, recs, now, i, number);
    more, next := Advance(b, number, v, i);
    if more { AtSame(v, recs, now, i + 1, next); }
  }

  /** linked and counted are what the first i rounds leave and count. */
  ghost predicate Rounds(recs: seq<Rec>, table: seq<Slot>, linked: nat -> seq<Rec>, counted: nat -> nat)
  {
    forall i: nat {:trigger Round(i)} ::
      Round(i) && i <= |table| ==> linked(i) == LinkedTo(recs, table, i) && counted(i) == CountTo(recs, table, i)
  }

  /** One step of the second pass. */
  method WriteLink(b: JamBase, link: array<Slot>, total: nat, i: nat, number: word, ghost recs: seq<Rec>, ghost table: seq<Slot>,
                   ghost linked: nat -> seq<Rec>, ghost counted: nat -> nat)
    returns (changed: bool)
    requires Ready(b) && link[..] == table && link.Length == total + 1 && i < |table| && number == table[i].number
    requires Rounds(recs, table, linked, counted) && b.recs == linked(i)
    modifies b`hdr, b`jdxPos, b`jamHdr, b`msg, b`lines, b`recs
    ensures Ready(b) && b.recs == linked(i + 1)
    ensures counted(i + 1) == counted(i) + if changed then 1 else 0
  {
    assert Round(i) && Round(i + 1);
    var prev, next := Neighbours(link, i, total);
    changed := RelinkMessage(b, number, prev, next);
  }

  method AdvanceLinked(b: JamBase, number: word, ghost v: seq<word>, ghost recs: seq<Rec>, ghost table: seq<Slot>, ghost i: nat,
                       ghost linked: nat -> seq<Rec>, ghost counted: nat -> nat)
    returns (more: bool, next: word)
    requires Ready(b) && i <= |table| && At(v, recs, i, number) && Rounds(recs, table, linked, counted) && b.recs == linked(i)
    modifies b`jdxPos, b`jamHdr, b`msg
    ensures Ready(b)
    ensures if more then At(v, recs, i + 1, next) else i == |v|
  {
    assert Round(i);
    LinkedKeeps(recs, table, i);
    more, next := AdvanceRewriting(b, number, v, recs, i);
  }

  /** The table starts with slots for the visits. */
  ghost predicate Heads(v: seq<word>, table: seq<Slot>)
  {
    |v| <= |table| && forall i :: 0 <= i < |v| ==> table[i].number == v[i]
  }

  lemma TableHeads(recs: seq<Rec>, crc: string -> word)
    requires recs != []
    ensures Heads(Visits(recs), Slots(recs, crc))
  {
    TableRoom(recs, crc);
    forall i | 0 <= i < |Visits(recs)| ensures Slots(recs, crc)[i].number == Visits(recs)[i] { TableStep(recs, crc, i); }
  }

  /** One round of the second pass. */
  method LinkAndAdvance(b: JamBase, link: array<Slot>, total: nat, i: nat, number: word, ghost v: seq<word>,
                        ghost recs: seq<Rec>, ghost table: seq<Slot>, ghost linked: nat -> seq<Rec>, ghost counted: nat -> nat)
    returns (changed: bool, more: bool, next: word)
    requires Ready(b) && link[..] == table && link.Length == total + 1 && Heads(v, table) && Rounds(recs, table, linked, counted)
    requires i <= |table| && b.recs == linked(i) && At(v, recs, i + 1, number)
    modifies b`hdr, b`jdxPos, b`jamHdr, b`msg, b`lines, b`recs
    ensures Ready(b) && i + 1 <= |table| && b.recs == linked(i + 1)
    ensures counted(i + 1) == counted(i) + if changed then 1 else 0
    ensures if more then At(v, recs, i + 2, next) else i + 1 == |v|
  {
    changed := WriteLink(b, link, total, i, number, recs, table, linked, counted);
    more, next := AdvanceLinked(b, number, v, recs, table, i + 1, linked, counted);
  }

  /** Moves to the first message. */
  method StartWalk(b: JamBase) returns (number: word)
    requires Ready(b) && b.jamHdrInfo.activeMsgs > 0 && b.recs != []
    modifies b`jdxPos, b`jamHdr, b`msg
    ensures Ready(b) && At(Visits(b.recs), b.recs, 1, number)
  {
    number := b.Lowest();
    StartAt(b.recs);
  }

  /** Second pass: writes the links the table gives, starting at the first message. */
  method WriteLinks(b: JamBase, link: array<Slot>, total: nat, first: word, ghost v: seq<word>,
                    ghost recs: seq<Rec>, ghost table: seq<Slot>, ghost linked: nat -> seq<Rec>, ghost counted: nat -> nat)
    returns (n: nat)
    requires Ready(b) && At(v, recs, 1, first) && Heads(v, table) && Rounds(recs, table, linked, counted)
    requires b.recs == linked(0) && counted(0) == 0 && link[..] == table && link.Length == total + 1
    modifies b`hdr, b`jdxPos, b`jamHdr, b`msg, b`lines, b`recs
    ensures Ready(b) && b.recs == linked(|v|) && n == counted(|v|)
  {
    n := 0;
    var number := first;
    var i, more := 0, true;
    while more
      invariant Ready(b) && i <= |v| && link[..] == table
      invariant b.recs == linked(i) && n == counted(i)
      invariant if more then At(v, recs, i + 1, number) else i == |v|
      decreases |v| - i, if more then 1 else 0
    {
      var changed;
      changed, more, number := LinkAndAdvance(b, link, total, i, number, v, recs, table, linked, counted);
      n := n + if changed then 1 else 0;
      i := i + 1;
    }
  }

  lemma TableRounds(recs: seq<Rec>, crc: string -> word) returns (linked: nat -> seq<Rec>, counted: nat -> nat)
    requires recs != [] && LiveCount(recs) > 0
    ensures Rounds(recs, Slots(recs, crc), linked, counted) && linked(0) == recs && counted(0) == 0
    ensures linked(|Visits(recs)|) == Linked(recs, crc) && counted(|Visits(recs)|) == LinkCount(recs, crc)
  {
    var table := Slots(recs, crc);
    linked := (i: nat) => if i <= |table| then LinkedTo(recs, table, i) else recs;
    counted := (i: nat) => if i <= |table| then CountTo(recs, table, i) else 0;
  }

  /** The second pass on the table of the first. */
  method SecondPass(b: JamBase, link: array<Slot>, total: nat, crc: string -> word) returns (n: nat)
    requires Ready(b) && b.jamHdrInfo.activeMsgs == total == LiveCount(b.recs) > 0
    requires link[..] == Slots(b.recs, crc) && link.Length == total + 1
    modifies b`hdr, b`jdxPos, b`jamHdr, b`msg, b`lines, b`recs
    ensures Ready(b) && b.recs == Linked(old(b.recs), crc) && n == LinkCount(old(b.recs), crc)
  {
    ghost var recs := b.recs;
    ghost var linked, counted := TableRounds(recs, crc);
    TableHeads(recs, crc);
    var number := StartWalk(b);
    n := WriteLinks(b, link, total, number, Visits(recs), recs, Slots(recs, crc), linked, counted);
  }

  /** The table of the first pass. */
  method MakeTable(b: JamBase, total: nat, crc: string -> word) returns (link: array<Slot>)
    requires b.Navigable() && b.jdxPos <= |b.jdx| && b.jamHdrInfo.activeMsgs == total == LiveCount(b.recs) > 0
    modifies b`jdxPos, b`jamHdr, b`msg, b`lines
    ensures b.jdxPos <= |b.jdx| && fresh(link) && link[..] == Slots(b.recs, crc) && link.Length == total + 1
  {
    ghost var table := Slots(b.recs, crc);
    link := new Slot[total + 1](_ => Slot(0, 0));
    assert link[..] == Filled(table, 0);
    FillTable(b, link, crc, table);
  }

  /** Msg_Link with the base open and locked: returns how many messages it changed. */
  method Link(b: JamBase, crc: string -> word) returns (n: nat)
    requires b.Valid()
    modifies b`hdr, b`jdxPos, b`jamHdr, b`msg, b`lines, b`recs
    ensures b.Valid()
    ensures b.Base() == old(b.Base()).(recs := Linked(old(b.recs), crc)) && n == LinkCount(old(b.recs), crc)
  {
    n := 0;
    var total := b.jamHdrInfo.activeMsgs;
    if total != 0 {
      ghost var s := b.Base();
      LinkKeepsInv(s, crc);
      b.ValidIsNavigable();
      n := LinkPasses(b, total, crc);
      assert b.Base() == s.(recs := Linked(s.recs, crc));
    }
  }

  /** The two passes. */
  method LinkPasses(b: JamBase, total: nat, crc: string -> word) returns (n: nat)
    requires Ready(b) && b.jamHdrInfo.activeMsgs == total == LiveCount(b.recs) > 0
    modifies b`hdr, b`jdxPos, b`jamHdr, b`msg, b`lines, b`recs
    ensures Ready(b) && b.recs == Linked(old(b.recs), crc) && n == LinkCount(old(b.recs), crc)
  {
    var link := MakeTable(b, total, crc);
    n := SecondPass(b, link, total, crc);
  }
}
