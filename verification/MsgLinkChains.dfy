/** What threading achieves: one chain per subject, and when it does not. */
module MsgLinkChains {
  import opened Bytes
  import opened JamFormat
  import opened JamStore
  import opened JamBases
  import opened JamHeaders
  import opened JamPackSpec
  import opened MsgLinkSpec

  function Key(r: Rec, crc: string -> word): word { KeyOf(Loaded(r), crc) }

  /** Undeleted record j is the next one after undeleted record i with its subject. */
  ghost predicate Adjacent(recs: seq<Rec>, crc: string -> word, i: int, j: int)
  {
    && 0 <= i < j < |recs| && recs[i].Live() && recs[j].Live() && Key(recs[i], crc) == Key(recs[j], crc)
    && forall k :: i < k < j && recs[k].Live() ==> Key(recs[k], crc) != Key(recs[i], crc)
  }

  /** x is the number of the next message with record i's subject, or 0 if there is none. */
  ghost predicate ReplyIs(recs: seq<Rec>, crc: string -> word, i: int, x: word)
  {
    if x == 0 then forall j :: !Adjacent(recs, crc, i, j)
    else exists j :: Adjacent(recs, crc, i, j) && x == recs[j].Num()
  }

  /** x is the number of the message before record i with its subject, or 0 if there is none. */
  ghost predicate OriginalIs(recs: seq<Rec>, crc: string -> word, i: int, x: word)
  {
    if x == 0 then forall j :: !Adjacent(recs, crc, j, i)
    else exists j :: Adjacent(recs, crc, j, i) && x == recs[j].Num()
  }

  ghost predicate LinksRight(recs: seq<Rec>, crc: string -> word, i: int)
    requires 0 <= i < |recs|
  {
    ReplyIs(recs, crc, i, recs[i].h.replyNext) && OriginalIs(recs, crc, i, recs[i].h.replyTo)
  }

  /** Every subject is one doubly linked chain in message order. */
  ghost predicate Threaded(recs: seq<Rec>, crc: string -> word)
  {
    forall i :: 0 <= i < |recs| && recs[i].Live() ==> LinksRight(recs, crc, i)
  }

  ghost predicate Numbers(recs: seq<Rec>) { LiveOrdered(recs) && forall i :: 0 <= i < |recs| ==> recs[i].Num() >= 1 }

  /** In a threaded base j is i's Reply exactly when i is j's Original. */
  lemma LinksAgree(recs: seq<Rec>, crc: string -> word, i: nat, j: nat)
    requires Numbers(recs) && Threaded(recs, crc) && i < |recs| && j < |recs| && recs[i].Live() && recs[j].Live()
    ensures recs[i].h.replyNext == recs[j].Num() <==> recs[j].h.replyTo == recs[i].Num()
    ensures recs[i].h.replyNext == recs[j].Num() <==> Adjacent(recs, crc, i, j)
  {
    assert LinksRight(recs, crc, i) && LinksRight(recs, crc, j);
    if recs[i].h.replyNext == recs[j].Num() {
      var k :| Adjacent(recs, crc, i, k) && recs[i].h.replyNext == recs[k].Num();
      assert k == j by { SameNumberSame(recs, k, j); }
      var l :| Adjacent(recs, crc, l, j) && recs[j].h.replyTo == recs[l].Num();
      assert l == i;
    }
    if recs[j].h.replyTo == recs[i].Num() {
      var l :| Adjacent(recs, crc, l, j) && recs[j].h.replyTo == recs[l].Num();
      assert l == i by { SameNumberSame(recs, l, i); }
      var k :| Adjacent(recs, crc, i, k) && recs[i].h.replyNext == recs[k].Num();
      assert k == j;
    }
    if Adjacent(recs, crc, i, j) {
      var k :| Adjacent(recs, crc, i, k) && recs[i].h.replyNext == recs[k].Num();
      assert k == j;
    }
  }

  lemma SameNumberSame(recs: seq<Rec>, i: nat, j: nat)
    requires LiveOrdered(recs) && i < |recs| && j < |recs| && recs[i].Live() && recs[j].Live() && recs[i].Num() == recs[j].Num()
    ensures i == j
  {
  }

  // ----- the slots of the undeleted messages

  function LiveSlots(recs: seq<Rec>, crc: string -> word): (s: seq<Slot>)
    ensures |s| == LiveCount(recs)
  {
    if recs == [] then []
    else
      var r := recs[|recs| - 1];
      LiveSlots(recs[..|recs| - 1], crc) + if r.Live() then [Slot(Key(r, crc), r.Num())] else []
  }

  lemma {:induction false} SurvivorSlot(recs: seq<Rec>, crc: string -> word, t: nat)
    requires t < LiveCount(recs)
    ensures var r := recs[Survivor(recs, t)]; LiveSlots(recs, crc)[t] == Slot(Key(r, crc), r.Num())
  {
    var init := recs[..|recs| - 1];
    if t < LiveCount(init) {
      SurvivorSlot(init, crc, t);
    }
  }

  lemma {:induction false} AllAbove(recs: seq<Rec>, crc: string -> word)
    requires forall i :: 0 <= i < |recs| ==> recs[i].Num() >= 1
    ensures |Above(recs, 0)| == |LiveSlots(recs, crc)|
    ensures forall t :: 0 <= t < |Above(recs, 0)| ==> Above(recs, 0)[t] == LiveSlots(recs, crc)[t].number
  {
    if recs != [] {
      AllAbove(recs[..|recs| - 1], crc);
    }
  }

  lemma SlotOfLive(recs: seq<Rec>, crc: string -> word, t: nat)
    requires LiveOrdered(recs) && t < LiveCount(recs)
    ensures SlotAt(recs, LiveSlots(recs, crc)[t].number, crc) == LiveSlots(recs, crc)[t]
  {
    SurvivorSlot(recs, crc, t);
    var i := Survivor(recs, t);
    FindUnique(recs, i, recs[i].Num());
  }

  /** No undeleted number is below the first record's. */
  ghost predicate LowestFirst(recs: seq<Rec>)
  {
    recs != [] && forall i :: 0 <= i < |recs| && recs[i].Live() ==> recs[i].Num() >= recs[0].Num()
  }

  /** The first record's number is an undeleted message's. */
  ghost predicate FirstFound(recs: seq<Rec>)
    requires recs != []
  {
    exists i :: LiveAt(recs, i, recs[0].Num())
  }

  /** The first record's number is the lowest undeleted number. */
  ghost predicate StartsLive(recs: seq<Rec>) { LowestFirst(recs) && FirstFound(recs) }

  /** The first record is deleted and its number is below every undeleted one. */
  ghost predicate StartsDeleted(recs: seq<Rec>)
  {
    recs != [] && forall i :: 0 <= i < |recs| && recs[i].Live() ==> recs[i].Num() > recs[0].Num()
  }

  lemma VisitsAll(recs: seq<Rec>)
    requires Numbers(recs) && StartsLive(recs)
    ensures Visits(recs) == Above(recs, 0)
  {
    var i :| LiveAt(recs, i, recs[0].Num());
    NextAbove(recs, 0, i, recs[0].Num());
  }

  lemma {:induction false} AboveLower(recs: seq<Rec>, n: word)
    requires forall i :: 0 <= i < |recs| ==> recs[i].Num() >= 1
    requires forall i :: 0 <= i < |recs| && recs[i].Live() ==> recs[i].Num() > n
    ensures Above(recs, n) == Above(recs, 0)
  {
    if recs != [] {
      AboveLower(recs[..|recs| - 1], n);
    }
  }

  lemma SlotOfVisit(recs: seq<Rec>, crc: string -> word, u: nat)
    requires recs != [] && u < |Visits(recs)|
    ensures u < |Slots(recs, crc)| && Slots(recs, crc)[u] == SlotAt(recs, Visits(recs)[u], crc)
  {
  }

  lemma SlotFromLive(recs: seq<Rec>, crc: string -> word, t: nat)
    requires Numbers(recs) && StartsLive(recs) && t < LiveCount(recs)
    ensures t < |Visits(recs)| && Slots(recs, crc)[t] == LiveSlots(recs, crc)[t]
  {
    VisitsAll(recs);
    AllAbove(recs, crc);
    SlotOfLive(recs, crc, t);
    SlotOfVisit(recs, crc, t);
  }

  lemma SnocIs<T>(s: seq<T>, x: T, all: seq<T>)
    requires |all| == |s| + 1 && all[|s|] == x && forall t :: 0 <= t < |s| ==> all[t] == s[t]
    ensures all == s + [x]
  {
  }

  /** When the walk starts at an undeleted message its table holds those messages, then a zero slot. */
  lemma TableFromLive(recs: seq<Rec>, crc: string -> word)
    requires Numbers(recs) && StartsLive(recs)
    ensures Slots(recs, crc) == LiveSlots(recs, crc) + [Slot(0, 0)] && |Visits(recs)| == LiveCount(recs)
  {
    VisitsAll(recs);
    AllAbove(recs, crc);
    forall t | 0 <= t < LiveCount(recs) ensures Slots(recs, crc)[t] == LiveSlots(recs, crc)[t] { SlotFromLive(recs, crc, t); }
    SnocIs(LiveSlots(recs, crc), Slot(0, 0), Slots(recs, crc));
  }

  /** The slot of a message that cannot be read: no subject. */
  function DeletedSlot(recs: seq<Rec>, crc: string -> word): Slot
    requires recs != []
  {
    Slot(KeyOf(EMPTY_MSG, crc), recs[0].Num())
  }

  lemma VisitsDeleted(recs: seq<Rec>)
    requires Numbers(recs) && StartsDeleted(recs)
    ensures Visits(recs) == [recs[0].Num()] + Above(recs, 0)
  {
    AboveLower(recs, recs[0].Num());
  }

  lemma VisitAfterDeleted(recs: seq<Rec>, crc: string -> word, u: nat, v: nat)
    requires Numbers(recs) && StartsDeleted(recs) && u == v + 1 <= LiveCount(recs)
    ensures u < |Visits(recs)| && Visits(recs)[u] == LiveSlots(recs, crc)[v].number
  {
    VisitsDeleted(recs);
    AllAbove(recs, crc);
  }

  lemma SlotAfterDeleted(recs: seq<Rec>, crc: string -> word, u: nat, v: nat)
    requires Numbers(recs) && StartsDeleted(recs) && u == v + 1 <= LiveCount(recs)
    ensures u < |Visits(recs)| && Visits(recs)[u] == LiveSlots(recs, crc)[v].number
    ensures Slots(recs, crc)[u] == LiveSlots(recs, crc)[v]
  {
    VisitAfterDeleted(recs, crc, u, v);
    SlotOfLive(recs, crc, v);
    SlotOfVisit(recs, crc, u);
  }

  lemma FirstOfDeleted(recs: seq<Rec>, crc: string -> word)
    requires Numbers(recs) && StartsDeleted(recs)
    ensures Slots(recs, crc)[0] == DeletedSlot(recs, crc) && |Visits(recs)| == LiveCount(recs) + 1
  {
    VisitsDeleted(recs);
    AllAbove(recs, crc);
    assert Find(recs, recs[0].Num()) < 0;
    SlotOfVisit(recs, crc, 0);
  }

  /** When the walk starts at a deleted message its table holds that one too, and the last
      undeleted message is in the slot past those that are searched. */
  lemma TableFromDeleted(recs: seq<Rec>, crc: string -> word)
    requires Numbers(recs) && StartsDeleted(recs)
    ensures Slots(recs, crc) == [DeletedSlot(recs, crc)] + LiveSlots(recs, crc) && |Visits(recs)| == LiveCount(recs) + 1
  {
    FirstOfDeleted(recs, crc);
    var table := Slots(recs, crc);
    forall u | 1 <= u < |table| ensures table[u] == LiveSlots(recs, crc)[u - 1] { SlotAfterDeleted(recs, crc, u, u - 1); }
    ConsIs(DeletedSlot(recs, crc), LiveSlots(recs, crc), table);
  }

  lemma ConsIs<T>(x: T, s: seq<T>, all: seq<T>)
    requires |all| == |s| + 1 && all[0] == x && forall u :: 1 <= u < |all| ==> all[u] == s[u - 1]
    ensures all == [x] + s
  {
  }

  // ----- what a run leaves in each record

  /** A record after a visit that found these neighbours. */
  function Touched(r: Rec, prev: word, next: word): (t: Rec)
    ensures t.h.replyTo == prev && t.h.replyNext == next && t.fields == r.fields && t.Num() == r.Num()
  {
    LoadedLinks(r);
    if r.h.replyTo == prev && r.h.replyNext == next then r
    else Rec(Rewritten(r.h, Loaded(r).(original := prev, reply := next)), r.fields)
  }

  lemma {:induction false} Untouched(recs: seq<Rec>, table: seq<Slot>, t: nat, i: nat)
    requires t <= |table| && i < |recs| && forall u :: 0 <= u < t ==> !LiveAt(recs, i, table[u].number)
    ensures LinkedTo(recs, table, t)[i] == recs[i]
    decreases t
  {
    if t > 0 {
      Untouched(recs, table, t - 1, i);
      LinkedKeeps(recs, table, t - 1);
      SameNumbers(recs, LinkedTo(recs, table, t - 1), table[t - 1].number);
    }
  }

  lemma {:induction false} TouchedOnce(recs: seq<Rec>, table: seq<Slot>, t: nat, u: nat, i: nat)
    requires LiveOrdered(recs) && u < t <= |table| && LiveAt(recs, i, table[u].number)
    requires forall v :: 0 <= v < t && v != u ==> table[v].number != table[u].number
    ensures LinkedTo(recs, table, t)[i] == Touched(recs[i], PrevOf(table, u), NextOf(table, u))
    decreases t
  {
    var before := LinkedTo(recs, table, t - 1);
    LinkedKeeps(recs, table, t - 1);
    SameNumbers(recs, before, table[t - 1].number);
    if u == t - 1 {
      Untouched(recs, table, t - 1, i);
      FindUnique(recs, i, table[u].number);
      LoadedLinks(recs[i]);
    } else {
      TouchedOnce(recs, table, t - 1, u, i);
    }
  }

  lemma SlotNumbers(recs: seq<Rec>, crc: string -> word, u: nat)
    requires recs != [] && LiveOrdered(recs) && u < |Visits(recs)|
    ensures Slots(recs, crc)[u].number == Visits(recs)[u]
    ensures forall v :: 0 <= v < |Visits(recs)| && v != u ==> Slots(recs, crc)[v].number != Slots(recs, crc)[u].number
  {
    forall v | 0 <= v < |Visits(recs)| && v != u
      ensures Slots(recs, crc)[v].number != Slots(recs, crc)[u].number
    {
      VisitsDiffer(recs, v, u);
    }
  }

  /** The message visited at u has the links the table gives for slot u. */
  lemma LinkedAtVisit(recs: seq<Rec>, crc: string -> word, u: nat, i: nat)
    requires recs != [] && LiveOrdered(recs) && u < |Visits(recs)| && LiveAt(recs, i, Visits(recs)[u])
    ensures var table := Slots(recs, crc); Linked(recs, crc)[i] == Touched(recs[i], PrevOf(table, u), NextOf(table, u))
  {
    SomeLive(recs, i);
    SlotNumbers(recs, crc, u);
    TouchedOnce(recs, Slots(recs, crc), |Visits(recs)|, u, i);
  }

  // ----- running it again

  /** A message visited after the first has been found with Next. */
  lemma LaterVisitsLive(recs: seq<Rec>, u: nat)
    requires recs != [] && LiveOrdered(recs) && 0 < u < |Visits(recs)|
    ensures Find(recs, Visits(recs)[u]) >= 0
  {
    var n := recs[0].Num();
    AboveIncreases(recs, n);
    var x := Above(recs, n)[u - 1];
    assert exists k :: LiveAt(recs, k, x);
  }

  lemma RelinkSettled(recs: seq<Rec>, n: word, prev: word, next: word, i: nat)
    requires LiveOrdered(recs) && LiveAt(recs, i, n) && recs[i].h.replyTo == prev && recs[i].h.replyNext == next
    ensures Relink(recs, n, prev, next) == recs && !Changes(recs, n, prev, next)
  {
    FindUnique(recs, i, n);
    LoadedLinks(recs[i]);
  }

  lemma SettledLive(recs: seq<Rec>, crc: string -> word, u: nat, i: nat)
    requires recs != [] && LiveOrdered(recs) && u < |Visits(recs)| && LiveAt(recs, i, Visits(recs)[u])
    ensures var again, table, n := Linked(recs, crc), Slots(recs, crc), Visits(recs)[u];
            Relink(again, n, PrevOf(table, u), NextOf(table, u)) == again && !Changes(again, n, PrevOf(table, u), NextOf(table, u))
  {
    var again, table, n := Linked(recs, crc), Slots(recs, crc), Visits(recs)[u];
    LinkKeeps(recs, crc);
    SameNumbers(recs, again, n);
    SameOrder(recs, again);
    LinkedAtVisit(recs, crc, u, i);
    RelinkSettled(again, n, PrevOf(table, u), NextOf(table, u), i);
  }

  lemma Settled(recs: seq<Rec>, crc: string -> word, u: nat)
    requires recs != [] && LiveOrdered(recs) && u < |Visits(recs)|
    ensures var again, table, n := Linked(recs, crc), Slots(recs, crc), Visits(recs)[u];
            && Relink(again, n, PrevOf(table, u), NextOf(table, u)) == again
            && (Changes(again, n, PrevOf(table, u), NextOf(table, u)) <==>
                u == 0 && Find(recs, recs[0].Num()) < 0 && NextOf(table, 0) != 0)
  {
    var i := Find(recs, Visits(recs)[u]);
    if i >= 0 {
      SettledLive(recs, crc, u, i);
    } else {
      if u > 0 { LaterVisitsLive(recs, u); }
      LinkKeeps(recs, crc);
      SameNumbers(recs, Linked(recs, crc), Visits(recs)[u]);
    }
  }

  lemma {:induction false} NoMoreChanges(recs: seq<Rec>, crc: string -> word, t: nat)
    requires recs != [] && LiveOrdered(recs) && LiveCount(recs) > 0 && t <= |Visits(recs)|
    ensures var again, table := Linked(recs, crc), Slots(recs, crc);
            && LinkedTo(again, table, t) == again
            && CountTo(again, table, t) == if t > 0 && Find(recs, recs[0].Num()) < 0 && NextOf(table, 0) != 0 then 1 else 0
    decreases t
  {
    if t > 0 {
      NoMoreChanges(recs, crc, t - 1);
      Settled(recs, crc, t - 1);
      SlotNumbers(recs, crc, t - 1);
    }
  }

  /** An immediate second run changes no header; the slot that can count as changed again is the
      first, when no undeleted message has the first record's number. */
  lemma SecondRunCount(recs: seq<Rec>, crc: string -> word)
    requires LiveOrdered(recs)
    ensures var again := Linked(recs, crc);
            && Linked(again, crc) == again
            && LinkCount(again, crc) ==
               if LiveCount(recs) > 0 && Find(recs, recs[0].Num()) < 0 && NextOf(Slots(recs, crc), 0) != 0 then 1 else 0
  {
    if LiveCount(recs) > 0 {
      var again := Linked(recs, crc);
      LinkedKeeps(recs, Slots(recs, crc), |Visits(recs)|);
      SameNumbers(recs, again, 0);
      SameSlots(recs, again, crc);
      NoMoreChanges(recs, crc, |Visits(recs)|);
    }
  }

  // ----- neighbours in the table

  lemma {:induction false} LastBeforeIs(table: seq<Slot>, key: word, k: nat) returns (m: int)
    requires k <= |table|
    ensures -1 <= m < k && forall u :: m < u < k ==> table[u].subject != key
    ensures m == -1 ==> LastBefore(table, key, k) == 0
    ensures m >= 0 ==> table[m].subject == key && LastBefore(table, key, k) == table[m].number
    decreases k
  {
    if k == 0 { m := -1; }
    else if table[k - 1].subject == key { m := k - 1; }
    else { m := LastBeforeIs(table, key, k - 1); }
  }

  lemma {:induction false} FirstFromIs(table: seq<Slot>, key: word, k: nat, total: nat) returns (m: nat)
    requires k <= total <= |table|
    ensures k <= m <= total && forall u :: k <= u < m ==> table[u].subject != key
    ensures m == total ==> FirstFrom(table, key, k, total) == 0
    ensures m < total ==> table[m].subject == key && FirstFrom(table, key, k, total) == table[m].number
    decreases total - k
  {
    if k == total { m := total; }
    else if table[k].subject == key { m := k; }
    else { m := FirstFromIs(table, key, k + 1, total); }
  }

  /** Slot u is the next one after slot t with its key. */
  ghost predicate NextSlot(s: seq<Slot>, t: int, u: int)
  {
    0 <= t < u < |s| && s[t].subject == s[u].subject && forall v :: t < v < u ==> s[v].subject != s[t].subject
  }

  /** p lists the places of the undeleted records in order, and s their slots. */
  ghost predicate Listing(recs: seq<Rec>, crc: string -> word, s: seq<Slot>, p: seq<int>)
  {
    && |p| == |s|
    && (forall t {:trigger p[t]} :: 0 <= t < |p| ==>
          0 <= p[t] < |recs| && recs[p[t]].Live() && s[t] == Slot(Key(recs[p[t]], crc), recs[p[t]].Num()))
    && (forall t, u {:trigger p[t], p[u]} :: 0 <= t < u < |p| ==> p[t] < p[u])
    && (forall i {:trigger recs[i].Live()} :: 0 <= i < |recs| && recs[i].Live() ==> i in p)
  }

  lemma Listed(recs: seq<Rec>, crc: string -> word) returns (p: seq<int>)
    ensures Listing(recs, crc, LiveSlots(recs, crc), p)
    ensures |p| == LiveCount(recs) && forall t :: 0 <= t < |p| ==> p[t] == Survivor(recs, t)
  {
    p := seq(LiveCount(recs), t requires 0 <= t < LiveCount(recs) => Survivor(recs, t));
    forall t | 0 <= t < |p|
      ensures LiveSlots(recs, crc)[t] == Slot(Key(recs[p[t]], crc), recs[p[t]].Num())
    {
      SurvivorSlot(recs, crc, t);
    }
    forall t, u | 0 <= t < u < |p| ensures p[t] < p[u] { SurvivorsInOrder(recs, t, u); }
    forall i | 0 <= i < |recs| && recs[i].Live() ensures i in p {
      EveryLiveSurvives(recs, i);
      assert p[LiveCount(recs[..i])] == i;
    }
  }

  lemma PlaceOf(recs: seq<Rec>, crc: string -> word, s: seq<Slot>, p: seq<int>, i: nat) returns (t: nat)
    requires Listing(recs, crc, s, p) && i < |recs| && recs[i].Live()
    ensures t < |p| && p[t] == i && s[t] == Slot(Key(recs[i], crc), recs[i].Num())
  {
    assert i in p;
    t :| t < |p| && p[t] == i;
  }

  /** Neighbours among the undeleted messages are neighbours among their slots. */
  lemma AdjacentSlots(recs: seq<Rec>, crc: string -> word, s: seq<Slot>, p: seq<int>, t: nat, u: nat)
    requires Listing(recs, crc, s, p) && t < |p| && u < |p|
    ensures NextSlot(s, t, u) <==> Adjacent(recs, crc, p[t], p[u])
  {
    if NextSlot(s, t, u) { AdjacentOfSlots(recs, crc, s, p, t, u); }
    if Adjacent(recs, crc, p[t], p[u]) { SlotsOfAdjacent(recs, crc, s, p, t, u); }
  }

  lemma AdjacentOfSlots(recs: seq<Rec>, crc: string -> word, s: seq<Slot>, p: seq<int>, t: nat, u: nat)
    requires Listing(recs, crc, s, p) && NextSlot(s, t, u)
    ensures Adjacent(recs, crc, p[t], p[u])
  {
    forall k | p[t] < k < p[u] && recs[k].Live() ensures Key(recs[k], crc) != Key(recs[p[t]], crc) {
      var v := PlaceOf(recs, crc, s, p, k);
      assert t < v < u;
    }
  }

  lemma SlotsOfAdjacent(recs: seq<Rec>, crc: string -> word, s: seq<Slot>, p: seq<int>, t: nat, u: nat)
    requires Listing(recs, crc, s, p) && t < |p| && u < |p| && Adjacent(recs, crc, p[t], p[u])
    ensures NextSlot(s, t, u)
  {
    assert t < u;
    forall v | t < v < u ensures s[v].subject != s[t].subject {
      assert p[t] < p[v] < p[u];
    }
  }

  /** The last slot is the next one after slot t with its key. */
  ghost predicate BeforeLast(s: seq<Slot>, t: int) { NextSlot(s, t, |s| - 1) }

  // ----- the links that slots give

  ghost predicate SlotReplyIs(s: seq<Slot>, t: int, x: word)
  {
    if x == 0 then forall u :: !NextSlot(s, t, u) else exists u :: NextSlot(s, t, u) && x == s[u].number
  }

  ghost predicate SlotOriginalIs(s: seq<Slot>, t: int, x: word)
  {
    if x == 0 then forall u :: !NextSlot(s, u, t) else exists u :: NextSlot(s, u, t) && x == s[u].number
  }

  ghost predicate Nonzero(s: seq<Slot>) { forall t :: 0 <= t < |s| ==> s[t].number != 0 }

  lemma RightReply(recs: seq<Rec>, crc: string -> word, s: seq<Slot>, p: seq<int>, t: nat, x: word)
    requires Listing(recs, crc, s, p) && t < |p|
    ensures ReplyIs(recs, crc, p[t], x) <==> SlotReplyIs(s, t, x)
  {
    forall u | NextSlot(s, t, u) ensures Adjacent(recs, crc, p[t], p[u]) && s[u].number == recs[p[u]].Num() {
      AdjacentSlots(recs, crc, s, p, t, u);
    }
    forall j | Adjacent(recs, crc, p[t], j)
      ensures exists u :: NextSlot(s, t, u) && s[u].number == recs[j].Num()
    {
      var u := PlaceOf(recs, crc, s, p, j);
      AdjacentSlots(recs, crc, s, p, t, u);
    }
  }

  lemma RightOriginal(recs: seq<Rec>, crc: string -> word, s: seq<Slot>, p: seq<int>, t: nat, x: word)
    requires Listing(recs, crc, s, p) && t < |p|
    ensures OriginalIs(recs, crc, p[t], x) <==> SlotOriginalIs(s, t, x)
  {
    forall u | NextSlot(s, u, t) ensures Adjacent(recs, crc, p[u], p[t]) && s[u].number == recs[p[u]].Num() {
      AdjacentSlots(recs, crc, s, p, u, t);
    }
    forall j | Adjacent(recs, crc, j, p[t])
      ensures exists u :: NextSlot(s, u, t) && s[u].number == recs[j].Num()
    {
      var u := PlaceOf(recs, crc, s, p, j);
      AdjacentSlots(recs, crc, s, p, u, t);
    }
  }

  lemma FromLiveRight(s: seq<Slot>, z: Slot, t: nat)
    requires t < |s| && Nonzero(s)
    ensures SlotReplyIs(s, t, NextOf(s + [z], t)) && SlotOriginalIs(s, t, PrevOf(s + [z], t))
  {
    var table := s + [z];
    var m := FirstFromIs(table, table[t].subject, t + 1, |s|);
    forall v | t < v < m ensures s[v].subject != s[t].subject { assert table[v].subject != s[t].subject; }
    if m < |s| { assert NextSlot(s, t, m); }
    var l := LastBeforeIs(table, table[t].subject, t);
    forall v | l < v < t ensures s[v].subject != s[t].subject { assert table[v].subject != s[t].subject; }
    if l >= 0 { assert NextSlot(s, l, t); }
  }

  /** With a deleted message in front, a Reply is right unless it should be the last message. */
  lemma FromDeletedReply(d: Slot, s: seq<Slot>, t: nat)
    requires t < |s| && Nonzero(s)
    ensures SlotReplyIs(s, t, NextOf([d] + s, t + 1)) <==> !BeforeLast(s, t)
  {
    var table, last, key := [d] + s, |s| - 1, s[t].subject;
    if t == last {
      assert NextOf(table, t + 1) == 0;
    } else {
      var m := FirstFromIs(table, key, t + 2, |s|);
      forall v | t < v < m - 1 ensures s[v].subject != key { assert table[v + 1].subject != key; }
      if m < |s| { assert NextSlot(s, t, m - 1); }
    }
  }

  /** With a deleted message in front, an Original is right unless the deleted one stands for it. */
  lemma FromDeletedOriginal(d: Slot, s: seq<Slot>, t: nat)
    requires t < |s| && Nonzero(s) && d.number != 0 && forall u :: 0 <= u < |s| ==> s[u].number != d.number
    ensures SlotOriginalIs(s, t, PrevOf([d] + s, t + 1)) <==> s[t].subject != d.subject || exists u :: NextSlot(s, u, t)
  {
    var table, key := [d] + s, s[t].subject;
    assert PrevOf(table, t + 1) == LastBefore(table, key, t + 1);
    var l := LastBeforeIs(table, key, t + 1);
    forall v | l - 1 < v < t && v >= 0 ensures s[v].subject != key { assert table[v + 1].subject != key; }
    if l > 0 {
      assert NextSlot(s, l - 1, t) && table[l] == s[l - 1];
    } else {
      forall u ensures !NextSlot(s, u, t) {}
      assert l == 0 ==> table[0] == d && LastBefore(table, key, t + 1) == d.number;
      assert l == -1 ==> table[0].subject != key;
    }
  }

  // ----- the chains

  lemma AdjacentSame(recs: seq<Rec>, recs': seq<Rec>, crc: string -> word, i: int, j: int)
    requires SameMessages(recs, recs') && Adjacent(recs, crc, i, j)
    ensures Adjacent(recs', crc, i, j)
  {
    SameSubject(recs[i], recs'[i]);
    SameSubject(recs[j], recs'[j]);
    forall k | i < k < j && recs'[k].Live() ensures Key(recs'[k], crc) != Key(recs'[i], crc) {
      SameSubject(recs[k], recs'[k]);
    }
  }

  lemma SameBack(recs: seq<Rec>, recs': seq<Rec>)
    requires SameMessages(recs, recs')
    ensures SameMessages(recs', recs)
  {
    forall i {:trigger recs[i]} | 0 <= i < |recs| ensures SameMessage(recs'[i], recs[i]) {
      assert SameMessage(recs[i], recs'[i]);
    }
  }

  lemma LinksSame(recs: seq<Rec>, recs': seq<Rec>, crc: string -> word, i: int, next: word, prev: word)
    requires SameMessages(recs, recs')
    ensures ReplyIs(recs', crc, i, next) <==> ReplyIs(recs, crc, i, next)
    ensures OriginalIs(recs', crc, i, prev) <==> OriginalIs(recs, crc, i, prev)
  {
    SameBack(recs, recs');
    forall a: int, b: int ensures Adjacent(recs', crc, a, b) <==> Adjacent(recs, crc, a, b) {
      if Adjacent(recs, crc, a, b) { AdjacentSame(recs, recs', crc, a, b); }
      if Adjacent(recs', crc, a, b) { AdjacentSame(recs', recs, crc, a, b); }
    }
    assert forall j :: 0 <= j < |recs| ==> SameMessage(recs[j], recs'[j]);
  }

  /** Message t, visited at u, ends with right links exactly when the table gives it right slots. */
  lemma LinksOfVisit(recs: seq<Rec>, crc: string -> word, table: seq<Slot>, s: seq<Slot>, p: seq<int>, t: nat, u: nat)
    requires Numbers(recs) && recs != [] && Listing(recs, crc, s, p) && t < |p| && u < |Visits(recs)|
    requires table == Slots(recs, crc) && Visits(recs)[u] == s[t].number
    ensures LinksRight(Linked(recs, crc), crc, p[t]) <==>
            SlotReplyIs(s, t, NextOf(table, u)) && SlotOriginalIs(s, t, PrevOf(table, u))
  {
    var again := Linked(recs, crc);
    LinkedAtVisit(recs, crc, u, p[t]);
    LinkKeeps(recs, crc);
    LinksSame(recs, again, crc, p[t], NextOf(table, u), PrevOf(table, u));
    RightReply(recs, crc, s, p, t, NextOf(table, u));
    RightOriginal(recs, crc, s, p, t, PrevOf(table, u));
  }

  lemma ThreadedAt(recs: seq<Rec>, crc: string -> word, s: seq<Slot>, p: seq<int>)
    requires Listing(recs, crc, s, p)
    ensures var again := Linked(recs, crc);
            Threaded(again, crc) <==> forall t {:trigger p[t]} :: 0 <= t < |p| ==> LinksRight(again, crc, p[t])
  {
    var again := Linked(recs, crc);
    LinkKeeps(recs, crc);
    forall i | 0 <= i < |recs| ensures again[i].Live() <==> recs[i].Live() {
      assert SameMessage(recs[i], again[i]);
    }
    forall i | 0 <= i < |again| && again[i].Live() ensures exists t :: 0 <= t < |p| && p[t] == i {
      assert recs[i].Live();
    }
  }

  lemma LinksFromLive(recs: seq<Rec>, crc: string -> word, s: seq<Slot>, p: seq<int>, t: nat)
    requires Numbers(recs) && StartsLive(recs) && s == LiveSlots(recs, crc) && Listing(recs, crc, s, p) && t < |s|
    ensures LinksRight(Linked(recs, crc), crc, p[t])
  {
    TableFromLive(recs, crc);
    VisitsAll(recs);
    AllAbove(recs, crc);
    forall u | 0 <= u < |s| ensures s[u].number != 0 { assert s[u].number == recs[p[u]].Num(); }
    FromLiveRight(s, Slot(0, 0), t);
    LinksOfVisit(recs, crc, s + [Slot(0, 0)], s, p, t, t);
  }

  /** Threading a base whose first message is undeleted makes one chain of every subject. */
  lemma LinkThreads(recs: seq<Rec>, crc: string -> word)
    requires Numbers(recs) && StartsLive(recs)
    ensures Threaded(Linked(recs, crc), crc)
  {
    var s := LiveSlots(recs, crc);
    var p := Listed(recs, crc);
    forall t {:trigger p[t]} | 0 <= t < |p| ensures LinksRight(Linked(recs, crc), crc, p[t]) {
      LinksFromLive(recs, crc, s, p, t);
    }
    ThreadedAt(recs, crc, s, p);
  }

  /** No undeleted message has the key of an empty subject. */
  ghost predicate NoEmptySubject(recs: seq<Rec>, crc: string -> word)
  {
    forall i :: 0 <= i < |recs| && recs[i].Live() ==> Key(recs[i], crc) != KeyOf(EMPTY_MSG, crc)
  }

  ghost predicate LastLive(recs: seq<Rec>, j: int)
  {
    0 <= j < |recs| && recs[j].Live() && forall k :: j < k < |recs| ==> !recs[k].Live()
  }

  /** The last undeleted message shares its subject with no other. */
  ghost predicate LastAlone(recs: seq<Rec>, crc: string -> word)
  {
    forall i, j :: 0 <= i < j && LastLive(recs, j) && recs[i].Live() ==> Key(recs[i], crc) != Key(recs[j], crc)
  }

  lemma LastPlace(recs: seq<Rec>, crc: string -> word, s: seq<Slot>, p: seq<int>, u: nat)
    requires Listing(recs, crc, s, p) && u < |p|
    ensures LastLive(recs, p[u]) <==> u == |p| - 1
  {
    var last := |p| - 1;
    forall k | p[last] < k < |recs| ensures !recs[k].Live() {}
    assert recs[p[last]].Live();
  }

  lemma LastFollows(recs: seq<Rec>, crc: string -> word, s: seq<Slot>, p: seq<int>, t: int)
    requires Listing(recs, crc, s, p) && BeforeLast(s, t)
    ensures !LastAlone(recs, crc)
  {
    var last := |s| - 1;
    LastPlace(recs, crc, s, p, last);
    assert p[t] < p[last] && Key(recs[p[t]], crc) == Key(recs[p[last]], crc);
  }

  lemma SharedFollows(s: seq<Slot>, t: nat)
    requires t < |s| - 1 && s[t].subject == s[|s| - 1].subject
    ensures exists u :: BeforeLast(s, u)
  {
    var last := |s| - 1;
    var l := LastBeforeIs(s, s[last].subject, last);
    assert BeforeLast(s, l);
  }

  lemma LastShared(recs: seq<Rec>, crc: string -> word, s: seq<Slot>, p: seq<int>)
    requires Listing(recs, crc, s, p) && !LastAlone(recs, crc)
    ensures exists u :: BeforeLast(s, u)
  {
    var i: nat, j: nat :| i < j && LastLive(recs, j) && recs[i].Live() && Key(recs[i], crc) == Key(recs[j], crc);
    var t := PlaceOf(recs, crc, s, p, i);
    var u := PlaceOf(recs, crc, s, p, j);
    LastPlace(recs, crc, s, p, u);
    SharedFollows(s, t);
  }

  lemma EmptySubjects(recs: seq<Rec>, crc: string -> word, s: seq<Slot>, p: seq<int>)
    requires Listing(recs, crc, s, p)
    ensures NoEmptySubject(recs, crc) <==> forall t :: 0 <= t < |s| ==> s[t].subject != KeyOf(EMPTY_MSG, crc)
  {
    forall t | 0 <= t < |s| ensures s[t].subject == Key(recs[p[t]], crc) && recs[p[t]].Live() {}
    forall i | 0 <= i < |recs| && recs[i].Live() ensures exists t :: 0 <= t < |s| && s[t].subject == Key(recs[i], crc) {
      var t :| 0 <= t < |p| && p[t] == i;
    }
  }

  /** After a walk that starts at a deleted message with key e, slot t's links are right. */
  ghost predicate RightDespite(s: seq<Slot>, e: word, t: int)
    requires 0 <= t < |s|
  {
    !BeforeLast(s, t) && (s[t].subject != e || exists u :: NextSlot(s, u, t))
  }

  lemma SlotsFromDeleted(d: Slot, s: seq<Slot>, t: nat)
    requires t < |s| && Nonzero(s) && d.number != 0 && forall u :: 0 <= u < |s| ==> s[u].number != d.number
    ensures SlotReplyIs(s, t, NextOf([d] + s, t + 1)) && SlotOriginalIs(s, t, PrevOf([d] + s, t + 1)) <==>
            RightDespite(s, d.subject, t)
  {
    FromDeletedReply(d, s, t);
    FromDeletedOriginal(d, s, t);
  }

  /** Links after a walk that starts at a deleted message. */
  lemma LinksFromDeleted(recs: seq<Rec>, crc: string -> word, s: seq<Slot>, p: seq<int>, t: nat, u: nat)
    requires Numbers(recs) && StartsDeleted(recs) && s == LiveSlots(recs, crc) && Listing(recs, crc, s, p) && u == t + 1 <= |s|
    ensures LinksRight(Linked(recs, crc), crc, p[t]) <==> RightDespite(s, KeyOf(EMPTY_MSG, crc), t)
  {
    var d := DeletedSlot(recs, crc);
    TableFromDeleted(recs, crc);
    VisitAfterDeleted(recs, crc, u, t);
    NumbersApart(recs, crc, s, p);
    SlotsFromDeleted(d, s, t);
    LinksOfVisit(recs, crc, [d] + s, s, p, t, u);
  }

  lemma NumbersApart(recs: seq<Rec>, crc: string -> word, s: seq<Slot>, p: seq<int>)
    requires Numbers(recs) && StartsDeleted(recs) && Listing(recs, crc, s, p)
    ensures Nonzero(s) && forall u :: 0 <= u < |s| ==> s[u].number != recs[0].Num()
  {
    forall u | 0 <= u < |s| ensures s[u].number != recs[0].Num() && s[u].number != 0 { assert s[u].number == recs[p[u]].Num(); }
  }

  /** All links are right exactly when no key is e and the last slot follows none. */
  lemma SlotsExactly(s: seq<Slot>, e: word)
    ensures (forall t :: 0 <= t < |s| ==> RightDespite(s, e, t)) <==>
            (forall t :: 0 <= t < |s| ==> s[t].subject != e) && (forall t :: 0 <= t < |s| ==> !BeforeLast(s, t))
  {
    var t := FirstFromIs(s, e, 0, |s|);
    if t < |s| {
      forall u ensures !NextSlot(s, u, t) {}
      assert !RightDespite(s, e, t);
    } else {
      forall u | 0 <= u < |s| ensures RightDespite(s, e, u) <==> !BeforeLast(s, u) { assert s[u].subject != e; }
    }
  }

  /** Threading a base whose first message is deleted, exactly: it makes chains when no message
      has an empty subject's key and the last message is alone with its subject. */
  lemma LinkFromDeleted(recs: seq<Rec>, crc: string -> word)
    requires Numbers(recs) && StartsDeleted(recs)
    ensures Threaded(Linked(recs, crc), crc) <==> NoEmptySubject(recs, crc) && LastAlone(recs, crc)
  {
    var s, e := LiveSlots(recs, crc), KeyOf(EMPTY_MSG, crc);
    var p := Listed(recs, crc);
    forall t | 0 <= t < |s|
      ensures LinksRight(Linked(recs, crc), crc, p[t]) <==> RightDespite(s, e, t)
    {
      LinksFromDeleted(recs, crc, s, p, t, t + 1);
    }
    ThreadedAt(recs, crc, s, p);
    EmptySubjects(recs, crc, s, p);
    if t :| BeforeLast(s, t) { LastFollows(recs, crc, s, p, t); }
    if !LastAlone(recs, crc) { LastShared(recs, crc, s, p); }
    SlotsExactly(s, e);
  }

  /** When the first record's number is the lowest of all, threading makes chains exactly when
      that number is an undeleted message's, or no message has an empty subject's key and the
      last message is alone with its subject. */
  lemma LinkThreadsExactly(recs: seq<Rec>, crc: string -> word)
    requires Numbers(recs) && LowestFirst(recs)
    ensures Threaded(Linked(recs, crc), crc) <==>
            FirstFound(recs) || (NoEmptySubject(recs, crc) && LastAlone(recs, crc))
  {
    if FirstFound(recs) {
      LinkThreads(recs, crc);
    } else {
      DeletedStart(recs);
      LinkFromDeleted(recs, crc);
    }
  }

  // ----- what a second run returns

  /** An undeleted message other than the last has the key of an empty subject. */
  ghost predicate EmptyBeforeLast(recs: seq<Rec>, crc: string -> word)
  {
    exists i :: 0 <= i < |recs| && recs[i].Live() && !LastLive(recs, i) && Key(recs[i], crc) == KeyOf(EMPTY_MSG, crc)
  }

  lemma NextOfFirst(d: Slot, s: seq<Slot>)
    requires Nonzero(s)
    ensures NextOf([d] + s, 0) != 0 <==> exists t :: 0 <= t < |s| - 1 && s[t].subject == d.subject
  {
    var table := [d] + s;
    if s != [] {
      var m := FirstFromIs(table, d.subject, 1, |s|);
      forall t | 0 <= t < m - 1 ensures s[t].subject != d.subject { assert table[t + 1].subject != d.subject; }
      if m < |s| { assert s[m - 1].subject == d.subject; }
    }
  }

  lemma EmptySlots(recs: seq<Rec>, crc: string -> word, s: seq<Slot>, p: seq<int>)
    requires Listing(recs, crc, s, p)
    ensures EmptyBeforeLast(recs, crc) <==> exists t :: 0 <= t < |s| - 1 && s[t].subject == KeyOf(EMPTY_MSG, crc)
  {
    if t: nat :| t < |s| - 1 && s[t].subject == KeyOf(EMPTY_MSG, crc) {
      LastPlace(recs, crc, s, p, t);
      assert recs[p[t]].Live() && Key(recs[p[t]], crc) == KeyOf(EMPTY_MSG, crc);
    }
    if i: nat :| i < |recs| && recs[i].Live() && !LastLive(recs, i) && Key(recs[i], crc) == KeyOf(EMPTY_MSG, crc) {
      var t := PlaceOf(recs, crc, s, p, i);
      LastPlace(recs, crc, s, p, t);
    }
  }

  lemma FirstSlotFollowed(recs: seq<Rec>, crc: string -> word)
    requires Numbers(recs) && StartsDeleted(recs)
    ensures NextOf(Slots(recs, crc), 0) != 0 <==> EmptyBeforeLast(recs, crc)
  {
    var s := LiveSlots(recs, crc);
    var p := Listed(recs, crc);
    TableFromDeleted(recs, crc);
    NumbersApart(recs, crc, s, p);
    NextOfFirst(DeletedSlot(recs, crc), s);
    EmptySlots(recs, crc, s, p);
  }

  lemma DeletedStart(recs: seq<Rec>)
    requires LowestFirst(recs) && !FirstFound(recs)
    ensures StartsDeleted(recs) && Find(recs, recs[0].Num()) < 0
  {
    forall i | 0 <= i < |recs| && recs[i].Live() ensures recs[i].Num() > recs[0].Num() {
      assert !LiveAt(recs, i, recs[0].Num());
    }
  }

  /** An immediate second run changes no header.  When the first record's number is the lowest of
      all it returns 1 exactly when that number is no undeleted message's and an undeleted message
      other than the last has the key of an empty subject, and 0 otherwise. */
  lemma SecondRun(recs: seq<Rec>, crc: string -> word)
    requires Numbers(recs) && LowestFirst(recs)
    ensures var again := Linked(recs, crc);
            && Linked(again, crc) == again
            && LinkCount(again, crc) ==
               if !FirstFound(recs) && EmptyBeforeLast(recs, crc) then 1 else 0
  {
    SecondRunCount(recs, crc);
    if !FirstFound(recs) {
      DeletedStart(recs);
      FirstSlotFollowed(recs, crc);
      if i: nat :| i < |recs| && recs[i].Live() { SomeLive(recs, i); }
    }
  }

  // ----- what a run returns

  /** The records whose links differ. */
  ghost function Changed(recs: seq<Rec>, recs': seq<Rec>): set<int>
    requires |recs'| == |recs|
  {
    set i | 0 <= i < |recs| && (recs'[i].h.replyTo != recs[i].h.replyTo || recs'[i].h.replyNext != recs[i].h.replyNext)
  }

  lemma OneMoreChanged(recs: seq<Rec>, before: seq<Rec>, i: nat, r: Rec)
    requires |before| == |recs| && i < |recs| && before[i] == recs[i]
    requires r.h.replyTo != recs[i].h.replyTo || r.h.replyNext != recs[i].h.replyNext
    ensures Changed(recs, before[i := r]) == Changed(recs, before) + {i} && i !in Changed(recs, before)
  {
  }

  lemma VisitCounted(recs: seq<Rec>, before: seq<Rec>, n: word, prev: word, next: word, i: nat)
    requires |before| == |recs| && i < |recs| && Find(before, n) == i && before[i] == recs[i]
    ensures |Changed(recs, Relink(before, n, prev, next))| == |Changed(recs, before)| + if Changes(before, n, prev, next) then 1 else 0
  {
    LoadedLinks(recs[i]);
    if Changes(before, n, prev, next) {
      OneMoreChanged(recs, before, i, Relink(before, n, prev, next)[i]);
    }
  }

  lemma NotYetVisited(recs: seq<Rec>, crc: string -> word, u: nat, i: nat)
    requires recs != [] && LiveOrdered(recs) && u < |Visits(recs)| && i == Find(recs, Visits(recs)[u])
    ensures var before := LinkedTo(recs, Slots(recs, crc), u); before[i] == recs[i] && Find(before, Visits(recs)[u]) == i
  {
    SlotNumbers(recs, crc, u);
    Untouched(recs, Slots(recs, crc), u, i);
    LinkedKeeps(recs, Slots(recs, crc), u);
    SameNumbers(recs, LinkedTo(recs, Slots(recs, crc), u), Visits(recs)[u]);
  }

  lemma VisitMissed(recs: seq<Rec>, crc: string -> word, u: nat)
    requires recs != [] && LiveOrdered(recs) && u < |Visits(recs)| && Find(recs, Visits(recs)[u]) < 0
    ensures u == 0 && PrevOf(Slots(recs, crc), u) == 0
  {
    if u > 0 { LaterVisitsLive(recs, u); }
  }

  /** The visit of a message that cannot be read, if the table has a message after it. */
  ghost predicate CountsMissed(recs: seq<Rec>, crc: string -> word)
    requires recs != []
  {
    Find(recs, recs[0].Num()) < 0 && NextOf(Slots(recs, crc), 0) != 0
  }

  /** What one more visit changes. */
  lemma ChangedByVisit(recs: seq<Rec>, crc: string -> word, u: nat, before: seq<Rec>, n: word, prev: word, next: word)
    requires recs != [] && LiveOrdered(recs) && u < |Visits(recs)| && n == Visits(recs)[u] && before == LinkedTo(recs, Slots(recs, crc), u)
    requires prev == PrevOf(Slots(recs, crc), u) && next == NextOf(Slots(recs, crc), u)
    ensures (if Changes(before, n, prev, next) then 1 else 0) ==
            |Changed(recs, Relink(before, n, prev, next))| - |Changed(recs, before)| + if u == 0 && CountsMissed(recs, crc) then 1 else 0
  {
    var i := Find(recs, n);
    if i >= 0 {
      NotYetVisited(recs, crc, u, i);
      VisitCounted(recs, before, n, prev, next, i);
    } else {
      VisitMissed(recs, crc, u);
      LinkedKeeps(recs, Slots(recs, crc), u);
      SameNumbers(recs, before, n);
    }
  }

  /** What one more visit counts. */
  lemma CountOfVisit(recs: seq<Rec>, crc: string -> word, u: nat, t: nat, was: seq<Rec>, now: seq<Rec>)
    requires recs != [] && LiveOrdered(recs) && u < |Visits(recs)| && t == u + 1
    requires was == LinkedTo(recs, Slots(recs, crc), u) && now == LinkedTo(recs, Slots(recs, crc), t)
    ensures CountTo(recs, Slots(recs, crc), t) - CountTo(recs, Slots(recs, crc), u) ==
            |Changed(recs, now)| - |Changed(recs, was)| + if u == 0 && CountsMissed(recs, crc) then 1 else 0
  {
    var table := Slots(recs, crc);
    SlotNumbers(recs, crc, u);
    ChangedByVisit(recs, crc, u, was, table[u].number, PrevOf(table, u), NextOf(table, u));
  }

  lemma {:induction false} SumUp(c: nat -> int, d: nat -> int, first: int, n: nat)
    requires c(0) == 0 && d(0) == 0
    requires forall u: nat, t: nat {:trigger c(u), c(t)} :: t == u + 1 <= n ==> c(t) - c(u) == d(t) - d(u) + if u == 0 then first else 0
    ensures c(n) == d(n) + if n > 0 then first else 0
    decreases n
  {
    if n > 0 {
      var u := n - 1;
      SumUp(c, d, first, u);
      assert c(n) - c(u) == d(n) - d(u) + if u == 0 then first else 0;
    }
  }

  /** The counts and the changes after each visit, as functions of the visit. */
  lemma CountsSoFar(recs: seq<Rec>, crc: string -> word, table: seq<Slot>) returns (c: nat -> int, d: nat -> int)
    requires recs != [] && table == Slots(recs, crc)
    ensures forall t: nat :: t <= |table| ==> c(t) == CountTo(recs, table, t)
    ensures forall t: nat :: t <= |table| ==> d(t) == |Changed(recs, LinkedTo(recs, table, t))|
  {
    c := (t: nat) => if t <= |table| then CountTo(recs, table, t) else 0;
    d := (t: nat) => if t <= |table| then |Changed(recs, LinkedTo(recs, table, t))| else 0;
  }

  lemma CountedInAll(recs: seq<Rec>, crc: string -> word, n: nat)
    requires recs != [] && LiveOrdered(recs) && n <= |Visits(recs)|
    ensures var table := Slots(recs, crc);
            CountTo(recs, table, n) == |Changed(recs, LinkedTo(recs, table, n))| + if n > 0 && CountsMissed(recs, crc) then 1 else 0
  {
    var table := Slots(recs, crc);
    var c, d := CountsSoFar(recs, crc, table);
    var first := if CountsMissed(recs, crc) then 1 else 0;
    assert Changed(recs, recs) == {};
    forall u: nat, t: nat {:trigger c(u), c(t)} | t == u + 1 <= n ensures c(t) - c(u) == d(t) - d(u) + if u == 0 then first else 0 {
      CountOfVisit(recs, crc, u, t, LinkedTo(recs, table, u), LinkedTo(recs, table, t));
    }
    SumUp(c, d, first, n);
  }

  /** A run returns how many messages got other links, and one more for a deleted first record
      that an empty subject's message follows. */
  lemma CountIsChanged(recs: seq<Rec>, crc: string -> word)
    requires Numbers(recs) && LowestFirst(recs)
    ensures LinkCount(recs, crc) == |Changed(recs, Linked(recs, crc))| + if !FirstFound(recs) && EmptyBeforeLast(recs, crc) then 1 else 0
  {
    if LiveCount(recs) == 0 {
      assert Changed(recs, recs) == {};
      if i: nat :| i < |recs| && recs[i].Live() { SomeLive(recs, i); }
    } else {
      CountedInAll(recs, crc, |Visits(recs)|);
      if !FirstFound(recs) {
        DeletedStart(recs);
        FirstSlotFollowed(recs, crc);
      }
    }
  }
}
