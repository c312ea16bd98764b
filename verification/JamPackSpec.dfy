/** What packing makes of a message base: the survivors renumbered, their texts moved
    together, and the last-read pointers following them. */
module JamPackSpec {
  import opened Bytes
  import opened JamFormat
  import opened JamText
  import opened JamStore

  function TextOf(h: Hdr, text: string): string { ReadAt(text, h.txtOffset, h.txtLen) }

  function PackedText(recs: seq<Rec>, text: string): string
  {
    if recs == [] then ""
    else
      var init, last := PackedText(recs[..|recs| - 1], text), recs[|recs| - 1];
      if last.Live() then init + TextOf(last.h, text) else init
  }

  function Moved(r: Rec, num: nat, off: nat): Rec
  {
    Rec(r.h.(msgNum := Truncate(num), txtOffset := Truncate(off)), r.fields)
  }

  function PackedRecs(recs: seq<Rec>, text: string): (r: seq<Rec>)
    ensures |r| == LiveCount(recs)
  {
    if recs == [] then []
    else
      var init, last := recs[..|recs| - 1], recs[|recs| - 1];
      if last.Live() then
        PackedRecs(init, text) + [Moved(last, LiveCount(init) + 1, |PackedText(init, text)|)]
      else PackedRecs(init, text)
  }

  /** What a last-read pointer becomes as the records go by: when it equals a record's old
      number it takes the number of survivors so far. */
  function Remap(recs: seq<Rec>, v: word): word
  {
    if recs == [] then v
    else
      var p := Remap(recs[..|recs| - 1], v);
      if p == recs[|recs| - 1].Num() then Truncate(LiveCount(recs)) else p
  }

  function RemapRead(recs: seq<Rec>, lr: LastRead): LastRead
  {
    lr.(lastReadMsg := Remap(recs, lr.lastReadMsg), highReadMsg := Remap(recs, lr.highReadMsg))
  }

  /** The correction of pointers beyond the end of the packed base. */
  function Clamp(active: word, lr: LastRead): LastRead
  {
    if active == 0 then lr.(lastReadMsg := 0, highReadMsg := 0)
    else
      lr.(lastReadMsg := if lr.lastReadMsg > active then active else lr.lastReadMsg,
          highReadMsg := if lr.highReadMsg > active then active else lr.highReadMsg)
  }

  /** The copies written for a pointer record whose user id is the CRC of the user's name:
      one for each of the first n users, the id corrected when the user is met. */
  function ByCrc(users: seq<word>, n: nat, lr: LastRead): (r: (seq<LastRead>, LastRead))
    requires n <= |users|
  {
    if n == 0 then ([], lr)
    else
      var (out, cur) := ByCrc(users, n - 1, lr);
      var now := if cur.userCRC == users[n - 1] then cur.(userID := Truncate(n - 1)) else cur;
      (out + [now], now)
  }

  /** What is kept of a pointer record; users holds the name CRC of each user, if there is
      a user file. */
  function KeptReads(users: Option<seq<word>>, lr: LastRead): seq<LastRead>
  {
    match users
    case None => [lr]
    case Some(us) =>
      if lr.userID == lr.userCRC && lr.userCRC != 0 then ByCrc(us, |us|, lr).0
      else if lr.userID < |us| && us[lr.userID] == lr.userCRC then [lr]
      else []
  }

  function PackedReads(recs: seq<Rec>, active: word, users: Option<seq<word>>, lrs: seq<LastRead>): seq<LastRead>
  {
    if lrs == [] then []
    else
      PackedReads(recs, active, users, lrs[..|lrs| - 1]) +
      KeptReads(users, Clamp(active, RemapRead(recs, lrs[|lrs| - 1])))
  }

  /** The count the packed base ends with: the survivors, or the old count if there are none. */
  function PackedActive(s: Store): word
  {
    if LiveCount(s.recs) > 0 then Truncate(LiveCount(s.recs)) else s.info.activeMsgs
  }

  function Pack(s: Store, users: Option<seq<word>>): Store
  {
    Store(s.info.(activeMsgs := PackedActive(s)), PackedRecs(s.recs, s.text), PackedText(s.recs, s.text),
          PackedReads(s.recs, PackedActive(s), users, s.lastReads))
  }

  // ----- the survivors

  lemma {:induction false} PackedTextRoom(recs: seq<Rec>, text: string)
    requires AllWellFormed(recs, text) && TextsOrdered(recs)
    ensures |PackedText(recs, text)| <= (if recs == [] then 0 else recs[|recs| - 1].h.txtOffset + recs[|recs| - 1].h.txtLen)
  {
    if recs != [] {
      var init := recs[..|recs| - 1];
      assert WellFormed(recs[|recs| - 1], text);
      assert AllWellFormed(init, text) by {
        forall i | 0 <= i < |init| ensures WellFormed(init[i], text) { assert init[i] == recs[i]; }
      }
      PackedTextRoom(init, text);
    }
  }

  /** The t-th survivor (from 0), as an index of the old base. */
  function Survivor(recs: seq<Rec>, t: nat): (i: nat)
    requires t < LiveCount(recs)
    ensures i < |recs| && recs[i].Live() && LiveCount(recs[..i]) == t
  {
    var init := recs[..|recs| - 1];
    if t < LiveCount(init) then
      var i := Survivor(init, t);
      assert init[..i] == recs[..i];
      i
    else |recs| - 1
  }

  lemma LiveCountStep(recs: seq<Rec>, i: nat)
    requires i < |recs|
    ensures LiveCount(recs[..i + 1]) == LiveCount(recs[..i]) + if recs[i].Live() then 1 else 0
  {
    assert recs[..i + 1][..i] == recs[..i];
  }

  lemma {:induction false} LiveCountMonotone(recs: seq<Rec>, i: nat, j: nat)
    requires i <= j <= |recs|
    ensures LiveCount(recs[..i]) <= LiveCount(recs[..j])
  {
    assert recs[..j][..i] == recs[..i];
    LiveCountPrefix(recs[..j], i);
  }

  /** Survivors keep their order. */
  lemma SurvivorsInOrder(recs: seq<Rec>, t: nat, u: nat)
    requires t < u < LiveCount(recs)
    ensures Survivor(recs, t) < Survivor(recs, u)
  {
    var i, j := Survivor(recs, t), Survivor(recs, u);
    if j <= i {
      LiveCountMonotone(recs, j, i);
    }
  }

  /** Every undeleted record is a survivor: it is the one its rank names. */
  lemma EveryLiveSurvives(recs: seq<Rec>, i: nat)
    requires i < |recs| && recs[i].Live()
    ensures LiveCount(recs[..i]) < LiveCount(recs) && Survivor(recs, LiveCount(recs[..i])) == i
  {
    LiveCountStep(recs, i);
    LiveCountMonotone(recs, i + 1, |recs|);
    assert recs[..|recs|] == recs;
    var j := Survivor(recs, LiveCount(recs[..i]));
    LiveCountStep(recs, j);
    if j < i {
      LiveCountMonotone(recs, j + 1, i);
    } else if i < j {
      LiveCountMonotone(recs, i + 1, j);
    }
  }

  lemma {:induction false} PackedAt(recs: seq<Rec>, text: string, t: nat)
    requires t < LiveCount(recs)
    ensures var i := Survivor(recs, t);
            PackedRecs(recs, text)[t] == Moved(recs[i], t + 1, |PackedText(recs[..i], text)|)
  {
    var init := recs[..|recs| - 1];
    if t < LiveCount(init) {
      PackedAt(init, text, t);
      var i := Survivor(init, t);
      assert init[..i] == recs[..i];
    }
  }

  lemma {:induction false} PackedTextPrefix(recs: seq<Rec>, text: string, i: nat)
    requires i <= |recs|
    ensures PackedText(recs[..i], text) <= PackedText(recs, text)
    decreases |recs|
  {
    if i == |recs| {
      assert recs[..i] == recs;
    } else {
      var init := recs[..|recs| - 1];
      assert init[..i] == recs[..i];
      PackedTextPrefix(init, text, i);
    }
  }

  lemma PackedTextStep(recs: seq<Rec>, text: string, i: nat)
    requires i < |recs|
    ensures PackedText(recs[..i + 1], text) == PackedText(recs[..i], text) + if recs[i].Live() then TextOf(recs[i].h, text) else ""
  {
    assert recs[..i + 1][..i] == recs[..i];
  }

  lemma SlicePrefix(a: string, b: string, whole: string)
    requires a + b <= whole
    ensures ReadAt(whole, |a|, |b|) == b
  {
    assert whole == a + b + whole[|a| + |b|..];
    ReadInside(a, b, whole[|a| + |b|..]);
  }

  /** Survivor t of a packed base is old survivor t with a new number and a new place for its
      text: number t + 1, every other header field, the subfields and the text unchanged. */
  lemma SurvivorKept(s: Store, users: Option<seq<word>>, t: nat)
    requires Inv(s) && t < LiveCount(s.recs)
    ensures var was, now := s.recs[Survivor(s.recs, t)], Pack(s, users).recs[t];
            && now == Rec(was.h.(msgNum := now.h.msgNum, txtOffset := now.h.txtOffset), was.fields)
            && now.h.msgNum == t + 1
            && TextOf(now.h, Pack(s, users).text) == TextOf(was.h, s.text)
  {
    var recs, text := s.recs, s.text;
    var i := Survivor(recs, t);
    PackedAt(recs, text, t);
    PackedTextStep(recs, text, i);
    PackedTextPrefix(recs, text, i + 1);
    PackedTextFits(s);
    assert WellFormed(recs[i], text);
    RecordsFew(s);
    SlicePrefix(PackedText(recs[..i], text), TextOf(recs[i].h, text), PackedText(recs, text));
  }

  lemma PackedTextFits(s: Store)
    requires Inv(s)
    ensures |PackedText(s.recs, s.text)| <= |s.text|
  {
    PackedTextRoom(s.recs, s.text);
    if s.recs != [] {
      assert WellFormed(s.recs[|s.recs| - 1], s.text);
    }
  }

  /** The texts of a packed base tile its text file: each starts where the one before ends... */
  lemma TextsAdjoin(s: Store, t: nat, u: nat)
    requires Inv(s) && u < LiveCount(s.recs) && u == t + 1
    ensures var h, next := PackedRecs(s.recs, s.text)[t].h, PackedRecs(s.recs, s.text)[u].h;
            h.txtOffset + h.txtLen == next.txtOffset
  {
    PackedPlace(s, t);
    PackedPlace(s, u);
    NextPlace(s.recs, s.text, t, u);
  }

  /** ... the first at the start and the last at the end of the file. */
  lemma TextsFill(s: Store, last: nat)
    requires Inv(s) && last + 1 == LiveCount(s.recs)
    ensures PackedRecs(s.recs, s.text)[0].h.txtOffset == 0
    ensures var h := PackedRecs(s.recs, s.text)[last].h;
            h.txtOffset + h.txtLen == |PackedText(s.recs, s.text)|
  {
    assert PackedRecs(s.recs, s.text)[0].h.txtOffset == 0 by {
      PackedPlace(s, 0);
      FirstPlace(s.recs, s.text, Survivor(s.recs, 0));
    }
    PackedPlace(s, last);
    LastPlace(s.recs, s.text, last, Survivor(s.recs, last));
  }

  lemma FirstPlace(recs: seq<Rec>, text: string, i: nat)
    requires LiveCount(recs) > 0 && i == Survivor(recs, 0)
    ensures PackedText(recs[..i], text) == ""
  {
    assert recs[..0] == [];
    DeadBetween(recs, text, 0, i);
  }

  lemma LastPlace(recs: seq<Rec>, text: string, t: nat, i: nat)
    requires t + 1 == LiveCount(recs) && i == Survivor(recs, t)
    ensures PackedText(recs[..i + 1], text) == PackedText(recs, text)
  {
    LiveCountStep(recs, i);
    assert recs[..|recs|] == recs;
    DeadBetween(recs, text, i + 1, |recs|);
  }

  lemma NextPlace(recs: seq<Rec>, text: string, t: nat, u: nat)
    requires u < LiveCount(recs) && u == t + 1
    ensures PackedText(recs[..Survivor(recs, t) + 1], text) == PackedText(recs[..Survivor(recs, u)], text)
  {
    var i := Survivor(recs, t);
    LiveCountStep(recs, i);
    SurvivorsInOrder(recs, t, u);
    DeadBetween(recs, text, i + 1, Survivor(recs, u));
  }

  lemma PackedPlace(s: Store, t: nat)
    requires Inv(s) && t < LiveCount(s.recs)
    ensures var i := Survivor(s.recs, t);
            var h := PackedRecs(s.recs, s.text)[t].h;
            && h.txtOffset == |PackedText(s.recs[..i], s.text)|
            && h.txtOffset + h.txtLen == |PackedText(s.recs[..i + 1], s.text)|
  {
    var i := Survivor(s.recs, t);
    PackedAt(s.recs, s.text, t);
    PackedTextStep(s.recs, s.text, i);
    PackedTextFits(s);
    PackedTextPrefix(s.recs, s.text, i);
    assert WellFormed(s.recs[i], s.text);
  }

  /** From k to l the count does not fall, and the text changes only with it. */
  ghost predicate Together<T>(count: nat -> nat, text: nat -> T, k: nat, l: nat)
  {
    count(k) <= count(l) && (count(k) == count(l) ==> text(k) == text(l))
  }

  lemma {:induction false} SameBetween<T>(count: nat -> nat, text: nat -> T, i: nat, j: nat)
    requires i <= j && forall k: nat, l: nat :: i <= k < j && l == k + 1 ==> Together(count, text, k, l)
    ensures Together(count, text, i, j)
    decreases j
  {
    if i < j {
      var k := j - 1;
      SameBetween(count, text, i, k);
      assert Together(count, text, k, j);
    }
  }

  lemma TogetherAt(recs: seq<Rec>, text: string, count: nat -> nat, packed: nat -> string, k: nat, l: nat)
    requires k < |recs| && l == k + 1 && count(k) == LiveCount(recs[..k]) && count(l) == LiveCount(recs[..l])
    requires packed(k) == PackedText(recs[..k], text) && packed(l) == PackedText(recs[..l], text)
    ensures Together(count, packed, k, l)
  {
    LiveCountStep(recs, k);
    PackedTextStep(recs, text, k);
    assert packed(k) + "" == packed(k);
  }

  /** Where the count does not change, neither does the packed text. */
  lemma DeadBetween(recs: seq<Rec>, text: string, i: nat, j: nat)
    requires i <= j <= |recs| && LiveCount(recs[..i]) == LiveCount(recs[..j])
    ensures PackedText(recs[..i], text) == PackedText(recs[..j], text)
  {
    var count := (k: nat) => if k <= |recs| then LiveCount(recs[..k]) else 0;
    var packed := (k: nat) => if k <= |recs| then PackedText(recs[..k], text) else "";
    forall k: nat, l: nat | i <= k < j && l == k + 1 ensures Together(count, packed, k, l) {
      TogetherAt(recs, text, count, packed, k, l);
    }
    SameBetween(count, packed, i, j);
  }

  // ----- the packed base

  lemma {:induction false} PackedNumbers(recs: seq<Rec>, text: string)
    requires |recs| < 0x1_0000_0000
    ensures forall t :: 0 <= t < LiveCount(recs) ==> PackedRecs(recs, text)[t].Num() == t + 1 && PackedRecs(recs, text)[t].Live()
  {
    if recs != [] {
      PackedNumbers(recs[..|recs| - 1], text);
    }
  }

  lemma {:induction false} AllLiveCount(recs: seq<Rec>)
    requires forall t :: 0 <= t < |recs| ==> recs[t].Live()
    ensures LiveCount(recs) == |recs|
  {
    if recs != [] {
      AllLiveCount(recs[..|recs| - 1]);
    }
  }

  lemma {:induction false} PackedSize(recs: seq<Rec>, text: string)
    ensures |RecBytes(PackedRecs(recs, text))| <= |RecBytes(recs)|
  {
    if recs != [] {
      var init, last := recs[..|recs| - 1], recs[|recs| - 1];
      PackedSize(init, text);
      assert recs == init + [last];
      SnocSize(init, last);
      if last.Live() {
        SnocSize(PackedRecs(init, text), Moved(last, LiveCount(init) + 1, |PackedText(init, text)|));
      }
    }
  }

  lemma PackedRecWellFormed(s: Store, t: nat)
    requires Inv(s) && t < LiveCount(s.recs)
    ensures WellFormed(PackedRecs(s.recs, s.text)[t], PackedText(s.recs, s.text))
  {
    var i := Survivor(s.recs, t);
    assert WellFormed(s.recs[i], s.text);
    PackedAt(s.recs, s.text, t);
    PackedPlace(s, t);
    PackedTextPrefix(s.recs, s.text, i + 1);
  }

  lemma PackedInOrder(s: Store, t: nat, u: nat)
    requires Inv(s) && t < u < LiveCount(s.recs)
    ensures var h, later := PackedRecs(s.recs, s.text)[t].h, PackedRecs(s.recs, s.text)[u].h;
            h.txtOffset + h.txtLen <= later.txtOffset
  {
    var h, later := PackedRecs(s.recs, s.text)[t].h, PackedRecs(s.recs, s.text)[u].h;
    var i, j := Survivor(s.recs, t), Survivor(s.recs, u);
    assert h.txtOffset + h.txtLen == |PackedText(s.recs[..i + 1], s.text)| by { PackedPlace(s, t); }
    assert later.txtOffset == |PackedText(s.recs[..j], s.text)| by { PackedPlace(s, u); }
    SurvivorsInOrder(s.recs, t, u);
    TextGrows(s.recs, s.text, i, j);
  }

  lemma TextGrows(recs: seq<Rec>, text: string, i: nat, j: nat)
    requires i < j <= |recs|
    ensures |PackedText(recs[..i + 1], text)| <= |PackedText(recs[..j], text)|
  {
    assert recs[..j][..i + 1] == recs[..i + 1];
    PackedTextPrefix(recs[..j], text, i + 1);
  }

  lemma PackedWellFormed(s: Store)
    requires Inv(s)
    ensures AllWellFormed(PackedRecs(s.recs, s.text), PackedText(s.recs, s.text))
    ensures TextsOrdered(PackedRecs(s.recs, s.text))
  {
    var recs' := PackedRecs(s.recs, s.text);
    forall t | 0 <= t < |recs'|
      ensures WellFormed(recs'[t], PackedText(s.recs, s.text))
    {
      PackedRecWellFormed(s, t);
    }
    forall t, u | 0 <= t < u < |recs'|
      ensures recs'[t].h.txtOffset + recs'[t].h.txtLen <= recs'[u].h.txtOffset
    {
      PackedInOrder(s, t, u);
    }
  }

  /** Packing leaves exactly the survivors, numbered 1 to k, with ActiveMsgs = k, in a base
      that meets the invariant again. */
  lemma PackKeepsInv(s: Store, users: Option<seq<word>>)
    requires Inv(s)
    ensures Inv(Pack(s, users))
    ensures var p := Pack(s, users);
            |p.recs| == LiveCount(s.recs) == p.info.activeMsgs &&
            forall t :: 0 <= t < |p.recs| ==> p.recs[t].Num() == t + 1 && p.recs[t].Live()
  {
    var recs' := PackedRecs(s.recs, s.text);
    RecordsFew(s);
    PackedNumbers(s.recs, s.text);
    AllLiveCount(recs');
    assert Numbered(recs', 0);
    PackedWellFormed(s);
    PackedSize(s.recs, s.text);
    PackedTextFits(s);
  }
}
