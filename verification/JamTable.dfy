/** What packing makes of the last-read table, record by record. */
module JamTables {
  import opened Bytes
  import opened JamFormat
  import opened JamStore
  import opened JamPackSpec
  import opened JamPointers

  function Lower(a: int, b: int): int { if a < b then a else b }

  /** A pointer to a record goes to the number of survivors at or before it, any other one no
      further than to the last message. */
  predicate Follows(recs: seq<Rec>, p: word, q: word)
  {
    var i := First(recs, p);
    q == if i >= 0 then LiveCount(recs[..i + 1]) else Lower(p, LiveCount(recs))
  }

  /** The same user name with both pointers moved. */
  predicate Repointing(recs: seq<Rec>, lr: LastRead, r: LastRead)
  {
    r.userCRC == lr.userCRC && Follows(recs, lr.lastReadMsg, r.lastReadMsg) && Follows(recs, lr.highReadMsg, r.highReadMsg)
  }

  /** The id has the CRC of the user's name in its place. */
  predicate CrcForId(lr: LastRead) { lr.userID == lr.userCRC && lr.userCRC != 0 }

  /** User m is the last one of that name CRC among the first k + 1. */
  ghost predicate LastUser(us: seq<word>, crc: word, k: int, m: int)
  {
    0 <= m <= k < |us| && us[m] == crc && forall j :: m < j <= k ==> us[j] != crc
  }

  /** The id in the copy for user k: the number of the last user of that name met so far, or
      the id it came with if there was none yet. */
  ghost predicate IdFor(us: seq<word>, lr: LastRead, k: int, id: word)
  {
    && (forall m :: LastUser(us, lr.userCRC, k, m) ==> id == m % 0x1_0000_0000)
    && ((forall m :: !LastUser(us, lr.userCRC, k, m)) ==> id == lr.userID)
  }

  /** What packing leaves of one record: a copy for every user if it has a CRC for an id, and
      otherwise the record itself if its user is there, or if there is no user file. */
  ghost predicate Leaves(recs: seq<Rec>, users: Option<seq<word>>, lr: LastRead, out: seq<LastRead>)
  {
    match users
    case None => |out| == 1 && Repointing(recs, lr, out[0]) && out[0].userID == lr.userID
    case Some(us) =>
      if CrcForId(lr) then
        |out| == |us| && forall k :: 0 <= k < |us| ==> Repointing(recs, lr, out[k]) && IdFor(us, lr, k, out[k].userID)
      else if lr.userID < |us| && us[lr.userID] == lr.userCRC then
        |out| == 1 && Repointing(recs, lr, out[0]) && out[0].userID == lr.userID
      else out == []
  }

  function Flatten(outs: seq<seq<LastRead>>): seq<LastRead>
  {
    if outs == [] then [] else Flatten(outs[..|outs| - 1]) + outs[|outs| - 1]
  }

  /** lrs is what the records of the table leave, one after the other. */
  ghost predicate LeftOf(recs: seq<Rec>, users: Option<seq<word>>, was: seq<LastRead>, lrs: seq<LastRead>, outs: seq<seq<LastRead>>)
  {
    |outs| == |was| && lrs == Flatten(outs) && forall i :: 0 <= i < |was| ==> Leaves(recs, users, was[i], outs[i])
  }

  // ----- pointers

  lemma PointerFollows(s: Store, p: word)
    requires Inv(s)
    ensures Follows(s.recs, p, Lower(Remap(s.recs, p), LiveCount(s.recs)))
  {
    var k: nat :| Numbered(s.recs, k);
    RecordsFew(s);
    PointerMovesOnce(s.recs, k, p);
    var i := First(s.recs, p);
    if i >= 0 { LiveCountPrefix(s.recs, i + 1); }
  }

  lemma ActiveCount(s: Store)
    requires Inv(s)
    ensures PackedActive(s) == LiveCount(s.recs)
  {
    PackKeepsInv(s, None);
  }

  lemma ClampFollows(s: Store, lr: LastRead)
    requires Inv(s)
    ensures var r := Clamp(PackedActive(s), RemapRead(s.recs, lr)); Repointing(s.recs, lr, r) && r.userID == lr.userID
  {
    PointerFollows(s, lr.lastReadMsg);
    PointerFollows(s, lr.highReadMsg);
    ActiveCount(s);
  }

  // ----- one record

  lemma {:induction false} CopyIds(us: seq<word>, n: nat, lr: LastRead)
    requires n <= |us|
    ensures var (out, cur) := ByCrc(us, n, lr);
            && |out| == n && cur == lr.(userID := cur.userID)
            && (forall k :: 0 <= k < n ==> out[k] == lr.(userID := out[k].userID) && IdFor(us, lr, k, out[k].userID))
            && cur.userID == if n == 0 then lr.userID else out[n - 1].userID
    decreases n
  {
    if n > 0 {
      CopyIds(us, n - 1, lr);
      NextId(us, lr, n - 1, ByCrc(us, n - 1, lr).1.userID);
    }
  }

  lemma SameLastUser(us: seq<word>, crc: word, k: nat, j: nat)
    requires k == j + 1 < |us| && us[k] != crc
    ensures forall m :: LastUser(us, crc, k, m) ==> LastUser(us, crc, j, m)
    ensures forall m :: LastUser(us, crc, j, m) ==> LastUser(us, crc, k, m)
  {
  }

  /** One more user. */
  lemma NextId(us: seq<word>, lr: LastRead, k: nat, before: word)
    requires k < |us| && if k == 0 then before == lr.userID else IdFor(us, lr, k - 1, before)
    ensures IdFor(us, lr, k, if lr.userCRC == us[k] then Truncate(k) else before)
  {
    if lr.userCRC == us[k] {
      assert LastUser(us, lr.userCRC, k, k);
    } else if k > 0 {
      SameLastUser(us, lr.userCRC, k, k - 1);
    }
  }

  lemma RecordLeaves(s: Store, users: Option<seq<word>>, lr: LastRead)
    requires Inv(s)
    ensures Leaves(s.recs, users, lr, KeptReads(users, Clamp(PackedActive(s), RemapRead(s.recs, lr))))
  {
    var r := Clamp(PackedActive(s), RemapRead(s.recs, lr));
    ClampFollows(s, lr);
    if users.Some? && CrcForId(lr) {
      CopyIds(users.value, |users.value|, r);
    }
  }

  // ----- the table

  lemma {:induction false} TableLeft(s: Store, users: Option<seq<word>>, was: seq<LastRead>) returns (outs: seq<seq<LastRead>>)
    requires Inv(s)
    ensures LeftOf(s.recs, users, was, PackedReads(s.recs, PackedActive(s), users, was), outs)
    decreases |was|
  {
    if was == [] {
      outs := [];
    } else {
      var lr := was[|was| - 1];
      var init := TableLeft(s, users, was[..|was| - 1]);
      RecordLeaves(s, users, lr);
      outs := init + [KeptReads(users, Clamp(PackedActive(s), RemapRead(s.recs, lr)))];
      assert outs[..|outs| - 1] == init;
    }
  }

  /** The packed table is what its records leave, in their order. */
  ghost predicate TablePacked(s: Store, users: Option<seq<word>>, lrs: seq<LastRead>)
  {
    exists outs :: LeftOf(s.recs, users, s.lastReads, lrs, outs)
  }

  lemma PackedTable(s: Store, users: Option<seq<word>>)
    requires Inv(s)
    ensures TablePacked(s, users, Pack(s, users).lastReads)
  {
    var outs := TableLeft(s, users, s.lastReads);
  }
}
