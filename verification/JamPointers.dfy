/** Where packing takes the last-read pointers, over every base a run can reach, including
    those whose numbering restarted after all messages were deleted. */
module JamPointers {
  import opened Bytes
  import opened JamFormat
  import opened JamStore
  import opened JamPackSpec

  /** The first record, deleted or not, that bears the number v, or -1. */
  function First(recs: seq<Rec>, v: word): (i: int)
    ensures -1 <= i < |recs|
    ensures i >= 0 ==> recs[i].Num() == v && forall j :: 0 <= j < i ==> recs[j].Num() != v
    ensures i == -1 ==> forall j :: 0 <= j < |recs| ==> recs[j].Num() != v
  {
    if recs == [] then -1
    else
      var i := First(recs[..|recs| - 1], v);
      if i >= 0 then i else if recs[|recs| - 1].Num() == v then |recs| - 1 else -1
  }

  /** Within the running numbering, no more messages survive than the numbers say. */
  lemma {:induction false} SurvivorsBelowNumber(recs: seq<Rec>, k: nat, i: nat)
    requires Numbered(recs, k) && i < |recs|
    ensures LiveCount(recs[..i + 1]) <= (if i < k then 0 else i - k + 1)
    ensures i >= k ==> i - k + 1 <= recs[i].Num()
  {
    LiveCountStep(recs, i);
    if i > 0 {
      SurvivorsBelowNumber(recs, k, i - 1);
    }
  }

  /** No pointer is moved twice: it goes to the number of survivors at or before the first
      record bearing its number, and stays where it is if no record does. */
  lemma {:induction false} PointerMovesOnce(recs: seq<Rec>, k: nat, v: word)
    requires Numbered(recs, k) && |recs| < 0x1_0000_0000
    ensures Remap(recs, v) == if First(recs, v) >= 0 then LiveCount(recs[..First(recs, v) + 1]) else v
  {
    if recs != [] {
      var m := |recs| - 1;
      NumberedPrefix(recs, k);
      PointerMovesOnce(recs[..m], if k <= m then k else m, v);
      LastPointerMove(recs, k, v, m);
    }
  }

  lemma NumberedPrefix(recs: seq<Rec>, k: nat)
    requires Numbered(recs, k) && recs != []
    ensures Numbered(recs[..|recs| - 1], if k <= |recs| - 1 then k else |recs| - 1)
  {
  }

  lemma LastPointerMove(recs: seq<Rec>, k: nat, v: word, m: nat)
    requires Numbered(recs, k) && m + 1 == |recs| < 0x1_0000_0000
    requires Remap(recs[..m], v) == if First(recs[..m], v) >= 0 then LiveCount(recs[..m][..First(recs[..m], v) + 1]) else v
    ensures Remap(recs, v) == if First(recs, v) >= 0 then LiveCount(recs[..First(recs, v) + 1]) else v
  {
    if First(recs[..m], v) >= 0 {
      NewNumberNotLaterOld(recs, k, First(recs[..m], v), m);
    } else {
      assert recs[..m + 1] == recs;
    }
  }

  /** What record i's number becomes is no old number of a later record. */
  lemma NewNumberNotLaterOld(recs: seq<Rec>, k: nat, i: nat, m: nat)
    requires Numbered(recs, k) && i < m < |recs|
    ensures recs[..m][..i + 1] == recs[..i + 1]
    ensures LiveCount(recs[..i + 1]) != recs[m].Num()
  {
    SurvivorsBelowNumber(recs, k, i);
  }

  lemma PointersFollowRecs(recs: seq<Rec>, v: word)
    requires HasNumbering(recs) && |recs| < FILE_LIMIT && First(recs, v) >= 0
    ensures Remap(recs, v) == LiveCount(recs[..First(recs, v) + 1])
    ensures Remap(recs, v) <= LiveCount(recs)
  {
    var k: nat :| Numbered(recs, k);
    PointerMovesOnce(recs, k, v);
    LiveCountPrefix(recs, First(recs, v) + 1);
  }

  /** For every base a run can reach, pointers that name a record follow it, and the later
      clamp, at PackedActive, is never below them. */
  lemma PointersFollow(s: Store, v: word)
    requires Inv(s) && First(s.recs, v) >= 0
    ensures Remap(s.recs, v) == LiveCount(s.recs[..First(s.recs, v) + 1])
    ensures Remap(s.recs, v) <= PackedActive(s)
  {
    RecordsFew(s);
    PointersFollowRecs(s.recs, v);
  }

  /** A whole pointer record that names records comes through the clamp as remapped. */
  lemma ClampKeepsFollowed(s: Store, lr: LastRead)
    requires Inv(s) && First(s.recs, lr.lastReadMsg) >= 0 && First(s.recs, lr.highReadMsg) >= 0
    ensures Clamp(PackedActive(s), RemapRead(s.recs, lr)) == RemapRead(s.recs, lr)
  {
    PointersFollow(s, lr.lastReadMsg);
    PointersFollow(s, lr.highReadMsg);
  }

  /** Two pointers that name records keep their order exactly when the records first bearing
      their numbers are in order, or no undeleted record lies after the one and up to the other. */
  lemma PointersKeepOrder(s: Store, u: word, v: word)
    requires Inv(s) && First(s.recs, u) >= 0 && First(s.recs, v) >= 0
    ensures var i, j := First(s.recs, u), First(s.recs, v);
            Remap(s.recs, u) <= Remap(s.recs, v) <==> i <= j || forall k :: j < k <= i ==> !s.recs[k].Live()
  {
    var i, j := First(s.recs, u), First(s.recs, v);
    assert Remap(s.recs, u) == LiveCount(s.recs[..i + 1]) by { PointersFollow(s, u); }
    assert Remap(s.recs, v) == LiveCount(s.recs[..j + 1]) by { PointersFollow(s, v); }
    CountsCompared(s.recs, i, j);
  }

  lemma CountsCompared(recs: seq<Rec>, i: nat, j: nat)
    requires i < |recs| && j < |recs|
    ensures LiveCount(recs[..i + 1]) <= LiveCount(recs[..j + 1]) <==> i <= j || forall k :: j < k <= i ==> !recs[k].Live()
  {
    if i <= j {
      LiveCountMonotone(recs, i + 1, j + 1);
    } else {
      CountStays(recs, j + 1, i + 1);
    }
  }

  lemma CountNext(recs: seq<Rec>, i: nat, k: nat, j: nat)
    requires i <= k < j <= |recs| && j == k + 1
    ensures LiveCount(recs[..i]) <= LiveCount(recs[..k])
    ensures LiveCount(recs[..j]) == LiveCount(recs[..k]) + if recs[k].Live() then 1 else 0
  {
    LiveCountStep(recs, k);
    LiveCountMonotone(recs, i, k);
  }

  /** The count stays the same exactly while no undeleted record goes by. */
  lemma {:induction false} CountStays(recs: seq<Rec>, i: nat, j: nat)
    requires i <= j <= |recs|
    ensures LiveCount(recs[..j]) <= LiveCount(recs[..i]) <==> forall k :: i <= k < j ==> !recs[k].Live()
    decreases j
  {
    if i < j {
      var k := j - 1;
      CountNext(recs, i, k, j);
      CountStays(recs, i, k);
    }
  }

  /** Numbers run on from record to record, or start again at 1. */
  ghost predicate Successive(recs: seq<Rec>)
  {
    && (recs != [] ==> recs[0].Num() == 1)
    && forall i, j {:trigger recs[i].Num(), recs[j].Num()} ::
         0 <= i && j == i + 1 && j < |recs| ==> recs[j].Num() == 1 || recs[j].Num() == recs[i].Num() + 1
  }

  /** Then every number from 1 up to a record's is borne by that record or one before it. */
  lemma {:induction false} NumberBefore(recs: seq<Rec>, j: nat, v: word) returns (i: nat)
    requires Successive(recs) && j < |recs| && 1 <= v <= recs[j].Num()
    ensures i <= j && recs[i].Num() == v
    decreases j
  {
    i := j;
    if v < recs[j].Num() {
      var k := j - 1;
      assert recs[j].Num() == recs[k].Num() + 1;
      i := NumberBefore(recs, k, v);
    }
  }

  /** Then pointers that name records keep their order. */
  lemma SuccessiveKeepOrder(s: Store, u: word, v: word)
    requires Inv(s) && Successive(s.recs) && First(s.recs, u) >= 0 && First(s.recs, v) >= 0 && u <= v
    ensures Remap(s.recs, u) <= Remap(s.recs, v)
  {
    var j := First(s.recs, v);
    var k: nat :| Numbered(s.recs, k);
    assert s.recs[First(s.recs, u)].Num() >= 1;
    var i := NumberBefore(s.recs, j, u);
    PointersKeepOrder(s, u, v);
  }

  /** A pointer to an undeleted message becomes that message's new number exactly when no
      record before it bears the same number. */
  lemma PointerToLiveMessage(s: Store, i: nat)
    requires Inv(s) && i < |s.recs| && s.recs[i].Live()
    ensures Remap(s.recs, s.recs[i].Num()) == LiveCount(s.recs[..i]) + 1 <==>
            forall j :: 0 <= j < i ==> s.recs[j].Num() != s.recs[i].Num()
  {
    var v := s.recs[i].Num();
    var f := First(s.recs, v);
    PointersFollow(s, v);
    if f < i {
      EarlierNamesakeIsDead(s.recs, f, i);
    } else {
      LiveCountStep(s.recs, i);
    }
  }

  lemma EarlierNamesakeIsDead(recs: seq<Rec>, f: nat, i: nat)
    requires HasNumbering(recs) && f < i < |recs| && recs[f].Num() == recs[i].Num()
    ensures LiveCount(recs[..f + 1]) == 0
  {
    var k: nat :| Numbered(recs, k);
    SurvivorsBelowNumber(recs, k, f);
  }
}
