/** Packing a threaded base: the links keep the old numbers of the messages they lead to. */
module MsgLinkPack {
  import opened Bytes
  import opened JamFormat
  import opened JamStore
  import opened JamBases
  import opened JamHeaders
  import opened JamPackSpec
  import opened MsgLinkSpec
  import opened MsgLinkChains

  /** Undeleted record i has the number that packing gives it. */
  predicate KeepsNumber(recs: seq<Rec>, i: int)
    requires 0 <= i < |recs|
  {
    recs[i].Num() == LiveCount(recs[..i]) + 1
  }

  /** Every message that is linked to another keeps its number in packing. */
  ghost predicate LinkedKeepNumbers(recs: seq<Rec>, crc: string -> word)
  {
    forall i, j :: Adjacent(recs, crc, i, j) ==> KeepsNumber(recs, i) && KeepsNumber(recs, j)
  }

  // ----- slots that are renumbered

  /** The same keys, numbered from 1. */
  ghost predicate Renumbered(s: seq<Slot>, s': seq<Slot>)
  {
    && |s'| == |s|
    && forall t {:trigger s'[t]} {:trigger s[t]} :: 0 <= t < |s| ==> s'[t].subject == s[t].subject && s'[t].number == t + 1
  }

  lemma NextRenumbered(s: seq<Slot>, s': seq<Slot>, t: int, u: int)
    requires Renumbered(s, s')
    ensures NextSlot(s', t, u) <==> NextSlot(s, t, u)
  {
  }

  lemma ReplyRenumbered(s: seq<Slot>, s': seq<Slot>, t: int, x: word)
    requires Renumbered(s, s') && SlotReplyIs(s, t, x) && Nonzero(s)
    ensures SlotReplyIs(s', t, x) <==> forall u :: NextSlot(s, t, u) ==> s[u].number == u + 1
  {
    forall u ensures NextSlot(s', t, u) <==> NextSlot(s, t, u) { NextRenumbered(s, s', t, u); }
  }

  lemma OriginalRenumbered(s: seq<Slot>, s': seq<Slot>, u: int, x: word)
    requires Renumbered(s, s') && SlotOriginalIs(s, u, x) && Nonzero(s)
    ensures SlotOriginalIs(s', u, x) <==> forall t :: NextSlot(s, t, u) ==> s[t].number == t + 1
  {
    forall t ensures NextSlot(s', t, u) <==> NextSlot(s, t, u) { NextRenumbered(s, s', t, u); }
  }

  // ----- the packed records

  /** out holds the records that p lists, with their keys and links, numbered from 1. */
  ghost predicate PackedFrom(recs: seq<Rec>, crc: string -> word, p: seq<int>, out: seq<Rec>)
  {
    && |out| == |p|
    && forall t {:trigger p[t]} {:trigger out[t]} :: 0 <= t < |p| ==>
         && 0 <= p[t] < |recs| && out[t].Live() && out[t].Num() == t + 1 && Key(out[t], crc) == Key(recs[p[t]], crc)
         && out[t].h.replyTo == recs[p[t]].h.replyTo && out[t].h.replyNext == recs[p[t]].h.replyNext
  }

  lemma PackedRight(recs: seq<Rec>, text: string, crc: string -> word, p: seq<int>)
    requires LiveCount(recs) < 0x1_0000_0000 && Survivors(recs, p)
    ensures PackedFrom(recs, crc, p, PackedRecs(recs, text))
  {
    var out := PackedRecs(recs, text);
    forall t | 0 <= t < |p|
      ensures out[t].Live() && out[t].Num() == t + 1 && Key(out[t], crc) == Key(recs[p[t]], crc)
      ensures out[t].h.replyTo == recs[p[t]].h.replyTo && out[t].h.replyNext == recs[p[t]].h.replyNext
    {
      PackedAt(recs, text, t);
      SameSubject(out[t], recs[p[t]]);
    }
  }

  function SlotsOf(out: seq<Rec>, crc: string -> word): (s: seq<Slot>)
    ensures |s| == |out| && forall t :: 0 <= t < |out| ==> s[t] == Slot(Key(out[t], crc), out[t].Num())
  {
    seq(|out|, t requires 0 <= t < |out| => Slot(Key(out[t], crc), out[t].Num()))
  }

  function Places(n: nat): (q: seq<int>)
    ensures |q| == n && forall t :: 0 <= t < n ==> q[t] == t
  {
    seq(n, t => t)
  }

  lemma PackedListing(recs: seq<Rec>, crc: string -> word, s: seq<Slot>, p: seq<int>, out: seq<Rec>)
    requires Listing(recs, crc, s, p) && PackedFrom(recs, crc, p, out)
    ensures Listing(out, crc, SlotsOf(out, crc), Places(|out|)) && Renumbered(s, SlotsOf(out, crc))
  {
    var q := Places(|out|);
    forall i | 0 <= i < |out| ensures i in q { assert q[i] == i; }
    forall t | 0 <= t < |s| ensures s[t].subject == Key(out[t], crc) && out[t].Num() == t + 1 {
      assert s[t].subject == Key(recs[p[t]], crc);
    }
  }

  /** The slots next to slot t with its key have their places for numbers. */
  ghost predicate NeighboursKept(s: seq<Slot>, t: int)
  {
    && (forall u :: NextSlot(s, t, u) ==> s[u].number == u + 1)
    && (forall u :: NextSlot(s, u, t) ==> s[u].number == u + 1)
  }

  ghost predicate PairsKept(s: seq<Slot>)
  {
    forall t, u :: NextSlot(s, t, u) ==> s[t].number == t + 1 && s[u].number == u + 1
  }

  lemma AllNeighboursKept(s: seq<Slot>)
    ensures (forall t :: 0 <= t < |s| ==> NeighboursKept(s, t)) <==> PairsKept(s)
  {
    if forall t :: 0 <= t < |s| ==> NeighboursKept(s, t) {
      forall t, u | NextSlot(s, t, u) ensures s[t].number == t + 1 && s[u].number == u + 1 {
        assert NeighboursKept(s, t) && NeighboursKept(s, u);
      }
    }
  }

  /** Survivor t's links are right exactly when its neighbours keep their numbers. */
  lemma PackedLinks(recs: seq<Rec>, crc: string -> word, s: seq<Slot>, p: seq<int>, out: seq<Rec>, t: nat)
    requires Listing(recs, crc, s, p) && PackedFrom(recs, crc, p, out) && Nonzero(s) && t < |p| && LinksRight(recs, crc, p[t])
    ensures LinksRight(out, crc, t) <==> NeighboursKept(s, t)
  {
    var s', q := SlotsOf(out, crc), Places(|out|);
    var next, prev := recs[p[t]].h.replyNext, recs[p[t]].h.replyTo;
    assert out[t].h.replyNext == next && out[t].h.replyTo == prev && q[t] == t;
    PackedListing(recs, crc, s, p, out);
    RightReply(recs, crc, s, p, t, next);
    RightOriginal(recs, crc, s, p, t, prev);
    RightReply(out, crc, s', q, t, next);
    RightOriginal(out, crc, s', q, t, prev);
    ReplyRenumbered(s, s', t, next);
    OriginalRenumbered(s, s', t, prev);
  }

  /** The packed base is threaded exactly when slots that follow each other keep their numbers. */
  lemma PackedThreaded(recs: seq<Rec>, crc: string -> word, s: seq<Slot>, p: seq<int>, out: seq<Rec>)
    requires Listing(recs, crc, s, p) && PackedFrom(recs, crc, p, out) && Nonzero(s)
    requires Threaded(recs, crc)
    ensures Threaded(out, crc) <==> PairsKept(s)
  {
    forall t | 0 <= t < |out| ensures out[t].Live() && (LinksRight(out, crc, t) <==> NeighboursKept(s, t)) {
      assert recs[p[t]].Live();
      PackedLinks(recs, crc, s, p, out, t);
    }
    AllNeighboursKept(s);
  }

  /** p lists the survivors. */
  ghost predicate Survivors(recs: seq<Rec>, p: seq<int>)
  {
    |p| == LiveCount(recs) && forall t {:trigger p[t]} :: 0 <= t < |p| ==> p[t] == Survivor(recs, t)
  }

  lemma KeptNumber(recs: seq<Rec>, crc: string -> word, s: seq<Slot>, p: seq<int>, t: nat)
    requires Listing(recs, crc, s, p) && Survivors(recs, p) && t < |p|
    ensures s[t].number == t + 1 <==> KeepsNumber(recs, p[t])
  {
    assert p[t] == Survivor(recs, t);
  }

  lemma KeptPair(recs: seq<Rec>, crc: string -> word, s: seq<Slot>, p: seq<int>, i: nat, j: nat)
    requires Listing(recs, crc, s, p) && Survivors(recs, p) && PairsKept(s) && Adjacent(recs, crc, i, j)
    ensures KeepsNumber(recs, i) && KeepsNumber(recs, j)
  {
    var t := PlaceOf(recs, crc, s, p, i);
    var u := PlaceOf(recs, crc, s, p, j);
    AdjacentSlots(recs, crc, s, p, t, u);
    KeptNumber(recs, crc, s, p, t);
    KeptNumber(recs, crc, s, p, u);
  }

  /** Numbers kept among slots are numbers kept among records. */
  lemma KeptSlots(recs: seq<Rec>, crc: string -> word, s: seq<Slot>, p: seq<int>)
    requires Listing(recs, crc, s, p) && Survivors(recs, p)
    ensures LinkedKeepNumbers(recs, crc) <==> PairsKept(s)
  {
    if PairsKept(s) {
      forall i, j | Adjacent(recs, crc, i, j) ensures KeepsNumber(recs, i) && KeepsNumber(recs, j) {
        KeptPair(recs, crc, s, p, i, j);
      }
    }
    if LinkedKeepNumbers(recs, crc) {
      forall t, u | NextSlot(s, t, u) ensures s[t].number == t + 1 && s[u].number == u + 1 {
        AdjacentSlots(recs, crc, s, p, t, u);
        KeptNumber(recs, crc, s, p, t);
        KeptNumber(recs, crc, s, p, u);
      }
    }
  }

  /** A threaded base is still threaded after packing exactly when every message that is linked
      to another has the number packing gives it already. */
  lemma PackKeepsThreads(s: Store, users: Option<seq<word>>, crc: string -> word)
    requires Inv(s) && Threaded(s.recs, crc)
    ensures Threaded(Pack(s, users).recs, crc) <==> LinkedKeepNumbers(s.recs, crc)
  {
    var recs, slots := s.recs, LiveSlots(s.recs, crc);
    var p := Listed(recs, crc);
    RecordsFew(s);
    PackedRight(recs, s.text, crc, p);
    LiveNumbered(recs, crc, slots, p);
    PackedThreaded(recs, crc, slots, p, PackedRecs(recs, s.text));
    KeptSlots(recs, crc, slots, p);
  }

  lemma LiveNumbered(recs: seq<Rec>, crc: string -> word, s: seq<Slot>, p: seq<int>)
    requires HasNumbering(recs) && Listing(recs, crc, s, p)
    ensures Nonzero(s)
  {
    var k: nat :| Numbered(recs, k);
    forall t | 0 <= t < |s| ensures s[t].number != 0 { assert s[t].number == recs[p[t]].Num(); }
  }

  /** Threading again after packing makes the chains right, whatever the numbers were. */
  lemma PackThenLink(s: Store, users: Option<seq<word>>, crc: string -> word)
    requires Inv(s)
    ensures Threaded(Linked(Pack(s, users).recs, crc), crc)
  {
    var out := PackedRecs(s.recs, s.text);
    RecordsFew(s);
    forall t | 0 <= t < |out| ensures out[t].Num() == t + 1 && out[t].Live() { PackedAt(s.recs, s.text, t); }
    if out != [] {
      assert LiveAt(out, 0, out[0].Num());
      LinkThreads(out, crc);
    }
  }
}
