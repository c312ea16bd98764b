/** An original and its replies: which subjects have one key, and what threading makes of them. */
module MsgLinkReplies {
  import opened Bytes
  import opened JamFormat
  import opened JamStore
  import opened JamHeaders
  import opened MsgLinkSpec
  import opened MsgLinkChains

  // ----- upper and lower case

  /** u is the capital of the letter l. */
  predicate CapitalOf(l: char, u: char) { 'a' <= l <= 'z' && u as int == l as int - 32 }

  predicate SameLetter(a: char, b: char) { a == b || CapitalOf(a, b) || CapitalOf(b, a) }

  /** The strings differ at most in the case of letters. */
  ghost predicate SameButCase(a: string, b: string)
  {
    |a| == |b| && forall k :: 0 <= k < |a| ==> SameLetter(a[k], b[k])
  }

  lemma OneLetter(a: char, b: char)
    ensures ToUpper(a) == ToUpper(b) <==> SameLetter(a, b)
  {
  }

  lemma {:induction false} UpperMerges(a: string, b: string)
    ensures Upper(a) == Upper(b) <==> SameButCase(a, b)
    decreases |a|
  {
    if a != "" && b != "" {
      OneLetter(a[0], b[0]);
      UpperMerges(a[1..], b[1..]);
      HeadTailSame(a, b);
      var c, d, s, t := ToUpper(a[0]), ToUpper(b[0]), Upper(a[1..]), Upper(b[1..]);
      ConsSame(c, s, d, t);
    }
  }

  lemma ConsSame(c: char, s: string, d: char, t: string)
    ensures [c] + s == [d] + t <==> c == d && s == t
  {
    if [c] + s == [d] + t { assert ([c] + s)[0] == c && ([c] + s)[1..] == s && ([d] + t)[0] == d && ([d] + t)[1..] == t; }
  }

  lemma HeadTailSame(a: string, b: string)
    requires a != "" && b != ""
    ensures SameButCase(a, b) <==> SameLetter(a[0], b[0]) && SameButCase(a[1..], b[1..])
  {
    if SameLetter(a[0], b[0]) && SameButCase(a[1..], b[1..]) {
      forall k | 0 <= k < |a| ensures SameLetter(a[k], b[k]) {
        if k > 0 { assert SameLetter(a[1..][k - 1], b[1..][k - 1]); }
      }
    }
  }

  // ----- the key of a subject

  /** s starts with RE: in any case. */
  predicate ReMark(s: string)
  {
    |s| >= 3 && (s[0] == 'R' || s[0] == 'r') && (s[1] == 'E' || s[1] == 'e') && s[2] == ':'
  }

  predicate LeadingBlank(s: string) { s != "" && s[0] == ' ' }

  lemma {:induction false} UpperFrom(s: string, k: nat)
    requires k <= |s|
    ensures Upper(s)[k..] == Upper(s[k..])
    ensures forall i :: 0 <= i < k ==> Upper(s)[i] == ToUpper(s[i])
    decreases k
  {
    if k > 0 {
      UpperFrom(s, k - 1);
      var rest := s[k - 1..];
      assert Upper(rest)[0] == ToUpper(rest[0]) && Upper(rest)[1..] == Upper(rest[1..]);
      NextFrom(s, k);
      NextFrom(Upper(s), k);
    }
  }

  lemma NextFrom(s: string, k: nat)
    requires 1 <= k <= |s|
    ensures s[k - 1..][1..] == s[k..] && s[k - 1..][0] == s[k - 1]
  {
  }

  lemma MarkUpper(s: string)
    ensures ReMark(s) <==> "RE:" <= Upper(s)
    ensures ReMark(s) ==> Upper(s)[3..] == Upper(s[3..])
  {
    if |s| >= 3 {
      UpperFrom(s, 3);
      OneLetter(s[0], 'R');
      OneLetter(s[1], 'E');
      OneLetter(s[2], ':');
      assert CapitalOf('r', 'R') && CapitalOf('e', 'E');
      var u := Upper(s);
      assert u[0] == ToUpper(s[0]) && u[1] == ToUpper(s[1]) && u[2] == ToUpper(s[2]);
      assert "RE:" <= u <==> u[0] == 'R' && u[1] == 'E' && u[2] == ':';
    }
  }

  lemma BlankUpper(s: string)
    ensures LeadingBlank(s) <==> " " <= Upper(s)
    ensures LeadingBlank(s) ==> Upper(s)[1..] == Upper(s[1..])
  {
    if s != "" {
      OneLetter(s[0], ' ');
      UpperFrom(s, 1);
    }
  }

  /** The key is the CRC of the upper-case subject; of a subject behind RE: in any case that of
      what follows, and one blank after the mark does not count. */
  lemma KeyCases(m: MsgBuf, crc: string -> word)
    ensures var s := m.subject;
            KeyOf(m, crc) == if !ReMark(s) then crc(Upper(s))
                             else if LeadingBlank(s[3..]) then crc(Upper(s[4..]))
                             else crc(Upper(s[3..]))
  {
    var s := m.subject;
    MarkUpper(s);
    if ReMark(s) {
      BlankUpper(s[3..]);
      if LeadingBlank(s[3..]) { assert s[3..][1..] == s[4..]; }
    }
  }

  lemma MarkedSubject(re: string, t: string, m: MsgBuf, crc: string -> word)
    requires ReMark(re) && |re| == 3 && !LeadingBlank(t)
    ensures m.subject == re + t || m.subject == re + " " + t ==> KeyOf(m, crc) == crc(Upper(t))
  {
    KeyCases(m, crc);
    if m.subject == re + t {
      assert m.subject[3..] == t;
    } else if m.subject == re + " " + t {
      assert m.subject[4..] == t && m.subject[3..] == " " + t;
    }
  }

  /** Replies to t have one key, with or without a blank after the mark and whatever the case of
      the mark.  It is the key of t itself, whatever the CRC, exactly when t is no reply. */
  lemma ReplyKeys(re: string, t: string, original: MsgBuf, reply: MsgBuf)
    requires ReMark(re) && |re| == 3 && !LeadingBlank(t)
    requires original.subject == t && (reply.subject == re + t || reply.subject == re + " " + t)
    ensures forall crc: string -> word :: KeyOf(reply, crc) == crc(Upper(t))
    ensures (forall crc: string -> word :: KeyOf(original, crc) == KeyOf(reply, crc)) <==> !ReMark(t)
  {
    forall crc: string -> word ensures KeyOf(reply, crc) == crc(Upper(t)) { MarkedSubject(re, t, reply, crc); }
    if ReMark(t) {
      var only: string -> word := s => if s == Upper(t) then 1 else 0;
      KeyCases(original, only);
      assert KeyOf(original, only) == 0 && KeyOf(reply, only) == 1;
    } else {
      forall crc: string -> word ensures KeyOf(original, crc) == KeyOf(reply, crc) { KeyCases(original, crc); }
    }
  }

  // ----- the subjects of one thread

  /** s is t, or t behind a reply mark and perhaps one blank, up to the case of letters. */
  ghost predicate InThread(s: string, t: string)
  {
    || SameButCase(s, t)
    || (ReMark(s) && (SameButCase(s[3..], t) || (LeadingBlank(s[3..]) && SameButCase(s[4..], t))))
  }

  /** A subject as its original has it. */
  predicate Bare(t: string) { !ReMark(t) && !LeadingBlank(t) }

  lemma SameMark(s: string, t: string)
    requires SameButCase(s, t)
    ensures ReMark(s) <==> ReMark(t)
    ensures LeadingBlank(s) <==> LeadingBlank(t)
  {
  }

  /** The subjects of a thread have its key. */
  lemma ThreadKey(m: MsgBuf, t: string, crc: string -> word)
    requires Bare(t) && InThread(m.subject, t)
    ensures KeyOf(m, crc) == crc(Upper(t))
  {
    var s := m.subject;
    KeyCases(m, crc);
    UpperMerges(s, t);
    if SameButCase(s, t) {
      SameMark(s, t);
    } else {
      UpperMerges(s[3..], t);
      if SameButCase(s[3..], t) { SameMark(s[3..], t); } else { UpperMerges(s[4..], t); }
    }
  }

  /** Other subjects have the thread's key only if their CRCs collide. */
  lemma StrangerKey(m: MsgBuf, t: string, crc: string -> word)
    requires Bare(t) && !InThread(m.subject, t) && KeyOf(m, crc) == crc(Upper(t))
    ensures exists other: string :: other != Upper(t) && crc(other) == crc(Upper(t))
  {
    var s := m.subject;
    KeyCases(m, crc);
    UpperMerges(s, t);
    if ReMark(s) {
      UpperMerges(s[3..], t);
      if LeadingBlank(s[3..]) { UpperMerges(s[4..], t); }
    }
  }

  // ----- the chain of a thread

  function Subject(r: Rec): string { Take(TextIn(r.fields, 6), 100) }

  lemma SubjectRead(r: Rec)
    ensures Loaded(r).subject == Subject(r)
  {
    HeaderFills(r);
  }

  /** Record i is undeleted and its subject is in the thread of t. */
  ghost predicate Member(recs: seq<Rec>, t: string, i: int)
  {
    0 <= i < |recs| && recs[i].Live() && InThread(Subject(recs[i]), t)
  }

  ghost predicate NextMember(recs: seq<Rec>, t: string, i: int, j: int)
  {
    Member(recs, t, i) && Member(recs, t, j) && i < j && forall k :: i < k < j ==> !Member(recs, t, k)
  }

  /** x is the number of the next message of the thread, or 0 at its end. */
  ghost predicate NextIs(recs: seq<Rec>, t: string, i: int, x: word)
  {
    if x == 0 then forall j :: !NextMember(recs, t, i, j)
    else exists j :: NextMember(recs, t, i, j) && x == recs[j].Num()
  }

  /** x is the number of the message of the thread before, or 0 at its start. */
  ghost predicate LastIs(recs: seq<Rec>, t: string, i: int, x: word)
  {
    if x == 0 then forall j :: !NextMember(recs, t, j, i)
    else exists j :: NextMember(recs, t, j, i) && x == recs[j].Num()
  }

  /** The messages of the thread are one doubly linked chain in message order. */
  ghost predicate OneChain(recs: seq<Rec>, t: string)
  {
    forall i :: Member(recs, t, i) ==> NextIs(recs, t, i, recs[i].h.replyNext) && LastIs(recs, t, i, recs[i].h.replyTo)
  }

  /** Record k is undeleted and not in the thread of t, but has its key. */
  ghost predicate Stranger(recs: seq<Rec>, crc: string -> word, t: string, k: int)
  {
    0 <= k < |recs| && recs[k].Live() && !InThread(Subject(recs[k]), t) && Key(recs[k], crc) == crc(Upper(t))
  }

  ghost predicate NoMember(recs: seq<Rec>, t: string) { forall i :: !Member(recs, t, i) }

  ghost predicate NoStranger(recs: seq<Rec>, crc: string -> word, t: string) { forall k :: !Stranger(recs, crc, t, k) }

  lemma MemberKey(recs: seq<Rec>, crc: string -> word, t: string, i: int)
    requires Bare(t) && Member(recs, t, i)
    ensures Key(recs[i], crc) == crc(Upper(t))
  {
    SubjectRead(recs[i]);
    ThreadKey(Loaded(recs[i]), t, crc);
  }

  /** Without strangers a thread's messages are those with its key. */
  lemma KeyIsMember(recs: seq<Rec>, crc: string -> word, t: string, i: nat)
    requires Bare(t) && NoStranger(recs, crc, t) && i < |recs| && recs[i].Live()
    ensures Member(recs, t, i) <==> Key(recs[i], crc) == crc(Upper(t))
  {
    if Member(recs, t, i) { MemberKey(recs, crc, t, i); }
    assert !Stranger(recs, crc, t, i);
  }

  lemma NextIsAdjacent(recs: seq<Rec>, crc: string -> word, t: string, i: int, j: int)
    requires Bare(t) && NoStranger(recs, crc, t) && (Member(recs, t, i) || Member(recs, t, j))
    ensures NextMember(recs, t, i, j) <==> Adjacent(recs, crc, i, j)
  {
    forall k: nat | k < |recs| && recs[k].Live() ensures Member(recs, t, k) <==> Key(recs[k], crc) == crc(Upper(t)) {
      KeyIsMember(recs, crc, t, k);
    }
  }

  lemma ChainAt(recs: seq<Rec>, crc: string -> word, t: string, i: int)
    requires Bare(t) && NoStranger(recs, crc, t) && Member(recs, t, i) && LinksRight(recs, crc, i)
    ensures NextIs(recs, t, i, recs[i].h.replyNext) && LastIs(recs, t, i, recs[i].h.replyTo)
  {
    forall j ensures NextMember(recs, t, i, j) <==> Adjacent(recs, crc, i, j) { NextIsAdjacent(recs, crc, t, i, j); }
    forall j ensures NextMember(recs, t, j, i) <==> Adjacent(recs, crc, j, i) { NextIsAdjacent(recs, crc, t, j, i); }
  }

  /** Between two messages with one key, of which one is in the thread and one is not, there are
      two next to each other. */
  lemma {:induction false} MeetingPoint(recs: seq<Rec>, crc: string -> word, t: string, i: int, k: int) returns (a: int, b: int)
    requires 0 <= i < k < |recs| && recs[i].Live() && recs[k].Live() && Key(recs[i], crc) == Key(recs[k], crc) == crc(Upper(t))
    requires Member(recs, t, i) != Member(recs, t, k)
    ensures Adjacent(recs, crc, a, b) && Member(recs, t, a) != Member(recs, t, b)
    decreases k - i
  {
    if m: int :| i < m < k && recs[m].Live() && Key(recs[m], crc) == Key(recs[i], crc) {
      if Member(recs, t, m) == Member(recs, t, i) {
        a, b := MeetingPoint(recs, crc, t, m, k);
      } else {
        a, b := MeetingPoint(recs, crc, t, i, m);
      }
    } else {
      a, b := i, k;
    }
  }

  lemma NextIsMember(recs: seq<Rec>, t: string, a: int, b: nat)
    requires Numbers(recs) && b < |recs| && recs[b].Live() && NextIs(recs, t, a, recs[b].Num())
    ensures Member(recs, t, b)
  {
    var j: nat :| NextMember(recs, t, a, j) && recs[b].Num() == recs[j].Num();
    SameNumberSame(recs, j, b);
  }

  lemma LastIsMember(recs: seq<Rec>, t: string, a: nat, b: int)
    requires Numbers(recs) && a < |recs| && recs[a].Live() && LastIs(recs, t, b, recs[a].Num())
    ensures Member(recs, t, a)
  {
    var j: nat :| NextMember(recs, t, j, b) && recs[a].Num() == recs[j].Num();
    SameNumberSame(recs, j, a);
  }

  /** Messages next to each other are linked both ways. */
  ghost predicate NeighboursLinked(recs: seq<Rec>, crc: string -> word)
  {
    forall a, b :: Adjacent(recs, crc, a, b) ==> recs[a].h.replyNext == recs[b].Num() && recs[b].h.replyTo == recs[a].Num()
  }

  lemma ThreadedNeighbours(recs: seq<Rec>, crc: string -> word)
    requires Numbers(recs) && Threaded(recs, crc)
    ensures NeighboursLinked(recs, crc)
  {
    forall a, b | Adjacent(recs, crc, a, b)
      ensures recs[a].h.replyNext == recs[b].Num() && recs[b].h.replyTo == recs[a].Num()
    {
      LinksAgree(recs, crc, a, b);
    }
  }

  /** Two messages next to each other, one of them not in the thread, are linked, so the thread
      is no chain of its own. */
  lemma MeetingBreaks(recs: seq<Rec>, crc: string -> word, t: string, a: int, b: int)
    requires Numbers(recs) && NeighboursLinked(recs, crc)
    requires Adjacent(recs, crc, a, b) && Member(recs, t, a) != Member(recs, t, b)
    ensures !OneChain(recs, t)
  {
    if Member(recs, t, a) {
      if NextIs(recs, t, a, recs[b].Num()) { NextIsMember(recs, t, a, b); }
    } else {
      if LastIs(recs, t, b, recs[a].Num()) { LastIsMember(recs, t, a, b); }
    }
  }

  lemma StrangerBreaks(recs: seq<Rec>, crc: string -> word, t: string, i: int, k: int)
    requires Bare(t) && Numbers(recs) && NeighboursLinked(recs, crc) && Member(recs, t, i) && Stranger(recs, crc, t, k)
    ensures !OneChain(recs, t)
  {
    MemberKey(recs, crc, t, i);
    var a, b;
    if i < k { a, b := MeetingPoint(recs, crc, t, i, k); } else { a, b := MeetingPoint(recs, crc, t, k, i); }
    MeetingBreaks(recs, crc, t, a, b);
  }

  /** In a threaded base an original and its replies are one chain exactly when no other subject
      has their CRC. */
  lemma ThreadIsChain(recs: seq<Rec>, crc: string -> word, t: string)
    requires Bare(t) && Numbers(recs) && Threaded(recs, crc)
    ensures OneChain(recs, t) <==> NoMember(recs, t) || NoStranger(recs, crc, t)
  {
    if NoStranger(recs, crc, t) {
      forall i | Member(recs, t, i)
        ensures NextIs(recs, t, i, recs[i].h.replyNext) && LastIs(recs, t, i, recs[i].h.replyTo)
      {
        assert LinksRight(recs, crc, i);
        ChainAt(recs, crc, t, i);
      }
    } else if i :| Member(recs, t, i) {
      var k :| Stranger(recs, crc, t, k);
      ThreadedNeighbours(recs, crc);
      StrangerBreaks(recs, crc, t, i, k);
    }
  }

  lemma SameMembers(recs: seq<Rec>, recs': seq<Rec>, crc: string -> word, t: string)
    requires SameMessages(recs, recs')
    ensures NoMember(recs', t) <==> NoMember(recs, t)
    ensures NoStranger(recs', crc, t) <==> NoStranger(recs, crc, t)
  {
    forall i: int ensures Member(recs', t, i) <==> Member(recs, t, i)
                  ensures Stranger(recs', crc, t, i) <==> Stranger(recs, crc, t, i) {
      if 0 <= i < |recs| {
        assert SameMessage(recs[i], recs'[i]);
        SameSubject(recs[i], recs'[i]);
      }
    }
  }

  lemma SameNumbering(recs: seq<Rec>, recs': seq<Rec>)
    requires SameMessages(recs, recs') && Numbers(recs)
    ensures Numbers(recs')
  {
    SameOrder(recs, recs');
    forall i | 0 <= i < |recs'| ensures recs'[i].Num() >= 1 { assert SameMessage(recs[i], recs'[i]); }
  }

  /** Threading a base whose first message is undeleted makes an original and its replies one
      chain exactly when no other subject has their CRC. */
  lemma LinkChainsReplies(recs: seq<Rec>, crc: string -> word, t: string)
    requires Bare(t) && Numbers(recs) && StartsLive(recs)
    ensures OneChain(Linked(recs, crc), t) <==> NoMember(recs, t) || NoStranger(recs, crc, t)
  {
    LinkThreads(recs, crc);
    LinkKeeps(recs, crc);
    SameNumbering(recs, Linked(recs, crc));
    SameMembers(recs, Linked(recs, crc), crc, t);
    ThreadIsChain(Linked(recs, crc), crc, t);
  }
}
