/** A JAM message base as a value: what its four files mean together, what each operation
    makes of it, and what every run of operations keeps. */
module JamStore {
  import opened Bytes
  import opened JamFormat
  import opened JamText

  /** The message buffer; its flag bits are one word of MSG_* bits. */
  datatype MsgBuf = MsgBuf(id: word, current: word, from: string, to: string, subject: string,
                           flags: word, written: word, arrived: word, read: word,
                           fromAddress: string, toAddress: string, reply: word, original: word,
                           msgIdCRC: word, replyCRC: word, msgid: string, replyid: string)

  const EMPTY_MSG := MsgBuf(0, 0, "", "", "", 0, 0, 0, 0, "", "", 0, 0, 0, 0, "", "")

  datatype Store = Store(info: Info, recs: seq<Rec>, text: string, lastReads: seq<LastRead>)

  function LiveCount(recs: seq<Rec>): (n: nat)
    ensures n <= |recs|
  {
    if recs == [] then 0
    else LiveCount(recs[..|recs| - 1]) + if recs[|recs| - 1].Live() then 1 else 0
  }

  /** Records before k are deleted left-overs of earlier numberings; from k on, deleted or
      not, numbers strictly increase.  No number is 0. */
  ghost predicate Numbered(recs: seq<Rec>, k: nat)
  {
    && k <= |recs|
    && (forall i :: 0 <= i < k ==> !recs[i].Live())
    && (forall i :: 0 <= i < |recs| ==> recs[i].Num() >= 1)
    && (forall i, j {:trigger recs[i].Num(), recs[j].Num()} :: k <= i < j < |recs| ==> recs[i].Num() < recs[j].Num())
  }

  predicate TextInRange(h: Hdr, text: string) { h.txtOffset + h.txtLen <= |text| }

  /** A record this code can read: the JAM signature, a right subfield length, text in the file. */
  predicate WellFormed(r: Rec, text: string)
  {
    r.h.signature % 0x100_0000 == SIGNATURE && |EncFields(r.fields)| == r.h.subfieldLen && TextInRange(r.h, text)
  }

  ghost predicate HasNumbering(recs: seq<Rec>) { exists k: nat :: Numbered(recs, k) }

  predicate AllWellFormed(recs: seq<Rec>, text: string)
  {
    forall i {:trigger WellFormed(recs[i], text)} :: 0 <= i < |recs| ==> WellFormed(recs[i], text)
  }

  /** Texts lie in the text file in message order and do not overlap. */
  ghost predicate TextsOrdered(recs: seq<Rec>)
  {
    forall i, j {:trigger recs[i].h.txtLen, recs[j].h.txtOffset} ::
      0 <= i < j < |recs| ==> recs[i].h.txtOffset + recs[i].h.txtLen <= recs[j].h.txtOffset
  }

  const FILE_LIMIT: nat := 0x8000_0000

  /** Sizes are file positions, which `tell` returns in an int. */
  predicate Fits(s: Store)
  {
    INFO_SIZE + |RecBytes(s.recs)| < FILE_LIMIT && |s.text| < FILE_LIMIT
  }

  ghost predicate Inv(s: Store)
  {
    && s.info.signature == SIGNATURE && |s.info.reserved| == RESERVED_SIZE
    && s.info.activeMsgs == LiveCount(s.recs)
    && HasNumbering(s.recs)
    && AllWellFormed(s.recs, s.text)
    && TextsOrdered(s.recs)
    && Fits(s)
  }

  ghost predicate LiveAt(recs: seq<Rec>, i: int, n: word)
  {
    0 <= i < |recs| && recs[i].Live() && recs[i].Num() == n
  }

  lemma {:induction false} LiveCountPrefix(recs: seq<Rec>, i: nat)
    requires i <= |recs|
    ensures LiveCount(recs[..i]) <= LiveCount(recs)
    ensures LiveCount(recs[..i]) == LiveCount(recs) ==> forall j :: i <= j < |recs| ==> !recs[j].Live()
    decreases |recs|
  {
    if i < |recs| {
      assert recs[..|recs| - 1][..i] == recs[..i];
      LiveCountPrefix(recs[..|recs| - 1], i);
    } else {
      assert recs[..i] == recs;
    }
  }

  lemma NoneLive(recs: seq<Rec>)
    requires LiveCount(recs) == 0
    ensures forall j :: 0 <= j < |recs| ==> !recs[j].Live()
  {
    LiveCountPrefix(recs, 0);
  }

  lemma SomeLive(recs: seq<Rec>, i: nat)
    requires i < |recs| && recs[i].Live()
    ensures LiveCount(recs) > 0
  {
    if LiveCount(recs) == 0 {
      NoneLive(recs);
    }
  }

  /** Far fewer records than an unsigned int can count. */
  lemma RecordsFew(s: Store)
    requires Inv(s)
    ensures |s.recs| < FILE_LIMIT
  {
    RecordsTakeRoom(s.recs);
  }

  lemma {:induction false} RecordsTakeRoom(recs: seq<Rec>)
    ensures |RecBytes(recs)| >= HDR_SIZE * |recs|
  {
    if recs != [] {
      RecordsTakeRoom(recs[..|recs| - 1]);
    }
  }

  /** Undeleted numbers are unique and increase in index order, and while there are
      undeleted messages the last record, deleted or not, has the highest number. */
  lemma NumbersOrdered(s: Store)
    requires Inv(s)
    ensures forall i, j :: 0 <= i < j < |s.recs| && s.recs[i].Live() && s.recs[j].Live() ==> s.recs[i].Num() < s.recs[j].Num()
    ensures forall i :: 0 <= i < |s.recs| && s.recs[i].Live() ==> s.recs[i].Num() <= s.recs[|s.recs| - 1].Num()
  {
    var k: nat :| Numbered(s.recs, k);
  }

  // ----- adding

  /** The subfields that come from the message buffer itself. */
  function HeadFields(m: MsgBuf): seq<Field>
  {
    [Field(SFLD_SENDERNAME, m.from)] +
    (if m.to != "" then [Field(SFLD_RECVRNAME, m.to)] else []) +
    [Field(SFLD_SUBJECT, m.subject)] +
    (if m.fromAddress != "" then [Field(SFLD_OADDRESS, m.fromAddress)] else []) +
    (if m.toAddress != "" then [Field(SFLD_DADDRESS, m.toAddress)] else [])
  }

  /** The highest number as the source finds it: the last record's, if anything is active. */
  function Highest(s: Store): word
  {
    if s.info.activeMsgs > 0 && s.recs != [] then s.recs[|s.recs| - 1].Num() else 0
  }

  /** The header written for message m, given its number, and where its subfields and text went. */
  function NewHdr(m: MsgBuf, num: word, subLen: word, off: word, len: word): Hdr
  {
    Hdr(SIGNATURE, 1, subLen, 0, m.msgIdCRC, m.replyCRC, m.original, 0, m.reply, m.written, m.read, m.arrived,
        num, m.flags, 0, off, len, 0, 0)
  }

  /** The record added for message m with subfields fs and n characters of text. */
  function AddedRec(s: Store, m: MsgBuf, fs: seq<Field>, n: nat): Rec
  {
    Rec(NewHdr(m, Truncate(Highest(s) + 1), Truncate(|EncFields(fs)|), Truncate(|s.text|), Truncate(n)), fs)
  }

  function AddRec(s: Store, m: MsgBuf, fs: seq<Field>, body: string): Store
  {
    s.(info := s.info.(activeMsgs := Truncate(s.info.activeMsgs + 1), modCounter := Truncate(s.info.modCounter + 1)),
       recs := s.recs + [AddedRec(s, m, fs, |body|)],
       text := s.text + body)
  }

  function FieldsOf(m: MsgBuf, lines: seq<string>): seq<Field> { HeadFields(m) + KludgeFields(lines) }

  /** Adding message m with the given lines. */
  function Add(s: Store, m: MsgBuf, lines: seq<string>): Store
  {
    AddRec(s, m, FieldsOf(m, lines), BodyText(lines))
  }

  predicate CanAddRec(s: Store, m: MsgBuf, fs: seq<Field>, body: string)
  {
    && m.flags < MSG_DELETED
    && Highest(s) + 1 < 0x1_0000_0000
    && INFO_SIZE + |RecBytes(s.recs)| + HDR_SIZE + |EncFields(fs)| < FILE_LIMIT
    && |s.text| + |body| < FILE_LIMIT
  }

  /** What the caller of an addition must see to: the deleted flag is clear, and the numbers
      and file positions still fit their words. */
  predicate CanAdd(s: Store, m: MsgBuf, lines: seq<string>)
  {
    CanAddRec(s, m, FieldsOf(m, lines), BodyText(lines))
  }

  lemma AppendNumberedAt(recs: seq<Rec>, k: nat, r: Rec)
    requires Numbered(recs, k) && r.Num() >= 1 && (k < |recs| ==> recs[|recs| - 1].Num() < r.Num())
    ensures Numbered(recs + [r], k)
  {
    var all := recs + [r];
    forall i, j | k <= i < j < |all|
      ensures all[i].Num() < all[j].Num()
    {
      assert all[i] == recs[i];
    }
  }

  lemma AppendNumbered(recs: seq<Rec>, r: Rec)
    requires HasNumbering(recs)
    requires r.Num() == (if LiveCount(recs) > 0 then recs[|recs| - 1].Num() + 1 else 1)
    ensures HasNumbering(recs + [r])
  {
    var k: nat :| Numbered(recs, k);
    if LiveCount(recs) == 0 {
      NoneLive(recs);
      AppendNumberedAt(recs, |recs|, r);
    } else {
      if k == |recs| { AllDead(recs); }
      AppendNumberedAt(recs, k, r);
    }
  }

  lemma AppendWellFormed(recs: seq<Rec>, r: Rec, text: string, more: string)
    requires AllWellFormed(recs, text)
    requires WellFormed(r, text + more)
    ensures AllWellFormed(recs + [r], text + more)
  {
    var all := recs + [r];
    forall i | 0 <= i < |all|
      ensures WellFormed(all[i], text + more)
    {
      assert i < |recs| ==> all[i] == recs[i] && WellFormed(recs[i], text);
    }
  }

  lemma AppendTextsOrdered(recs: seq<Rec>, r: Rec, text: string)
    requires AllWellFormed(recs, text) && TextsOrdered(recs) && r.h.txtOffset == |text|
    ensures TextsOrdered(recs + [r])
  {
    var all := recs + [r];
    forall i, j | 0 <= i < j < |all|
      ensures all[i].h.txtOffset + all[i].h.txtLen <= all[j].h.txtOffset
    {
      assert all[i] == recs[i];
      assert WellFormed(recs[i], text);
    }
  }

  lemma LiveCountSnoc(recs: seq<Rec>, r: Rec)
    ensures LiveCount(recs + [r]) == LiveCount(recs) + if r.Live() then 1 else 0
  {
    assert (recs + [r])[..|recs|] == recs;
  }

  lemma SnocSize(recs: seq<Rec>, r: Rec)
    ensures |RecBytes(recs + [r])| == |RecBytes(recs)| + HDR_SIZE + |EncFields(r.fields)|
  {
    RecBytesSnoc(recs, r);
  }

  lemma NextNumbered(s: Store, r: Rec)
    requires Inv(s) && r.Num() == Highest(s) + 1
    ensures HasNumbering(s.recs + [r])
  {
    AppendNumbered(s.recs, r);
  }

  lemma NextShape(s: Store, r: Rec, more: string)
    requires Inv(s) && WellFormed(r, s.text + more) && r.h.txtOffset == |s.text|
    ensures AllWellFormed(s.recs + [r], s.text + more) && TextsOrdered(s.recs + [r])
  {
    AppendWellFormed(s.recs, r, s.text, more);
    AppendTextsOrdered(s.recs, r, s.text);
  }

  /** Adding a record with the next number keeps the invariant. */
  lemma AppendKeepsInv(s: Store, s': Store, r: Rec, more: string)
    requires Inv(s) && s'.recs == s.recs + [r] && s'.text == s.text + more && Fits(s')
    requires r.Live() && WellFormed(r, s'.text) && r.Num() == Highest(s) + 1 && r.h.txtOffset == |s.text|
    requires s'.info.signature == SIGNATURE && |s'.info.reserved| == RESERVED_SIZE
    requires s'.info.activeMsgs == s.info.activeMsgs + 1
    ensures Inv(s')
  {
    NextNumbered(s, r);
    NextShape(s, r, more);
    LiveCountSnoc(s.recs, r);
  }

  lemma AddedRecRight(s: Store, m: MsgBuf, fs: seq<Field>, body: string)
    requires CanAddRec(s, m, fs, body)
    ensures var r := AddedRec(s, m, fs, |body|);
            r.Live() && r.Num() == Highest(s) + 1 && r.h.txtOffset == |s.text| && WellFormed(r, s.text + body)
  {
  }

  lemma AddRecKeepsInv(s: Store, m: MsgBuf, fs: seq<Field>, body: string)
    requires Inv(s) && CanAddRec(s, m, fs, body)
    ensures Inv(AddRec(s, m, fs, body))
    ensures Highest(AddRec(s, m, fs, body)) == Highest(s) + 1
  {
    var s', r := AddRec(s, m, fs, body), AddedRec(s, m, fs, |body|);
    SnocSize(s.recs, r);
    RecordsFew(s);
    assert Fits(s');
    AddedRecRight(s, m, fs, body);
    assert s'.info.activeMsgs == s.info.activeMsgs + 1;
    AppendKeepsInv(s, s', r, body);
  }

  lemma AddKeepsInv(s: Store, m: MsgBuf, lines: seq<string>)
    requires Inv(s) && CanAdd(s, m, lines)
    ensures Inv(Add(s, m, lines))
    ensures Highest(Add(s, m, lines)) == Highest(s) + 1
  {
    AddRecKeepsInv(s, m, FieldsOf(m, lines), BodyText(lines));
  }

  lemma {:induction false} AllDead(recs: seq<Rec>)
    requires forall i :: 0 <= i < |recs| ==> !recs[i].Live()
    ensures LiveCount(recs) == 0
  {
    if recs != [] {
      AllDead(recs[..|recs| - 1]);
    }
  }

  // ----- deleting

  /** The index of the undeleted message with number n, or -1. */
  function Find(recs: seq<Rec>, n: word): (i: int)
    ensures i == -1 || LiveAt(recs, i, n)
    ensures i == -1 ==> forall j :: !LiveAt(recs, j, n)
  {
    if recs == [] then -1
    else if recs[|recs| - 1].Live() && recs[|recs| - 1].Num() == n then |recs| - 1
    else
      var i := Find(recs[..|recs| - 1], n);
      assert forall j :: LiveAt(recs, j, n) ==> LiveAt(recs[..|recs| - 1], j, n);
      i
  }

  function Marked(r: Rec): Rec
  {
    if r.Live() then r.(h := r.h.(attribute := r.h.attribute + MSG_DELETED)) else r
  }

  function Delete(s: Store, n: word): Store
  {
    var i := Find(s.recs, n);
    if i < 0 then s
    else s.(info := s.info.(activeMsgs := (s.info.activeMsgs - 1) % 0x1_0000_0000), recs := s.recs[i := Marked(s.recs[i])])
  }

  lemma {:induction false} LiveCountUpdate(recs: seq<Rec>, i: nat, r: Rec)
    requires i < |recs|
    ensures LiveCount(recs[i := r]) == LiveCount(recs) - (if recs[i].Live() then 1 else 0) + (if r.Live() then 1 else 0)
  {
    var last := |recs| - 1;
    if i == last {
      assert recs[i := r][..last] == recs[..last];
    } else {
      assert recs[i := r][..last] == recs[..last][i := r];
      LiveCountUpdate(recs[..last], i, r);
    }
  }

  /** Replacing a record's header by one with the same number, subfields, text range and a
      deleted mark at least as strong keeps everything but the count. */
  lemma ReplaceKeeps(s: Store, i: nat, h: Hdr, active: word)
    requires Inv(s) && i < |s.recs|
    requires var was := s.recs[i].h;
             h.signature == was.signature && h.subfieldLen == was.subfieldLen && h.msgNum == was.msgNum &&
             h.txtOffset == was.txtOffset && h.txtLen == was.txtLen && (was.Deleted() ==> h.Deleted())
    requires active == s.info.activeMsgs - (if s.recs[i].Live() then 1 else 0) + (if h.Deleted() then 0 else 1)
    ensures Inv(s.(info := s.info.(activeMsgs := active), recs := s.recs[i := Rec(h, s.recs[i].fields)]))
  {
    var r := Rec(h, s.recs[i].fields);
    assert WellFormed(s.recs[i], s.text);
    LiveCountUpdate(s.recs, i, r);
    ReplaceNumbered(s.recs, i, r);
    ReplaceSize(s.recs, i, h);
    ReplaceWellFormed(s.recs, i, r, s.text);
    ReplaceTextsOrdered(s.recs, i, r);
  }

  lemma ReplaceTextsOrdered(recs: seq<Rec>, i: nat, r: Rec)
    requires i < |recs| && TextsOrdered(recs) && r.h.txtOffset == recs[i].h.txtOffset && r.h.txtLen == recs[i].h.txtLen
    ensures TextsOrdered(recs[i := r])
  {
  }

  lemma ReplaceNumbered(recs: seq<Rec>, i: nat, r: Rec)
    requires i < |recs| && (HasNumbering(recs)) && r.Num() == recs[i].Num() && (r.Live() ==> recs[i].Live())
    ensures HasNumbering(recs[i := r])
  {
    var k: nat :| Numbered(recs, k);
    assert Numbered(recs[i := r], k);
  }

  lemma ReplaceSize(recs: seq<Rec>, i: nat, h: Hdr)
    requires i < |recs|
    ensures |RecBytes(recs[i := Rec(h, recs[i].fields)])| == |RecBytes(recs)|
  {
    var recs2 := recs[i := Rec(h, recs[i].fields)];
    OffsetsKept(recs, i, h, |recs|);
    assert recs2[..|recs|] == recs2 && recs[..|recs|] == recs;
  }

  lemma ReplaceWellFormed(recs: seq<Rec>, i: nat, r: Rec, text: string)
    requires i < |recs| && WellFormed(r, text)
    requires AllWellFormed(recs, text)
    ensures AllWellFormed(recs[i := r], text)
  {
    var recs2 := recs[i := r];
    forall j | 0 <= j < |recs2|
      ensures WellFormed(recs2[j], text)
    {
      assert WellFormed(recs[j], text);
    }
  }

  lemma DeleteKeepsInv(s: Store, n: word)
    requires Inv(s)
    ensures Inv(Delete(s, n))
  {
    var i := Find(s.recs, n);
    if i >= 0 {
      SomeLive(s.recs, i);
      ReplaceKeeps(s, i, Marked(s.recs[i]).h, s.info.activeMsgs - 1);
    }
  }

  // ----- rewriting a header

  /** A header rewritten from the message buffer. */
  function Rewritten(h: Hdr, m: MsgBuf): Hdr
  {
    h.(attribute := m.flags, replyTo := m.original, replyNext := m.reply, dateReceived := m.read,
       msgIdCRC := m.msgIdCRC, replyCRC := m.replyCRC)
  }

  function Write(s: Store, n: word, m: MsgBuf): Store
  {
    var i := Find(s.recs, n);
    if i < 0 then s else s.(recs := s.recs[i := Rec(Rewritten(s.recs[i].h, m), s.recs[i].fields)])
  }

  lemma WriteKeepsInv(s: Store, n: word, m: MsgBuf)
    requires Inv(s) && m.flags < MSG_DELETED
    ensures Inv(Write(s, n, m))
  {
    var i := Find(s.recs, n);
    if i >= 0 {
      ReplaceKeeps(s, i, Rewritten(s.recs[i].h, m), s.info.activeMsgs);
    }
  }

  // ----- the files that hold a store

  ghost predicate IndexOf(jdx: seq<Idx>, recs: seq<Rec>)
  {
    |jdx| == |recs| && forall i {:trigger Offset(recs, i)} :: 0 <= i < |recs| ==> jdx[i].hdrOffset == Offset(recs, i)
  }

  /** The header and index files hold exactly these records. */
  ghost predicate FilesHold(hdr: string, jdx: seq<Idx>, info: Info, recs: seq<Rec>)
  {
    hdr == HdrFile(info, recs) && IndexOf(jdx, recs)
  }

  lemma AppendFiles(hdr: string, jdx: seq<Idx>, info: Info, recs: seq<Rec>, h: Hdr, fs: seq<Field>, idx: Idx)
    requires FilesHold(hdr, jdx, info, recs) && idx.hdrOffset == |hdr| && |info.reserved| == RESERVED_SIZE
    ensures FilesHold(hdr + EncHdr(h) + EncFields(fs), jdx + [idx], info, recs + [Rec(h, fs)])
  {
    var r := Rec(h, fs);
    RecBytesSnoc(recs, r);
    Associative(hdr, EncHdr(h), EncFields(fs));
    Associative(EncInfo(info), RecBytes(recs), EncRec(r));
    OffsetEnd(info, recs);
    AppendIndex(jdx, recs, r, idx);
  }

  lemma AppendIndex(jdx: seq<Idx>, recs: seq<Rec>, r: Rec, idx: Idx)
    requires IndexOf(jdx, recs) && idx.hdrOffset == Offset(recs, |recs|)
    ensures IndexOf(jdx + [idx], recs + [r])
  {
    var recs2, jdx2 := recs + [r], jdx + [idx];
    forall i | 0 <= i < |recs2|
      ensures jdx2[i].hdrOffset == Offset(recs2, i)
    {
      OffsetOfPrefix(recs, [r], i);
    }
  }

  lemma OffsetOfPrefix(recs: seq<Rec>, more: seq<Rec>, i: nat)
    requires i <= |recs|
    ensures Offset(recs + more, i) == Offset(recs, i)
  {
    assert (recs + more)[..i] == recs[..i];
  }

  lemma RewriteFiles(hdr: string, jdx: seq<Idx>, info: Info, recs: seq<Rec>, i: nat, h: Hdr)
    requires FilesHold(hdr, jdx, info, recs) && i < |recs| && |info.reserved| == RESERVED_SIZE
    ensures jdx[i].hdrOffset <= |hdr|
    ensures FilesHold(WriteAt(hdr, jdx[i].hdrOffset, EncHdr(h)), jdx, info, recs[i := Rec(h, recs[i].fields)])
  {
    RewriteHeader(info, recs, i, h);
    assert jdx[i].hdrOffset == Offset(recs, i);
    var recs2 := recs[i := Rec(h, recs[i].fields)];
    forall j | 0 <= j < |recs2|
      ensures jdx[j].hdrOffset == Offset(recs2, j)
    {
      OffsetsKept(recs, i, h, j);
    }
  }

  lemma TruncateSum(a: nat, b: nat)
    ensures Truncate(Truncate(a) + b) == Truncate(a + b)
  {
  }
}
