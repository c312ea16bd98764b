/** What comes back of a message's header after it was added or rewritten. */
module JamMessages {
  import opened Bytes
  import opened JamFormat
  import opened JamText
  import opened JamStore
  import opened JamHeaders
  import opened JamBases
  import opened JamReading

  /** What follows the tag in the last of the lines that start with it. */
  function AfterTag(lines: seq<string>, tag: string): string
  {
    if lines == [] then ""
    else if tag <= lines[|lines| - 1] then lines[|lines| - 1][|tag|..]
    else AfterTag(lines[..|lines| - 1], tag)
  }

  /** The id of the subfield that a line becomes: an id of its own for message and reply ids, and
      none of those of names, subject and addresses. */
  lemma LineId(l: string)
    requires PlaceOf(l).Sub?
    ensures var id := PlaceOf(l).field.LoId();
            && (id == 4 <==> [1 as char] + "MSGID: " <= l) && (id == 5 <==> [1 as char] + "REPLY: " <= l)
            && id !in [0, 1, 2, 3, 6]
    ensures PlaceOf(l).field.LoId() in [4, 5] ==> PlaceOf(l).field.data == l[8..]
  {
    TagChars();
  }

  lemma TaggedIsSub(l: string)
    requires MSGID_TAG <= l || REPLY_TAG <= l
    ensures PlaceOf(l).Sub?
  {
    TagChars();
  }

  lemma {:induction false} KludgeIds(lines: seq<string>, id: word)
    requires id in [0, 1, 2, 3, 6]
    ensures forall k :: 0 <= k < |KludgeFields(lines)| ==> KludgeFields(lines)[k].LoId() != id
  {
    if lines != [] {
      var l := lines[|lines| - 1];
      KludgeIds(lines[..|lines| - 1], id);
      if PlaceOf(l).Sub? { LineId(l); }
    }
  }

  lemma TextInSnoc(fs: seq<Field>, f: Field, id: word)
    ensures TextIn(fs + [f], id) == if f.LoId() == id then f.data else TextIn(fs, id)
  {
    assert (fs + [f])[..|fs|] == fs;
  }

  lemma {:induction false} KludgeTexts(lines: seq<string>)
    ensures TextIn(KludgeFields(lines), 4) == AfterTag(lines, [1 as char] + "MSGID: ")
    ensures TextIn(KludgeFields(lines), 5) == AfterTag(lines, [1 as char] + "REPLY: ")
  {
    if lines != [] {
      var init, l := lines[..|lines| - 1], lines[|lines| - 1];
      KludgeTexts(init);
      if PlaceOf(l).Sub? {
        LineId(l);
        TextInSnoc(KludgeFields(init), PlaceOf(l).field, 4);
        TextInSnoc(KludgeFields(init), PlaceOf(l).field, 5);
      } else if MSGID_TAG <= l || REPLY_TAG <= l {
        TaggedIsSub(l);
      }
    }
  }

  lemma TextInMore(fs: seq<Field>, c: bool, f: Field, more: seq<Field>, id: word)
    requires more == if c then [f] else []
    ensures TextIn(fs + more, id) == if c && f.LoId() == id then f.data else TextIn(fs, id)
  {
    if c { TextInSnoc(fs, f, id); } else { assert fs + [] == fs; }
  }

  /** The part of the message buffer that stands under an id. */
  function PartOf(m: MsgBuf, id: word): string
  {
    if id == 2 then m.from else if id == 3 then m.to else if id == 6 then m.subject
    else if id == 0 then m.fromAddress else if id == 1 then m.toAddress else ""
  }

  /** The text under an id in five subfields, some of them there only on a condition. */
  lemma TextInFive(a: Field, hasB: bool, b: Field, c: Field, hasD: bool, d: Field, hasE: bool, e: Field, id: word)
    ensures TextIn([a] + (if hasB then [b] else []) + [c] + (if hasD then [d] else []) + (if hasE then [e] else []), id)
         == if hasE && e.LoId() == id then e.data
            else if hasD && d.LoId() == id then d.data
            else if c.LoId() == id then c.data
            else if hasB && b.LoId() == id then b.data
            else if a.LoId() == id then a.data else ""
  {
    var ab := [a] + if hasB then [b] else [];
    var abc := ab + [c];
    var abcd := abc + if hasD then [d] else [];
    TextInMore([a], hasB, b, if hasB then [b] else [], id);
    TextInSnoc(ab, c, id);
    TextInMore(abc, hasD, d, if hasD then [d] else [], id);
    TextInMore(abcd, hasE, e, if hasE then [e] else [], id);
  }

  lemma HeadText(m: MsgBuf, id: word)
    ensures TextIn(HeadFields(m), id) == PartOf(m, id)
  {
    TextInFive(Field(SFLD_SENDERNAME, m.from), m.to != "", Field(SFLD_RECVRNAME, m.to), Field(SFLD_SUBJECT, m.subject),
               m.fromAddress != "", Field(SFLD_OADDRESS, m.fromAddress), m.toAddress != "", Field(SFLD_DADDRESS, m.toAddress), id);
  }

  lemma LastOfText(fs: seq<Field>, id: word)
    ensures (exists k :: LastOf(fs, id, k)) || TextIn(fs, id) == ""
    ensures (forall k :: 0 <= k < |fs| ==> fs[k].LoId() != id) ==> !exists k :: LastOf(fs, id, k)
  {
    if forall k :: 0 <= k < |fs| ==> fs[k].LoId() != id {
      TextOfNone(fs, id);
    } else {
      LastExists(fs, id);
    }
  }

  lemma {:induction false} LastExists(fs: seq<Field>, id: word)
    requires exists k :: 0 <= k < |fs| && fs[k].LoId() == id
    ensures exists k :: LastOf(fs, id, k)
  {
    var last := |fs| - 1;
    if fs[last].LoId() == id {
      assert LastOf(fs, id, last);
    } else {
      LastExists(fs[..last], id);
      var k :| LastOf(fs[..last], id, k);
      assert LastOf(fs, id, k);
    }
  }

  /** The subfields of a message with these lines. */
  lemma AddedTexts(m: MsgBuf, lines: seq<string>)
    ensures var fs := FieldsOf(m, lines);
            && TextIn(fs, 2) == m.from && TextIn(fs, 3) == m.to && TextIn(fs, 6) == m.subject
            && TextIn(fs, 0) == m.fromAddress && TextIn(fs, 1) == m.toAddress
            && TextIn(fs, 4) == AfterTag(lines, [1 as char] + "MSGID: ") && TextIn(fs, 5) == AfterTag(lines, [1 as char] + "REPLY: ")
  {
    KludgeTexts(lines);
    MessageText(m, lines, 0);
    MessageText(m, lines, 1);
    MessageText(m, lines, 2);
    MessageText(m, lines, 3);
    MessageText(m, lines, 6);
    MessageText(m, lines, 4);
    MessageText(m, lines, 5);
  }

  lemma MessageText(m: MsgBuf, lines: seq<string>, id: word)
    requires id <= 6
    ensures TextIn(FieldsOf(m, lines), id) == if id == 4 || id == 5 then TextIn(KludgeFields(lines), id) else PartOf(m, id)
  {
    TextInConcat(HeadFields(m), KludgeFields(lines), id);
    LastOfText(KludgeFields(lines), id);
    HeadText(m, id);
    if id != 4 && id != 5 { KludgeIds(lines, id); }
  }

  /** What reading gives of a message that was written with these lines: names, subject and
      addresses up to a hundred characters, the ids of its lines, its dates, links and flags. */
  ghost predicate ComesBackAs(l: MsgBuf, m: MsgBuf, lines: seq<string>)
  {
    && l.from == Take(m.from, 100) && l.to == Take(m.to, 100) && l.subject == Take(m.subject, 100)
    && l.toAddress == Take(m.toAddress, 100)
    && l.msgid == AfterTag(lines, [1 as char] + "MSGID: ") && l.replyid == AfterTag(lines, [1 as char] + "REPLY: ")
    && (if m.fromAddress != "" then l.fromAddress == Take(m.fromAddress, 100) else StartOf(l.msgid, l.fromAddress))
    && l.written == m.written && l.arrived == m.arrived && l.read == m.read && l.reply == m.reply && l.original == m.original
    && CoveredFlags(m.flags, l.flags)
  }

  /** A message added and its header read again. */
  lemma AddedHeader(s: Store, m: MsgBuf, lines: seq<string>)
    requires CanAdd(s, m, lines)
    ensures var l := Loaded(Add(s, m, lines).recs[|s.recs|]);
            ComesBackAs(l, m, lines) && l.id == l.current == Highest(s) + 1
    ensures var h := Add(s, m, lines).recs[|s.recs|].h;
            h.attribute == m.flags && h.msgIdCRC == m.msgIdCRC && h.replyCRC == m.replyCRC
    ensures Add(s, m, lines).info.modCounter == (s.info.modCounter + 1) % 0x1_0000_0000
  {
    HeaderFills(Add(s, m, lines).recs[|s.recs|]);
    AddedTexts(m, lines);
  }

  /** The message just added is found by its number, and its header read back. */
  lemma AddedReadBack(s: Store, m: MsgBuf, lines: seq<string>, s': Store, n: word)
    requires Inv(s) && CanAdd(s, m, lines) && s' == Add(s, m, lines) && n == Highest(s) + 1
    ensures Find(s'.recs, n) >= 0
    ensures ComesBackAs(Loaded(s'.recs[Find(s'.recs, n)]), m, lines) && Loaded(s'.recs[Find(s'.recs, n)]).id == n
  {
    AddedHeader(s, m, lines);
    AddedIsFound(s, m, lines);
  }

  /** A message whose names and addresses are at most a hundred characters, with a from address
      and covered flags, comes back whole; its ids are those of its lines. */
  lemma ShortHeaderBack(s: Store, m: MsgBuf, lines: seq<string>)
    requires CanAdd(s, m, lines) && CoveredFlags(m.flags, m.flags) && m.fromAddress != ""
    requires |m.from| <= 100 && |m.to| <= 100 && |m.subject| <= 100 && |m.fromAddress| <= 100 && |m.toAddress| <= 100
    ensures var l := Loaded(Add(s, m, lines).recs[|s.recs|]);
            && l.from == m.from && l.to == m.to && l.subject == m.subject && l.fromAddress == m.fromAddress && l.toAddress == m.toAddress
            && l.written == m.written && l.arrived == m.arrived && l.read == m.read && l.reply == m.reply && l.original == m.original
            && l.flags == m.flags
  {
    AddedHeader(s, m, lines);
    BackWhole(Loaded(Add(s, m, lines).recs[|s.recs|]), m, lines);
  }

  lemma BackWhole(l: MsgBuf, m: MsgBuf, lines: seq<string>)
    requires ComesBackAs(l, m, lines) && CoveredFlags(m.flags, m.flags) && m.fromAddress != ""
    requires |m.from| <= 100 && |m.to| <= 100 && |m.subject| <= 100 && |m.fromAddress| <= 100 && |m.toAddress| <= 100
    ensures l.from == m.from && l.to == m.to && l.subject == m.subject && l.fromAddress == m.fromAddress && l.toAddress == m.toAddress
    ensures l.written == m.written && l.arrived == m.arrived && l.read == m.read && l.reply == m.reply && l.original == m.original
    ensures l.flags == m.flags
  {
    FlagsSame(m.flags, l.flags);
  }

  lemma FlagsSame(a: word, b: word)
    requires CoveredFlags(a, a) && CoveredFlags(a, b)
    ensures a == b
  {
    assert a / 0x400_0000 == a / 0x2000_0000 * 8 && b / 0x400_0000 == b / 0x2000_0000 * 8;
  }

  /** The work of ReadHeaderOf on readable files. */
  method ReadHeaderNavigable(b: JamBase, n: word) returns (found: bool)
    requires b.Navigable() && b.jdxPos <= |b.jdx|
    modifies b`jdxPos, b`jamHdr, b`msg, b`lines
    ensures b.jdxPos <= |b.jdx|
    ensures found <==> Find(b.recs, n) >= 0
    ensures found ==> b.msg == Loaded(b.recs[Find(b.recs, n)])
  {
    found := b.ReadHeader(n);
    if found { FindUnique(b.recs, b.jdxPos - 1, n); }
  }

  /** Reads the header of message n of a known base into the message buffer. */
  method ReadHeaderOf(b: JamBase, n: word, ghost s: Store) returns (found: bool)
    requires b.Valid() && b.Base() == s
    modifies b`jdxPos, b`jamHdr, b`msg, b`lines
    ensures b.Valid() && b.Base() == s
    ensures found <==> Find(s.recs, n) >= 0
    ensures found ==> b.msg == Loaded(s.recs[Find(s.recs, n)])
  {
    b.ValidIsNavigable();
    found := ReadHeaderNavigable(b, n);
  }

  /** Adds the message in the buffers and reads its header by the number it was given. */
  method AddAndReadHeader(b: JamBase) returns (found: bool)
    requires b.Valid() && CanAdd(b.Base(), b.msg, b.lines)
    modifies b
    ensures found && b.Valid() && b.Base() == Add(old(b.Base()), old(b.msg), old(b.lines))
    ensures ComesBackAs(b.msg, old(b.msg), old(b.lines)) && b.msg.id == Highest(old(b.Base())) + 1
  {
    ghost var s := Add(b.Base(), b.msg, b.lines);
    AddedReadBack(b.Base(), b.msg, b.lines, s, Highest(b.Base()) + 1);
    b.AddMsg();
    found := ReadHeaderOf(b, b.msg.id, s);
  }

  /** A header rewritten and read again has the new flags, links and date of reading, and all
      else as it was. */
  lemma WrittenHeader(s: Store, n: word, m: MsgBuf, i: nat)
    requires i == Find(s.recs, n) && i < |s.recs|
    ensures var was, l := Loaded(s.recs[i]), Loaded(Write(s, n, m).recs[i]);
            l == was.(flags := l.flags, reply := m.reply, original := m.original, read := m.read) && CoveredFlags(m.flags, l.flags)
    ensures var h := Write(s, n, m).recs[i].h;
            h == s.recs[i].h.(attribute := m.flags, replyTo := h.replyTo, replyNext := h.replyNext, dateReceived := h.dateReceived,
                              msgIdCRC := m.msgIdCRC, replyCRC := m.replyCRC)
  {
    var r, r' := s.recs[i], Write(s, n, m).recs[i];
    BufferOf(r);
    BufferOf(r');
    FlagsCovered(m.flags);
  }

  /** Apart from what the header gives, the message buffer depends on the subfields only. */
  lemma BufferOf(r: Rec)
    ensures var e := WithAddress(ApplyFields(EMPTY_MSG, r.fields));
            Loaded(r) == e.(id := r.h.msgNum, current := r.h.msgNum, flags := KnownFlags(r.h.attribute), written := r.h.dateWritten,
                            arrived := r.h.dateProcessed, read := r.h.dateReceived, reply := r.h.replyNext, original := r.h.replyTo)
  {
    var m := MsgBuf(r.h.msgNum, r.h.msgNum, "", "", "", KnownFlags(r.h.attribute), r.h.dateWritten, r.h.dateProcessed,
                    r.h.dateReceived, "", "", r.h.replyNext, r.h.replyTo, 0, 0, "", "");
    FieldsFill(m, r.fields);
    FieldsFill(EMPTY_MSG, r.fields);
  }

  lemma FindGone(recs: seq<Rec>, i: nat, n: word, recs': seq<Rec>)
    requires LiveOrdered(recs) && LiveAt(recs, i, n) && |recs'| == |recs| && !recs'[i].Live()
    requires forall j :: 0 <= j < |recs| && j != i ==> recs'[j] == recs[j]
    ensures Find(recs', n) < 0
  {
  }

  /** A message deleted is gone; no other record changes, and of its own only the deleted mark. */
  lemma DeleteTakesOne(s: Store, n: word, i: nat)
    requires Inv(s) && Find(s.recs, n) == i
    ensures var d := Delete(s, n);
            && Find(d.recs, n) < 0 && |d.recs| == |s.recs| && (forall j :: 0 <= j < |s.recs| && j != i ==> d.recs[j] == s.recs[j])
            && d.recs[i] == Rec(s.recs[i].h.(attribute := d.recs[i].h.attribute), s.recs[i].fields)
            && d.recs[i].h.attribute % 0x8000_0000 == s.recs[i].h.attribute % 0x8000_0000
            && d == s.(recs := d.recs, info := s.info.(activeMsgs := d.info.activeMsgs)) && d.info.activeMsgs + 1 == s.info.activeMsgs
  {
    NumbersOrdered(s);
    SomeLive(s.recs, i);
    FindGone(s.recs, i, n, Delete(s, n).recs);
  }

  /** A last-read record looked up, written and looked up again gives the pointers written. */
  method PointersBack(b: JamBase, query: LastRead, last: word, high: word) returns (found: bool, answer: LastRead)
    modifies b`lastReadRec, b`jlr
    ensures found && answer == query.(lastReadMsg := last, highReadMsg := high)
    ensures |b.jlr| == |old(b.jlr)| ||
            (|b.jlr| == |old(b.jlr)| + 1 && forall i :: 0 <= i < |old(b.jlr)| ==> !IsReadOf(old(b.jlr)[i], query))
  {
    var had, was := b.GetLastRead(query);
    b.SetLastRead(query.(lastReadMsg := last, highReadMsg := high));
    ghost var at := b.lastReadRec;
    found, answer := b.GetLastRead(query);
    assert IsReadOf(b.jlr[at], query);
  }
}
