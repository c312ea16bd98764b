/** Layout of a JAM message base on disk: the header file is an information block followed
    by one record per message (a fixed header and its variable-length subfields); the index
    file holds the offset of each record. */
module JamFormat {
  import opened Bytes

  const INFO_SIZE: nat := 1024
  const HDR_SIZE: nat := 76
  const SUB_SIZE: nat := 8
  const RESERVED_SIZE: nat := 1000
  const SIGNATURE: word := 0x004D_414A   // 'J' 'A' 'M' NUL
  const MSG_DELETED: word := 0x8000_0000

  const SFLD_OADDRESS: word := 0
  const SFLD_DADDRESS: word := 1
  const SFLD_SENDERNAME: word := 2
  const SFLD_RECVRNAME: word := 3
  const SFLD_MSGID: word := 4
  const SFLD_REPLYID: word := 5
  const SFLD_SUBJECT: word := 6
  const SFLD_PID: word := 7
  const SFLD_TRACE: word := 8
  const SFLD_FTSKLUDGE: word := 2000
  const SFLD_SEENBY2D: word := 2001
  const SFLD_PATH2D: word := 2002
  const SFLD_FLAGS: word := 2003
  const SFLD_TZUTCINFO: word := 2004

  /** JAMHDRINFO */
  datatype Info = Info(signature: word, dateCreated: word, modCounter: word, activeMsgs: word,
                       passwordCRC: word, baseMsgNum: word, reserved: string)

  /** JAMHDR; `revision` is the Revision and ReservedWord pair. */
  datatype Hdr = Hdr(signature: word, revision: word, subfieldLen: word, timesRead: word,
                     msgIdCRC: word, replyCRC: word, replyTo: word, reply1st: word, replyNext: word,
                     dateWritten: word, dateReceived: word, dateProcessed: word, msgNum: word,
                     attribute: word, attribute2: word, txtOffset: word, txtLen: word,
                     passwordCRC: word, cost: word)
  {
    predicate Deleted() { attribute >= MSG_DELETED }
  }

  /** JAMBINSUBFIELD and its data; `id` is the LoID and HiID pair. */
  datatype Field = Field(id: word, data: string)
  {
    function LoId(): word { id % 65536 }
  }

  /** One record of the header file. */
  datatype Rec = Rec(h: Hdr, fields: seq<Field>)
  {
    predicate Live() { !h.Deleted() }
    function Num(): word { h.msgNum }
  }

  /** JAMIDXREC */
  datatype Idx = Idx(userCRC: word, hdrOffset: word)

  /** JAMLREAD */
  datatype LastRead = LastRead(userCRC: word, userID: word, lastReadMsg: word, highReadMsg: word)

  /** What a file position or a length becomes in an unsigned int. */
  function Truncate(n: nat): (w: word)
    ensures n < 0x1_0000_0000 ==> w == n
  {
    n % 0x1_0000_0000
  }

  function EncInfo(i: Info): (b: string)
    ensures |b| == 24 + |i.reserved|
  {
    EncWords([i.signature, i.dateCreated, i.modCounter, i.activeMsgs, i.passwordCRC, i.baseMsgNum]) + i.reserved
  }

  function DecInfo(b: string): Info
    requires |b| == INFO_SIZE
  {
    var w := DecWords(b[..24]);
    Info(w[0], w[1], w[2], w[3], w[4], w[5], b[24..])
  }

  lemma InfoRoundTrip(i: Info)
    requires |i.reserved| == RESERVED_SIZE
    ensures DecInfo(EncInfo(i)) == i
  {
    var ws := [i.signature, i.dateCreated, i.modCounter, i.activeMsgs, i.passwordCRC, i.baseMsgNum];
    WordsRoundTrip(ws);
    assert EncInfo(i)[..24] == EncWords(ws);
  }

  function HdrWords(h: Hdr): (ws: seq<word>)
    ensures |ws| == 19
  {
    [h.signature, h.revision, h.subfieldLen, h.timesRead, h.msgIdCRC, h.replyCRC, h.replyTo, h.reply1st,
     h.replyNext, h.dateWritten, h.dateReceived, h.dateProcessed, h.msgNum, h.attribute, h.attribute2,
     h.txtOffset, h.txtLen, h.passwordCRC, h.cost]
  }

  function EncHdr(h: Hdr): (b: string)
    ensures |b| == HDR_SIZE
  {
    EncWords(HdrWords(h))
  }

  function DecHdr(b: string): Hdr
    requires |b| == HDR_SIZE
  {
    var w := DecWords(b);
    Hdr(w[0], w[1], w[2], w[3], w[4], w[5], w[6], w[7], w[8], w[9], w[10], w[11], w[12], w[13], w[14],
        w[15], w[16], w[17], w[18])
  }

  lemma HdrRoundTrip(h: Hdr)
    ensures DecHdr(EncHdr(h)) == h
  {
    WordsRoundTrip(HdrWords(h));
  }

  function EncField(f: Field): (b: string)
    ensures |b| == SUB_SIZE + |f.data|
  {
    Le32(f.id) + Le32(Truncate(|f.data|)) + f.data
  }

  function EncFields(fs: seq<Field>): (b: string)
  {
    if fs == [] then "" else EncField(fs[0]) + EncFields(fs[1..])
  }

  lemma {:induction false} EncFieldsConcat(a: seq<Field>, b: seq<Field>)
    ensures EncFields(a + b) == EncFields(a) + EncFields(b)
  {
    if a == [] {
      assert a + b == b;
    } else {
      assert (a + b)[1..] == a[1..] + b;
      EncFieldsConcat(a[1..], b);
    }
  }

  /** What the subfield loops see at the head of the buffer. */
  lemma FieldAtHead(fs: seq<Field>)
    requires fs != [] && |EncFields(fs)| < 0x1_0000_0000
    ensures var b := EncFields(fs);
            |b| >= SUB_SIZE + |fs[0].data| && Word(b) == fs[0].id && Word(b[4..]) == |fs[0].data| &&
            b[SUB_SIZE..SUB_SIZE + |fs[0].data|] == fs[0].data &&
            b[SUB_SIZE + |fs[0].data|..] == EncFields(fs[1..])
  {
    var f, rest := fs[0], EncFields(fs[1..]);
    var b := EncFields(fs);
    assert b == EncField(f) + rest;
    assert |b| == SUB_SIZE + |f.data| + |rest|;
    assert Truncate(|f.data|) == |f.data|;
    FieldBytes(f.id, |f.data|, f.data, rest);
    assert b == (Le32(f.id) + Le32(|f.data|) + f.data) + rest;
  }

  lemma FieldBytes(id: word, n: word, data: string, rest: string)
    ensures var b := (Le32(id) + Le32(n) + data) + rest;
            Word(b) == id && Word(b[4..]) == n && b[8..8 + |data|] == data && b[8 + |data|..] == rest
  {
    FieldParts(Le32(id), Le32(n), data, rest);
    WordRoundTrip(id, Le32(n) + data + rest);
    WordRoundTrip(n, data + rest);
  }

  lemma FieldParts(id: string, len: string, data: string, rest: string)
    requires |id| == |len| == 4
    ensures var b := (id + len + data) + rest;
            b == id + (len + data + rest) && b[4..] == len + (data + rest) &&
            b[8..8 + |data|] == data && b[8 + |data|..] == rest
  {
  }

  function EncRec(r: Rec): (b: string)
    ensures |b| == HDR_SIZE + |EncFields(r.fields)|
  {
    EncHdr(r.h) + EncFields(r.fields)
  }

  lemma Associative(a: string, b: string, c: string)
    ensures (a + b) + c == a + (b + c)
  {
  }

  function RecBytes(recs: seq<Rec>): string
  {
    if recs == [] then "" else RecBytes(recs[..|recs| - 1]) + EncRec(recs[|recs| - 1])
  }

  lemma {:induction false} RecBytesConcat(a: seq<Rec>, b: seq<Rec>)
    ensures RecBytes(a + b) == RecBytes(a) + RecBytes(b)
    decreases |b|
  {
    if b == [] {
      assert a + b == a;
    } else {
      var init, last := b[..|b| - 1], b[|b| - 1];
      assert (a + b)[..|a + b| - 1] == a + init;
      RecBytesConcat(a, init);
      Associative(RecBytes(a), RecBytes(init), EncRec(last));
    }
  }

  lemma RecBytesSnoc(recs: seq<Rec>, r: Rec)
    ensures RecBytes(recs + [r]) == RecBytes(recs) + EncRec(r)
  {
    assert (recs + [r])[..|recs + [r]| - 1] == recs;
  }

  /** The header file. */
  function HdrFile(info: Info, recs: seq<Rec>): string
  {
    EncInfo(info) + RecBytes(recs)
  }

  /** Where record i starts in the header file. */
  function Offset(recs: seq<Rec>, i: nat): nat
    requires i <= |recs|
  {
    INFO_SIZE + |RecBytes(recs[..i])|
  }

  lemma SplitAt(recs: seq<Rec>, i: nat)
    requires i < |recs|
    ensures RecBytes(recs) == RecBytes(recs[..i]) + EncRec(recs[i]) + RecBytes(recs[i + 1..])
    ensures RecBytes(recs[..i + 1]) == RecBytes(recs[..i]) + EncRec(recs[i])
  {
    var a, b := recs[..i], recs[i + 1..];
    RecBytesSnoc(a, recs[i]);
    RecBytesConcat(a + [recs[i]], b);
    SplitSeq(recs, i);
  }

  /** Record i really is where the offset says, header first, then its subfields. */
  lemma RecordAt(info: Info, recs: seq<Rec>, i: nat)
    requires i < |recs| && |info.reserved| == RESERVED_SIZE
    ensures var f := HdrFile(info, recs); var o := Offset(recs, i); var n := |EncFields(recs[i].fields)|;
            o + HDR_SIZE + n <= |f| && f[o..o + HDR_SIZE] == EncHdr(recs[i].h) &&
            f[o + HDR_SIZE..o + HDR_SIZE + n] == EncFields(recs[i].fields) &&
            DecHdr(EncHdr(recs[i].h)) == recs[i].h &&
            Offset(recs, i + 1) == o + HDR_SIZE + n
  {
    SplitAt(recs, i);
    HdrRoundTrip(recs[i].h);
    RecordParts(EncInfo(info), RecBytes(recs[..i]), EncHdr(recs[i].h), EncFields(recs[i].fields), RecBytes(recs[i + 1..]));
  }

  lemma RecordParts(info: string, before: string, h: string, s: string, after: string)
    ensures var f := info + (before + (h + s) + after); var o := |info| + |before|;
            f[o..o + |h|] == h && f[o + |h|..o + |h| + |s|] == s &&
            f == (info + before) + h + (s + after)
  {
    var f := info + (before + (h + s) + after);
    var o := |info| + |before|;
    assert f == (info + before) + h + (s + after);
    assert f[o..o + |h|] == h;
    assert f[o + |h|..o + |h| + |s|] == s;
  }

  lemma OffsetEnd(info: Info, recs: seq<Rec>)
    requires |info.reserved| == RESERVED_SIZE
    ensures Offset(recs, |recs|) == |HdrFile(info, recs)|
  {
    assert recs[..|recs|] == recs;
  }

  /** Overwriting header i changes record i's header and nothing else. */
  lemma RewriteHeader(info: Info, recs: seq<Rec>, i: nat, h: Hdr)
    requires i < |recs| && |info.reserved| == RESERVED_SIZE
    ensures Offset(recs, i) <= |HdrFile(info, recs)|
    ensures WriteAt(HdrFile(info, recs), Offset(recs, i), EncHdr(h)) == HdrFile(info, recs[i := Rec(h, recs[i].fields)])
  {
    var recs2 := recs[i := Rec(h, recs[i].fields)];
    SplitAt(recs, i);
    SplitAt(recs2, i);
    assert recs2[..i] == recs[..i] && recs2[i + 1..] == recs[i + 1..];
    var pre, was, now := EncInfo(info) + RecBytes(recs[..i]), EncHdr(recs[i].h), EncHdr(h);
    var subs, after := EncFields(recs[i].fields), RecBytes(recs[i + 1..]);
    RecordParts(EncInfo(info), RecBytes(recs[..i]), was, subs, after);
    RecordParts(EncInfo(info), RecBytes(recs[..i]), now, subs, after);
    WriteInside(pre, was, now, subs + after);
  }

  /** Overwriting the information block leaves the records alone. */
  lemma RewriteInfo(info: Info, info': Info, recs: seq<Rec>)
    requires |info.reserved| == |info'.reserved| == RESERVED_SIZE
    ensures WriteAt(HdrFile(info, recs), 0, EncInfo(info')) == HdrFile(info', recs)
    ensures ReadAt(HdrFile(info, recs), 0, INFO_SIZE) == EncInfo(info) && DecInfo(EncInfo(info)) == info
  {
    InfoRoundTrip(info);
    WriteInside("", EncInfo(info), EncInfo(info'), RecBytes(recs));
    assert "" + EncInfo(info) + RecBytes(recs) == HdrFile(info, recs);
    assert "" + EncInfo(info') + RecBytes(recs) == HdrFile(info', recs);
    ReadInside("", EncInfo(info), RecBytes(recs));
  }

  /** Replacing one header moves no record. */
  lemma {:induction false} OffsetsKept(recs: seq<Rec>, i: nat, h: Hdr, j: nat)
    requires i < |recs| && j <= |recs|
    ensures Offset(recs[i := Rec(h, recs[i].fields)], j) == Offset(recs, j)
    decreases j
  {
    var recs2 := recs[i := Rec(h, recs[i].fields)];
    if j > 0 {
      OffsetsKept(recs, i, h, j - 1);
      SplitAt(recs, j - 1);
      SplitAt(recs2, j - 1);
    }
  }
}
