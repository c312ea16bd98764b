/** The files of a JAM message base byte by byte, as lib/jam.h lays their structures out. */
module JamLayouts {
  import opened Bytes
  import opened JamFormat
  import opened JamText

  /** The number in four bytes, the lowest first. */
  function Number(b: string, at: nat): int
    requires at + 4 <= |b|
  {
    b[at] as int + 0x100 * b[at + 1] as int + 0x1_0000 * b[at + 2] as int + 0x100_0000 * b[at + 3] as int
  }

  lemma {:induction false} BytesOf(w: nat, n: nat)
    ensures forall i :: 0 <= i < n ==> LowBytes(w, n)[i] as int < 256
    ensures n > 0 ==> LowBytes(w, n)[0] as int == w % 256 && LowBytes(w, n)[1..] == LowBytes(w / 256, n - 1)
  {
    if n > 0 { BytesOf(w / 256, n - 1); }
  }

  lemma FourBytes(w: word)
    ensures Number(Le32(w), 0) == w
  {
    var b := Le32(w);
    BytesOf(w, 4);
    BytesOf(w / 256, 3);
    BytesOf(w / 256 / 256, 2);
    BytesOf(w / 256 / 256 / 256, 1);
    assert b[1] == b[1..][0] && b[2] == b[1..][1..][0] && b[3] == b[1..][1..][1..][0];
  }

  lemma NumberAfter(a: string, b: string, at: nat)
    requires at + 4 <= |b|
    ensures Number(a + b, |a| + at) == Number(b, at)
  {
  }

  lemma NumberBefore(a: string, b: string, at: nat)
    requires at + 4 <= |a|
    ensures Number(a + b, at) == Number(a, at)
  {
  }

  /** Words follow each other without gaps. */
  lemma {:induction false} WordAt(ws: seq<word>, k: nat, at: nat)
    requires k < |ws| && at == 4 * k
    ensures Number(EncWords(ws), at) == ws[k]
    decreases k
  {
    if k == 0 {
      FourBytes(ws[0]);
      NumberBefore(Le32(ws[0]), EncWords(ws[1..]), 0);
    } else {
      WordAt(ws[1..], k - 1, at - 4);
      NumberAfter(Le32(ws[0]), EncWords(ws[1..]), at - 4);
    }
  }

  /** JAMHDRINFO */
  lemma InfoLayout(i: Info)
    ensures var b := EncInfo(i);
            && Number(b, 0) == i.signature && Number(b, 4) == i.dateCreated && Number(b, 8) == i.modCounter
            && Number(b, 12) == i.activeMsgs && Number(b, 16) == i.passwordCRC && Number(b, 20) == i.baseMsgNum
            && b[24..] == i.reserved
  {
    var ws := [i.signature, i.dateCreated, i.modCounter, i.activeMsgs, i.passwordCRC, i.baseMsgNum];
    forall at | at in [0, 4, 8, 12, 16, 20] ensures Number(EncInfo(i), at) == ws[at / 4] {
      WordAt(ws, at / 4, at);
      NumberBefore(EncWords(ws), i.reserved, at);
    }
  }

  /** The words of a header file record, each at four times its place. */
  lemma HeaderWord(h: Hdr, k: nat, at: nat)
    requires k < 19 && at == 4 * k
    ensures Number(EncHdr(h), at) == HdrWords(h)[k]
  {
    WordAt(HdrWords(h), k, at);
  }

  /** JAMHDR, up to the dates */
  lemma HeaderLayout(h: Hdr)
    ensures var b := EncHdr(h);
            && Number(b, 0) == h.signature && Number(b, 4) == h.revision && Number(b, 8) == h.subfieldLen && Number(b, 12) == h.timesRead
            && Number(b, 16) == h.msgIdCRC && Number(b, 20) == h.replyCRC && Number(b, 24) == h.replyTo && Number(b, 28) == h.reply1st
            && Number(b, 32) == h.replyNext && Number(b, 36) == h.dateWritten
  {
    HeaderWord(h, 0, 0);
    HeaderWord(h, 1, 4);
    HeaderWord(h, 2, 8);
    HeaderWord(h, 3, 12);
    HeaderWord(h, 4, 16);
    HeaderWord(h, 5, 20);
    HeaderWord(h, 6, 24);
    HeaderWord(h, 7, 28);
    HeaderWord(h, 8, 32);
    HeaderWord(h, 9, 36);
  }

  /** JAMHDR, the rest */
  lemma HeaderLayoutEnd(h: Hdr)
    ensures var b := EncHdr(h);
            && Number(b, 40) == h.dateReceived && Number(b, 44) == h.dateProcessed && Number(b, 48) == h.msgNum
            && Number(b, 52) == h.attribute
            && Number(b, 56) == h.attribute2 && Number(b, 60) == h.txtOffset && Number(b, 64) == h.txtLen
            && Number(b, 68) == h.passwordCRC && Number(b, 72) == h.cost && |b| == 76
  {
    HeaderWord(h, 10, 40);
    HeaderWord(h, 11, 44);
    HeaderWord(h, 12, 48);
    HeaderWord(h, 13, 52);
    HeaderWord(h, 14, 56);
    HeaderWord(h, 15, 60);
    HeaderWord(h, 16, 64);
    HeaderWord(h, 17, 68);
    HeaderWord(h, 18, 72);
  }

  /** JAMBINSUBFIELD and its data: the id in the first two bytes, the length from the fifth. */
  lemma FieldLayout(f: Field)
    requires |f.data| < 0x1_0000_0000
    ensures var b := EncField(f);
            b[0] as int + 0x100 * b[1] as int == f.LoId() && Number(b, 4) == |f.data| && b[8..] == f.data
  {
    var id, len := Le32(f.id), Le32(|f.data|);
    FieldId(f.id);
    FourBytes(|f.data|);
    assert EncField(f) == id + (len + f.data);
    NumberAfter(id, len + f.data, 0);
    NumberBefore(len, f.data, 0);
  }

  lemma LowTwo(id: int)
    requires id >= 0
    ensures id % 256 + 256 * (id / 256 % 256) == id % 65536
  {
    var a, m, q := id % 256, id / 256 % 256, id / 256 / 256;
    assert id == a + 256 * m + 65536 * q && 0 <= a + 256 * m < 65536;
  }

  lemma FieldId(id: word)
    ensures var b := Le32(id); b[0] as int + 0x100 * b[1] as int == id % 65536
  {
    var b := Le32(id);
    BytesOf(id, 4);
    BytesOf(id / 256, 3);
    assert b[1] == b[1..][0] == LowBytes(id / 256, 3)[0];
    LowTwo(id);
  }

  /** A record counts as deleted exactly when its highest attribute bit is set. */
  lemma DeletedBit(h: Hdr)
    ensures h.Deleted() <==> h.attribute / 0x8000_0000 == 1
  {
  }

  lemma KludgeTags(x: string)
    ensures PlaceOf(PID_TAG + x) == Sub(Field(7, x)) && PlaceOf(MSGID_TAG + x) == Sub(Field(4, x))
    ensures PlaceOf(REPLY_TAG + x) == Sub(Field(5, x))
  {
    TagChars();
    TagFirst(PID_TAG, x);
    TagFirst(MSGID_TAG, x);
    TagFirst(REPLY_TAG, x);
  }

  lemma RouteTags(x: string)
    ensures PlaceOf(PATH_TAG + x) == Sub(Field(2002, x)) && PlaceOf(SEENBY_TAG + x) == Sub(Field(2001, x))
    ensures PlaceOf(VIA_TAG + x) == Sub(Field(8, x))
  {
    TagChars();
    TagFirst(PATH_TAG, x);
    TagFirst(SEENBY_TAG, x);
    TagFirst(VIA_TAG, x);
  }

  /** The subfields that lines with these tags are stored in. */
  lemma TagIds(x: string)
    ensures PlaceOf([1 as char] + "PID: " + x) == Sub(Field(7, x))
    ensures PlaceOf([1 as char] + "MSGID: " + x) == Sub(Field(4, x))
    ensures PlaceOf([1 as char] + "REPLY: " + x) == Sub(Field(5, x))
    ensures PlaceOf([1 as char] + "PATH: " + x) == Sub(Field(2002, x))
    ensures PlaceOf([1 as char] + "Via " + x) == Sub(Field(8, x))
    ensures PlaceOf("SEEN-BY: " + x) == Sub(Field(2001, x))
  {
    KludgeTags(x);
    RouteTags(x);
  }

  lemma TagFirst(tag: string, x: string)
    ensures tag <= tag + x && (tag + x)[|tag|..] == x && forall i :: 0 <= i < |tag| ==> (tag + x)[i] == tag[i]
  {
  }

  /** Any other control line is stored without its control character. */
  lemma OtherId(x: string)
    requires x == "" || x[0] !in "PMRV"
    ensures PlaceOf([1 as char] + x) == Sub(Field(2000, x))
  {
    TagChars();
    var l := [1 as char] + x;
    assert l[1..] == x && (x != "" ==> l[1] == x[0]);
  }

  /** FLAGS and TZUTC subfields, which other programs write, are shown as lines above the text. */
  lemma FlagsAndZone(x: string)
    requires |x| < 2000
    ensures ShownAs(Field(2003, x)) == Top([1 as char] + "FLAGS " + x)
    ensures ShownAs(Field(2004, x)) == Top([1 as char] + "TZUTC " + x)
  {
  }
}
