/** What reading a header gives back of a message: which subfield fills which part of the
    message buffer, and what of a message comes back after it was added or rewritten. */
module JamHeaders {
  import opened Bytes
  import opened JamFormat
  import opened JamText
  import opened JamStore

  /** The word of flag bits the message buffer takes from an attribute: all but three unused bits. */
  function KnownFlags(attribute: word): (r: word)
    ensures attribute < MSG_DELETED <==> r < MSG_DELETED
  {
    attribute - attribute / 0x400_0000 % 8 * 0x400_0000
  }

  function Take(s: string, n: nat): (r: string)
    ensures r <= s && |r| == if |s| < n then |s| else n
  {
    if |s| > n then s[..n] else s
  }

  /** What one subfield puts in the message buffer. */
  function ApplyField(m: MsgBuf, f: Field): MsgBuf
  {
    if f.LoId() == SFLD_SENDERNAME then m.(from := Take(f.data, 100))
    else if f.LoId() == SFLD_RECVRNAME then m.(to := Take(f.data, 100))
    else if f.LoId() == SFLD_SUBJECT then m.(subject := Take(f.data, 100))
    else if f.LoId() == SFLD_OADDRESS then m.(fromAddress := Take(f.data, 100))
    else if f.LoId() == SFLD_DADDRESS then m.(toAddress := Take(f.data, 100))
    else if f.LoId() == SFLD_MSGID then m.(msgid := f.data)
    else if f.LoId() == SFLD_REPLYID then m.(replyid := f.data)
    else m
  }

  function ApplyFields(m: MsgBuf, fs: seq<Field>): MsgBuf
  {
    if fs == [] then m else ApplyField(ApplyFields(m, fs[..|fs| - 1]), fs[|fs| - 1])
  }

  /** The start of a message id, up to the first at-sign or blank. */
  function AddressPart(s: string): string
  {
    if s == "" || s[0] == '@' || s[0] == ' ' then "" else [s[0]] + AddressPart(s[1..])
  }

  function WithAddress(m: MsgBuf): MsgBuf
  {
    if m.fromAddress == "" && m.msgid != "" then m.(fromAddress := AddressPart(m.msgid)) else m
  }

  /** The message buffer after a header has been read. */
  function Loaded(r: Rec): MsgBuf
  {
    WithAddress(ApplyFields(
      MsgBuf(r.h.msgNum, r.h.msgNum, "", "", "", KnownFlags(r.h.attribute), r.h.dateWritten, r.h.dateProcessed,
             r.h.dateReceived, "", "", r.h.replyNext, r.h.replyTo, 0, 0, "", ""), r.fields))
  }

  // ----- the last subfield of an id

  /** fs[k] is the last of the subfields with this id. */
  ghost predicate LastOf(fs: seq<Field>, id: word, k: int)
  {
    0 <= k < |fs| && fs[k].LoId() == id && forall j :: k < j < |fs| ==> fs[j].LoId() != id
  }

  /** The text of the last subfield with this id, empty if there is none. */
  function TextIn(fs: seq<Field>, id: word): string
  {
    if fs == [] then ""
    else if fs[|fs| - 1].LoId() == id then fs[|fs| - 1].data
    else TextIn(fs[..|fs| - 1], id)
  }

  lemma {:induction false} TextOfLast(fs: seq<Field>, id: word, k: int)
    requires LastOf(fs, id, k)
    ensures TextIn(fs, id) == fs[k].data
  {
    var last := |fs| - 1;
    if k < last {
      assert fs[last].LoId() != id;
      TextOfLast(fs[..last], id, k);
    }
  }

  lemma {:induction false} TextOfNone(fs: seq<Field>, id: word)
    requires forall k :: 0 <= k < |fs| ==> fs[k].LoId() != id
    ensures TextIn(fs, id) == ""
  {
    if fs != [] { TextOfNone(fs[..|fs| - 1], id); }
  }

  lemma {:induction false} TextInConcat(a: seq<Field>, b: seq<Field>, id: word)
    ensures TextIn(a + b, id) == if exists k :: LastOf(b, id, k) then TextIn(b, id) else TextIn(a, id)
  {
    if b == [] {
      assert a + b == a;
    } else {
      var last := |b| - 1;
      var init := b[..last];
      assert (a + b)[..|a + b| - 1] == a + init;
      if b[last].LoId() == id {
        assert LastOf(b, id, last);
      } else {
        TextInConcat(a, init, id);
        if k :| LastOf(b, id, k) { assert LastOf(init, id, k); }
        if k :| LastOf(init, id, k) { assert LastOf(b, id, k); }
      }
    }
  }

  // ----- what a header puts in the message buffer

  /** a is the start of s up to its first at-sign or blank. */
  ghost predicate StartOf(s: string, a: string)
  {
    && a <= s && (forall i :: 0 <= i < |a| ==> a[i] != '@' && a[i] != ' ')
    && (|a| < |s| ==> s[|a|] == '@' || s[|a|] == ' ')
  }

  lemma {:induction false} AddressStart(s: string)
    ensures StartOf(s, AddressPart(s))
  {
    if s != "" && s[0] != '@' && s[0] != ' ' {
      AddressStart(s[1..]);
      var a := AddressPart(s[1..]);
      assert s == [s[0]] + s[1..] && AddressPart(s) == [s[0]] + a;
    }
  }

  /** The parts that subfields fill: the names, the subject and the addresses up to a hundred
      characters and the ids whole, each from the last subfield of its id; without a from
      address the start of the message id serves. */
  ghost predicate Filled(m: MsgBuf, fs: seq<Field>)
  {
    && m.from == Take(TextIn(fs, 2), 100) && m.to == Take(TextIn(fs, 3), 100) && m.subject == Take(TextIn(fs, 6), 100)
    && m.toAddress == Take(TextIn(fs, 1), 100) && m.msgid == TextIn(fs, 4) && m.replyid == TextIn(fs, 5)
    && if TextIn(fs, 0) != "" then m.fromAddress == Take(TextIn(fs, 0), 100) else StartOf(m.msgid, m.fromAddress)
  }

  /** Of the attribute's bits all but the three that no flag stands for. */
  predicate CoveredFlags(attribute: word, r: word)
  {
    r % 0x400_0000 == attribute % 0x400_0000 && r / 0x400_0000 % 8 == 0 && r / 0x2000_0000 == attribute / 0x2000_0000
  }

  /** The message buffer holds what a record's header and subfields say. */
  ghost predicate HeaderRead(m: MsgBuf, r: Rec)
  {
    && Filled(m, r.fields) && CoveredFlags(r.h.attribute, m.flags)
    && m.id == m.current == r.h.msgNum && m.reply == r.h.replyNext && m.original == r.h.replyTo
    && m.written == r.h.dateWritten && m.arrived == r.h.dateProcessed && m.read == r.h.dateReceived
  }

  lemma FlagsCovered(attribute: word)
    ensures CoveredFlags(attribute, KnownFlags(attribute))
  {
  }

  lemma {:induction false} FieldsFill(m: MsgBuf, fs: seq<Field>)
    requires m.from == m.to == m.subject == m.fromAddress == m.toAddress == m.msgid == m.replyid == ""
    ensures var r := ApplyFields(m, fs);
            && r.from == Take(TextIn(fs, 2), 100) && r.to == Take(TextIn(fs, 3), 100) && r.subject == Take(TextIn(fs, 6), 100)
            && r.fromAddress == Take(TextIn(fs, 0), 100) && r.toAddress == Take(TextIn(fs, 1), 100)
            && r.msgid == TextIn(fs, 4) && r.replyid == TextIn(fs, 5)
            && r == m.(from := r.from, to := r.to, subject := r.subject, fromAddress := r.fromAddress, toAddress := r.toAddress,
                       msgid := r.msgid, replyid := r.replyid)
  {
    if fs != [] { FieldsFill(m, fs[..|fs| - 1]); }
  }

  /** For any subfields, what reading a header leaves in the message buffer. */
  lemma HeaderFills(r: Rec)
    ensures HeaderRead(Loaded(r), r)
  {
    var m := MsgBuf(r.h.msgNum, r.h.msgNum, "", "", "", KnownFlags(r.h.attribute), r.h.dateWritten, r.h.dateProcessed,
                    r.h.dateReceived, "", "", r.h.replyNext, r.h.replyTo, 0, 0, "", "");
    FieldsFill(m, r.fields);
    FlagsCovered(r.h.attribute);
    AddressStart(TextIn(r.fields, 4));
  }
}
