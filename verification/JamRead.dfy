/** Reading a message back: its subfields become lines above and below the text, the text is
    read in chunks and wrapped character by character. */
module JamReading {
  import opened Bytes
  import opened JamFormat
  import opened JamText
  import opened JamWrap
  import opened JamStore
  import opened JamPackSpec
  import opened JamBases
  import opened JamHeaders

  const CHUNK: nat := 2049   // sizeof szBuff

  /** The lines that reading record r at width w gives. */
  function ReadLines(r: Rec, text: string, w: int): seq<string>
  {
    FeedAll(Wrap(Tops(r.fields), "", false), TextOf(r.h, text), w).out + Bottoms(r.fields)
  }

  /** Cuts a full line where the wrap breaks it. */
  method BreakLine(line: string) returns (piece: string, carry: string)
    requires |line| >= 1
    ensures piece == line[..Break(line)] && carry == line[Break(line)..]
    ensures piece + carry == line && |piece| >= 1
    ensures if ' ' in line then piece[|piece| - 1] == ' ' && ' ' !in carry else carry == ""
  {
    if ' ' in line {
      var p := |line|;
      while p > 1 && (p == |line| || line[p] != ' ')
        invariant 1 <= p <= |line| && Back(line, p) == Back(line, |line|)
        decreases p
      {
        p := p - 1;
      }
      while p < |line| && line[p] == ' '
        invariant p <= |line| && Skip(line, p) == Skip(line, Back(line, |line|))
        decreases |line| - p
      {
        p := p + 1;
      }
      piece, carry := line[..p], line[p..];
    } else {
      piece, carry := line, "";
    }
  }

  /** Drops the blanks at the end of a line, but never its first character. */
  method TrimLine(line: string) returns (r: string)
    ensures r == Trim(line)
  {
    r := line;
    while |r| > 1 && r[|r| - 1] == ' '
      invariant Trim(r) == Trim(line)
      decreases |r|
    {
      r := r[..|r| - 1];
    }
  }

  /** Feeds one character of the text to the wrap. */
  method FeedChar(s: Wrap, c: char, w: int) returns (r: Wrap)
    ensures r == Feed(s, c, w)
  {
    if c == CR {
      if |s.line| > 0 && s.skip {
        var t := TrimLine(s.line);
        r := Wrap(if |t| > 1 then s.out + [t] else s.out, "", false);
      } else if !s.skip {
        r := Wrap(s.out + [s.line], "", false);
      } else {
        r := Wrap(s.out, "", false);
      }
    } else if c != LF {
      var line := s.line + [c];
      if |line| >= w {
        var piece, carry := BreakLine(line);
        r := Wrap(s.out + [piece], carry, true);
      } else {
        r := s.(line := line);
      }
    } else {
      r := s;
    }
  }

  /** Feeds one chunk to the wrap. */
  method FeedChunk(s: Wrap, buff: string, w: int) returns (r: Wrap)
    ensures r == FeedAll(s, buff, w)
  {
    r := s;
    for i := 0 to |buff|
      invariant r == FeedAll(s, buff[..i], w)
    {
      assert buff[..i + 1][..i] == buff[..i];
      r := FeedChar(r, buff[i], w);
    }
    assert buff[..|buff|] == buff;
  }

  /** fed gives the wrap after the text from off up to a position. */
  ghost predicate Feeds(fed: nat -> Wrap, jdt: string, off: nat, end: nat, w: int)
    requires end <= |jdt|
  {
    forall pos: nat, next: nat {:trigger fed(pos), fed(next)} ::
      off <= pos <= next <= end ==> fed(next) == FeedAll(fed(pos), jdt[pos..next], w)
  }

  lemma NextChunk(s: Wrap, text: string, from: nat, pos: nat, next: nat, w: int)
    requires from <= pos <= next <= |text|
    ensures FeedAll(s, text[from..next], w) == FeedAll(FeedAll(s, text[from..pos], w), text[pos..next], w)
  {
    NextSlice(text, from, pos, next);
    ChunksDoNotMatter(s, text[from..pos], text[pos..next], w);
  }

  lemma TextFeeds(s: Wrap, jdt: string, off: nat, end: nat, w: int) returns (fed: nat -> Wrap)
    requires off <= end <= |jdt|
    ensures Feeds(fed, jdt, off, end, w) && fed(off) == s && fed(end) == FeedAll(s, jdt[off..end], w)
  {
    fed := (pos: nat) => if off <= pos <= |jdt| then FeedAll(s, jdt[off..pos], w) else s;
    forall pos: nat, next: nat {:trigger fed(pos), fed(next)} | off <= pos <= next <= end
      ensures fed(next) == FeedAll(fed(pos), jdt[pos..next], w)
    {
      NextChunk(s, jdt, off, pos, next, w);
    }
  }

  /** Reads a text chunk by chunk. */
  method ReadChunks(jdt: string, off: nat, len: nat, w: int, start: Wrap, ghost fed: nat -> Wrap) returns (s: Wrap)
    requires off + len <= |jdt| && Feeds(fed, jdt, off, off + len, w) && fed(off) == start
    ensures s == fed(off + len)
  {
    s := start;
    ghost var end := off + len;
    var pos: nat, left: nat := off, len;
    var go := true;
    while go
      invariant off <= pos <= end && pos + left == end
      invariant s == fed(pos)
      invariant !go ==> left == 0
      decreases left, if go then 1 else 0
    {
      var nRead := if CHUNK > left then left else CHUNK;
      ghost var next := fed(pos + nRead);
      s := FeedChunk(s, ReadAt(jdt, pos, nRead), w);
      pos := pos + nRead;
      left := left - nRead;
      go := left > 0;
    }
  }

  /** Reads a text and wraps it after the lines so far. */
  method ReadText(jdt: string, off: nat, len: nat, w: int, so_far: seq<string>) returns (out: seq<string>)
    requires off + len <= |jdt|
    ensures out == FeedAll(Wrap(so_far, "", false), ReadAt(jdt, off, len), w).out
  {
    var start := Wrap(so_far, "", false);
    ghost var fed := TextFeeds(start, jdt, off, off + len, w);
    var s := ReadChunks(jdt, off, len, w, start, fed);
    out := s.out;
  }

  /** The line or lines one subfield gives. */
  method ShowField(f: Field, top: seq<string>, bottom: seq<string>) returns (top': seq<string>, bottom': seq<string>)
    ensures top' == (if ShownAs(f).Top? then top + [ShownAs(f).line] else top)
    ensures bottom' == (if ShownAs(f).Bottom? then bottom + [ShownAs(f).line] else bottom)
  {
    top', bottom' := top, bottom;
    var id := f.LoId();
    if id == SFLD_MSGID {
      top' := top + [Cut(MSGID_TAG + f.data)];
    } else if id == SFLD_REPLYID {
      top' := top + [Cut(REPLY_TAG + f.data)];
    } else if id == SFLD_PID {
      top' := top + [Cut(PID_TAG + f.data)];
    } else if id == SFLD_TRACE {
      top' := top + [Cut(VIA_TAG + f.data)];
    } else if id == SFLD_FTSKLUDGE {
      var line := if AREA_WORD <= f.data then f.data else [CTRL] + f.data;
      top' := top + [Cut(line)];
    } else if id == SFLD_SEENBY2D {
      bottom' := bottom + [Cut(SEENBY_TAG + f.data)];
    } else if id == SFLD_PATH2D {
      bottom' := bottom + [Cut(PATH_TAG + f.data)];
    } else if id == SFLD_FLAGS {
      top' := top + [Cut(FLAGS_TAG + f.data)];
    } else if id == SFLD_TZUTCINFO {
      top' := top + [Cut(TZUTC_TAG + f.data)];
    }
  }

  lemma ShownStep(fs: seq<Field>, i: nat)
    requires i < |fs|
    ensures Tops(fs[..i + 1]) == (if ShownAs(fs[i]).Top? then Tops(fs[..i]) + [ShownAs(fs[i]).line] else Tops(fs[..i]))
    ensures Bottoms(fs[..i + 1]) == (if ShownAs(fs[i]).Bottom? then Bottoms(fs[..i]) + [ShownAs(fs[i]).line] else Bottoms(fs[..i]))
  {
    assert fs[..i + 1][..i] == fs[..i];
  }

  /** Walks the subfield buffer and shows each subfield. */
  method ShowFields(sub: string, ghost fs: seq<Field>) returns (top: seq<string>, bottom: seq<string>)
    requires sub == EncFields(fs) && |sub| < 0x1_0000_0000
    ensures top == Tops(fs) && bottom == Bottoms(fs)
  {
    top, bottom := [], [];
    var pos, len := 0, |sub|;
    ghost var i := 0;
    while len > 0
      invariant i <= |fs| && pos <= |sub| && len == |sub| - pos
      invariant sub[pos..] == EncFields(fs[i..])
      invariant top == Tops(fs[..i]) && bottom == Bottoms(fs[..i])
      decreases len
    {
      FieldsStep(fs, i);
      ShownStep(fs, i);
      var f, next := FieldAt(sub, pos, fs[i..]);
      top, bottom := ShowField(f, top, bottom);
      len := len - (next - pos);
      pos := next;
      i := i + 1;
    }
    FieldsRoom(fs[i..]);
    assert fs[..i] == fs;
  }

  /** The lines of the record just read. */
  method ReadRecord(b: JamBase, idx: Idx, w: int, ghost r: Rec)
    requires RecordReadable(b.hdr, idx.hdrOffset, r) && TextInRange(r.h, b.jdt) && b.jamHdr == r.h
    modifies b`lines
    ensures b.lines == ReadLines(r, b.jdt, w)
  {
    var top, bottom: seq<string> := [], [];
    if b.jamHdr.subfieldLen > 0 {
      var sub := b.hdr[idx.hdrOffset + HDR_SIZE..idx.hdrOffset + HDR_SIZE + b.jamHdr.subfieldLen];
      top, bottom := ShowFields(sub, r.fields);
    } else {
      FieldsRoom(r.fields);
    }
    b.lines := ReadText(b.jdt, b.jamHdr.txtOffset, b.jamHdr.txtLen, w, top);
    b.lines := b.lines + bottom;
  }

  /** Reads the record whose header has just been read again, with its subfields and text. */
  method ReadFound(b: JamBase, w: int, ghost i: nat)
    requires b.Navigable() && i < |b.recs| && TextInRange(b.recs[i].h, b.jdt) && b.jdxPos == i + 1
    modifies b`jdxPos, b`jamHdr, b`lines
    ensures b.jdxPos == i + 1 && b.lines == ReadLines(b.recs[i], b.jdt, w)
  {
    b.jdxPos := b.jdxPos - 1;
    var ok, idx := b.Fetch();
    assert RecordReadable(b.hdr, b.jdx[i].hdrOffset, b.recs[i]);
    ReadRecord(b, idx, w, b.recs[i]);
  }

  ghost predicate TextsIn(recs: seq<Rec>, text: string)
  {
    forall i :: 0 <= i < |recs| ==> TextInRange(recs[i].h, text)
  }

  lemma TextsReadable(s: Store)
    requires Inv(s)
    ensures TextsIn(s.recs, s.text)
  {
    forall i | 0 <= i < |s.recs|
      ensures TextInRange(s.recs[i].h, s.text)
    {
      assert WellFormed(s.recs[i], s.text);
    }
  }

  /** The work of Read on readable files. */
  method ReadNavigable(b: JamBase, n: word, w: int) returns (found: bool)
    requires b.Navigable() && b.jdxPos <= |b.jdx| && TextsIn(b.recs, b.jdt)
    modifies b`jdxPos, b`jamHdr, b`msg, b`lines
    ensures b.jdxPos <= |b.jdx|
    ensures found <==> Find(b.recs, n) >= 0
    ensures b.lines == if found then ReadLines(b.recs[Find(b.recs, n)], b.jdt, w) else []
  {
    found := b.ReadHeader(n);
    if found {
      ghost var i := b.jdxPos - 1;
      FindUnique(b.recs, i, n);
      ReadFound(b, w, i);
    }
  }

  /** Reads undeleted message n into the line list at width w. */
  method Read(b: JamBase, n: word, w: int) returns (found: bool)
    requires b.Valid()
    modifies b`jdxPos, b`jamHdr, b`msg, b`lines
    ensures b.Valid()
    ensures found <==> Find(b.recs, n) >= 0
    ensures b.lines == if found then ReadLines(b.recs[Find(b.recs, n)], b.jdt, w) else []
  {
    b.ValidIsNavigable();
    TextsReadable(b.Base());
    found := ReadNavigable(b, n, w);
  }

  // ----- what reading gives

  ghost predicate AllHidden(fs: seq<Field>)
  {
    forall i :: 0 <= i < |fs| ==> ShownAs(fs[i]).Hidden?
  }

  lemma HiddenConcat(a: seq<Field>, b: seq<Field>)
    requires AllHidden(a) && AllHidden(b)
    ensures AllHidden(a + b)
  {
  }

  lemma HeadFieldsHidden(m: MsgBuf)
    ensures Tops(HeadFields(m)) == [] && Bottoms(HeadFields(m)) == []
  {
    var from, subject := [Field(SFLD_SENDERNAME, m.from)], [Field(SFLD_SUBJECT, m.subject)];
    var to := if m.to != "" then [Field(SFLD_RECVRNAME, m.to)] else [];
    var orig := if m.fromAddress != "" then [Field(SFLD_OADDRESS, m.fromAddress)] else [];
    var dest := if m.toAddress != "" then [Field(SFLD_DADDRESS, m.toAddress)] else [];
    HiddenConcat(from, to);
    HiddenConcat(from + to, subject);
    HiddenConcat(from + to + subject, orig);
    HiddenConcat(from + to + subject + orig, dest);
    HiddenFields(from + to + subject + orig + dest);
  }

  lemma {:induction false} HiddenFields(fs: seq<Field>)
    requires AllHidden(fs)
    ensures Tops(fs) == [] && Bottoms(fs) == []
  {
    if fs != [] {
      HiddenFields(fs[..|fs| - 1]);
    }
  }

  /** The number an addition gives is found at the new record. */
  lemma AddedIsFound(s: Store, m: MsgBuf, lines: seq<string>)
    requires Inv(s) && CanAdd(s, m, lines)
    ensures Find(Add(s, m, lines).recs, Highest(s) + 1) == |s.recs|
  {
  }

  /** Of the subfields of a message only those its lines became are shown. */
  lemma AddedShown(m: MsgBuf, lines: seq<string>)
    ensures Tops(FieldsOf(m, lines)) == Tops(KludgeFields(lines))
    ensures Bottoms(FieldsOf(m, lines)) == Bottoms(KludgeFields(lines))
  {
    ShownConcat(HeadFields(m), KludgeFields(lines));
    HeadFieldsHidden(m);
    assert [] + Tops(KludgeFields(lines)) == Tops(KludgeFields(lines));
    assert [] + Bottoms(KludgeFields(lines)) == Bottoms(KludgeFields(lines));
  }

  lemma AddedText(s: Store, m: MsgBuf, fs: seq<Field>, body: string)
    requires CanAddRec(s, m, fs, body)
    ensures TextOf(AddedRec(s, m, fs, |body|).h, s.text + body) == body
  {
    SizesFit(s, m, fs, body);
    assert s.text + body + "" == s.text + body;
    ReadInside(s.text, body, "");
  }

  lemma AddedLines(r: Rec, text: string, w: int, tops: seq<string>, bottoms: seq<string>, body: string)
    requires Tops(r.fields) == tops && Bottoms(r.fields) == bottoms && TextOf(r.h, text) == body
    ensures ReadLines(r, text, w) == FeedAll(Wrap(tops, "", false), body, w).out + bottoms
  {
  }

  /** A message read back after it was added gives its kept control lines, its body wrapped,
      and its kept SEEN-BY and PATH lines. */
  lemma AddThenRead(s: Store, m: MsgBuf, lines: seq<string>, w: int)
    requires Inv(s) && CanAdd(s, m, lines) && PlainBody(lines) && w >= 1
    ensures var s' := Add(s, m, lines); var fs := KludgeFields(lines);
            ReadLines(s'.recs[|s.recs|], s'.text, w) == Tops(fs) + WrapBody(lines, w) + Bottoms(fs)
  {
    var fs, body := FieldsOf(m, lines), BodyText(lines);
    var r, kept := AddedRec(s, m, fs, |body|), KludgeFields(lines);
    AddedShown(m, lines);
    AddedText(s, m, fs, body);
    AddedLines(r, s.text + body, w, Tops(kept), Bottoms(kept), body);
    BodyReadBack(Tops(kept), lines, w);
  }

  /** The lines, partitioned and the body wrapped. */
  function Partition(lines: seq<string>, w: int): seq<string>
  {
    Select(lines, IsControl) + WrapBody(lines, w) + Select(lines, IsBottom)
  }

  /** A message comes back as the stable partition of its lines, control lines first, then the
      wrapped body, then SEEN-BY and PATH lines, exactly when its control lines are Faithful. */
  lemma ReadsBackAsPartition(s: Store, m: MsgBuf, lines: seq<string>, w: int)
    requires Inv(s) && CanAdd(s, m, lines) && PlainBody(lines) && w >= 1
    ensures var s' := Add(s, m, lines);
            ReadLines(s'.recs[|s.recs|], s'.text, w) == Partition(lines, w) <==> AllFaithful(lines)
  {
    AddThenRead(s, m, lines, w);
    StablePartition(lines);
    var fs := KludgeFields(lines);
    PartsEqual(Tops(fs), Select(lines, IsControl), WrapBody(lines, w), Bottoms(fs), Select(lines, IsBottom));
  }

  lemma PartsEqual<T>(a: seq<T>, a': seq<T>, m: seq<T>, z: seq<T>, z': seq<T>)
    requires |a| == |a'|
    ensures a + m + z == a' + m + z' <==> a == a' && z == z'
  {
    if a + m + z == a' + m + z' {
      assert (a + m + z)[..|a|] == a && (a' + m + z')[..|a|] == a';
      assert (a + m + z)[|a + m|..] == z && (a' + m + z')[|a + m|..] == z';
    }
  }

  lemma AddedReadsBack(s: Store, m: MsgBuf, lines: seq<string>, w: int, s': Store)
    requires Inv(s) && CanAdd(s, m, lines) && s' == Add(s, m, lines)
    ensures Find(s'.recs, Highest(s) + 1) == |s.recs|
    ensures PlainBody(lines) && w >= 1 ==>
            (ReadLines(s'.recs[|s.recs|], s'.text, w) == Partition(lines, w) <==> AllFaithful(lines))
  {
    AddedIsFound(s, m, lines);
    if PlainBody(lines) && w >= 1 { ReadsBackAsPartition(s, m, lines, w); }
  }

  /** Reads a message of a known base. */
  method ReadOf(b: JamBase, n: word, w: int, ghost s: Store) returns (found: bool)
    requires b.Valid() && b.Base() == s
    modifies b`jdxPos, b`jamHdr, b`msg, b`lines
    ensures b.Valid() && b.Base() == s
    ensures found <==> Find(s.recs, n) >= 0
    ensures found ==> b.lines == ReadLines(s.recs[Find(s.recs, n)], s.text, w)
  {
    found := Read(b, n, w);
  }

  /** Adds the message in the buffers and reads it back by the number it was given: its lines
      come back partitioned exactly when its control lines are Faithful. */
  method AddAndRead(b: JamBase, w: int) returns (found: bool)
    requires b.Valid() && CanAdd(b.Base(), b.msg, b.lines)
    modifies b
    ensures b.Valid() && b.Base() == Add(old(b.Base()), old(b.msg), old(b.lines))
    ensures found && b.lines == ReadLines(b.recs[|old(b.recs)|], b.jdt, w)
    ensures PlainBody(old(b.lines)) && w >= 1 ==> (b.lines == Partition(old(b.lines), w) <==> AllFaithful(old(b.lines)))
  {
    ghost var s := Add(b.Base(), b.msg, b.lines);
    AddedReadsBack(b.Base(), b.msg, b.lines, w, s);
    b.AddMsg();
    found := ReadOf(b, b.msg.id, w, s);
  }

  /** Below the width, with Faithful control lines, every line comes back unchanged. */
  lemma ShortLinesReadBack(s: Store, m: MsgBuf, lines: seq<string>, w: int)
    requires Inv(s) && CanAdd(s, m, lines) && PlainBody(lines) && AllFaithful(lines) && w >= 1
    requires forall i :: 0 <= i < |lines| && IsBody(lines[i]) ==> |lines[i]| < w
    ensures var s' := Add(s, m, lines);
            ReadLines(s'.recs[|s.recs|], s'.text, w) ==
            Select(lines, IsControl) + Select(lines, IsBody) + Select(lines, IsBottom)
  {
    ReadsBackAsPartition(s, m, lines, w);
    ShortLinesUnchanged(lines, w);
  }

  /** Adding a message changes what no other message reads back as. */
  lemma AddKeepsOthers(s: Store, m: MsgBuf, lines: seq<string>, i: nat, w: int)
    requires Inv(s) && i < |s.recs|
    ensures ReadLines(Add(s, m, lines).recs[i], Add(s, m, lines).text, w) == ReadLines(s.recs[i], s.text, w)
  {
    assert TextInRange(s.recs[i].h, s.text) by { assert WellFormed(s.recs[i], s.text); }
    AddedAfter(s, m, lines, i);
    TextBefore(s.recs[i], s.text, BodyText(lines), w);
  }

  lemma AddedAfter(s: Store, m: MsgBuf, lines: seq<string>, i: nat)
    requires i < |s.recs|
    ensures Add(s, m, lines).recs[i] == s.recs[i] && Add(s, m, lines).text == s.text + BodyText(lines)
  {
  }

  lemma TextBefore(r: Rec, text: string, more: string, w: int)
    requires TextInRange(r.h, text)
    ensures ReadLines(r, text + more, w) == ReadLines(r, text, w)
  {
    var h := r.h;
    assert (text + more)[h.txtOffset..h.txtOffset + h.txtLen] == text[h.txtOffset..h.txtOffset + h.txtLen];
  }

  /** Packing changes what no survivor reads back as. */
  lemma PackKeepsReading(s: Store, users: Option<seq<word>>, t: nat, w: int)
    requires Inv(s) && t < LiveCount(s.recs)
    ensures ReadLines(Pack(s, users).recs[t], Pack(s, users).text, w) == ReadLines(s.recs[Survivor(s.recs, t)], s.text, w)
  {
    SurvivorKept(s, users, t);
  }
}
