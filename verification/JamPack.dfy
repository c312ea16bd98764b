/** Packing as it is done on the files: one pass over the header file that copies the
    survivors to new files while the last-read table is rewritten in place, then a pass over
    that table, then the new files take the place of the old. */
module JamPacking {
  import opened Bytes
  import opened JamFormat
  import opened JamText
  import opened JamStore
  import opened JamPackSpec
  import opened JamTables
  import opened JamBases
  import opened JamHeaders

  const MAX_TEXT: nat := 2048

  /** What one pass over the table does to one record. */
  function Repoint(lr: LastRead, was: word, now: word): LastRead
  {
    lr.(lastReadMsg := if lr.lastReadMsg == was then now else lr.lastReadMsg,
        highReadMsg := if lr.highReadMsg == was then now else lr.highReadMsg)
  }

  /** Gives every pointer that equals an old number its new number, in place. */
  method RepointTable(b: JamBase, was: word, now: word)
    modifies b`jlr
    ensures |b.jlr| == |old(b.jlr)|
    ensures forall j :: 0 <= j < |b.jlr| ==> b.jlr[j] == Repoint(old(b.jlr)[j], was, now)
  {
    var count := |b.jlr|;
    for i := 0 to count
      invariant |b.jlr| == count
      invariant forall j :: 0 <= j < i ==> b.jlr[j] == Repoint(old(b.jlr)[j], was, now)
      invariant forall j :: i <= j < count ==> b.jlr[j] == old(b.jlr)[j]
    {
      var lr := b.jlr[i];
      if (lr.lastReadMsg == was || lr.highReadMsg == was) && was != now {
        if lr.lastReadMsg == was {
          lr := lr.(lastReadMsg := now);
        }
        if lr.highReadMsg == was {
          lr := lr.(highReadMsg := now);
        }
        b.jlr := b.jlr[i := lr];
      }
    }
  }

  /** copied gives the text so far for every place in the text that is copied. */
  ghost predicate Copies(copied: nat -> string, jdt: string, off: nat, end: nat)
    requires end <= |jdt|
  {
    forall pos: nat, next: nat {:trigger copied(pos), copied(next)} ::
      off <= pos <= next <= end ==> copied(next) == copied(pos) + jdt[pos..next]
  }

  lemma TextCopies(to: string, jdt: string, off: nat, end: nat) returns (copied: nat -> string)
    requires off <= end <= |jdt|
    ensures Copies(copied, jdt, off, end) && copied(off) == to && copied(end) == to + jdt[off..end]
  {
    copied := (pos: nat) => if off <= pos <= |jdt| then to + jdt[off..pos] else to;
    forall pos: nat, next: nat {:trigger copied(pos), copied(next)} | off <= pos <= next <= end
      ensures copied(next) == copied(pos) + jdt[pos..next]
    {
      NextSlice(jdt, off, pos, next);
    }
  }

  /** Copies a text at most MAX_TEXT bytes at a time. */
  method CopyChunks(jdt: string, off: nat, len: nat, to: string, ghost copied: nat -> string) returns (r: string)
    requires off + len <= |jdt| && Copies(copied, jdt, off, off + len) && copied(off) == to
    ensures r == copied(off + len)
  {
    r := to;
    ghost var end := off + len;
    var pos: nat, left: nat := off, len;
    var go := true;
    while go
      invariant off <= pos <= end && pos + left == end
      invariant r == copied(pos)
      invariant !go ==> left == 0
      decreases left, if go then 1 else 0
    {
      var toRead := if MAX_TEXT > left then left else MAX_TEXT;
      var temp := ReadAt(jdt, pos, toRead);
      ghost var next := copied(pos + toRead);
      r := r + temp;
      pos := pos + |temp|;
      left := left - |temp|;
      go := left > 0;
    }
  }

  /** Copies a text to the end of the new text file. */
  method CopyText(jdt: string, off: nat, len: nat, to: string) returns (r: string)
    requires off + len <= |jdt|
    ensures r == to + ReadAt(jdt, off, len)
  {
    ghost var copied := TextCopies(to, jdt, off, off + len);
    r := CopyChunks(jdt, off, len, to, copied);
  }

  lemma ReadableAt(hdr: string, jdx: seq<Idx>, info: Info, recs: seq<Rec>, text: string, i: nat)
    requires FilesHold(hdr, jdx, info, recs) && |info.reserved| == RESERVED_SIZE && AllWellFormed(recs, text) && i < |recs|
    ensures RecordReadable(hdr, Offset(recs, i), recs[i])
    ensures Offset(recs, i + 1) == Offset(recs, i) + HDR_SIZE + recs[i].h.subfieldLen
    ensures TextInRange(recs[i].h, text)
  {
    assert WellFormed(recs[i], text);
    RecordAt(info, recs, i);
  }

  lemma PackStep(recs: seq<Rec>, text: string, i: nat)
    requires i < |recs|
    ensures PackedRecs(recs[..i + 1], text) ==
            if recs[i].Live() then
              PackedRecs(recs[..i], text) + [Moved(recs[i], LiveCount(recs[..i]) + 1, |PackedText(recs[..i], text)|)]
            else PackedRecs(recs[..i], text)
    ensures PackedText(recs[..i + 1], text) == PackedText(recs[..i], text) + if recs[i].Live() then TextOf(recs[i].h, text) else ""
  {
    assert recs[..i + 1][..i] == recs[..i];
  }

  lemma RemapStep(recs: seq<Rec>, i: nat, lr: LastRead)
    requires i < |recs|
    ensures RemapRead(recs[..i + 1], lr) == Repoint(RemapRead(recs[..i], lr), recs[i].Num(), Truncate(LiveCount(recs[..i + 1])))
  {
    assert recs[..i + 1][..i] == recs[..i];
  }

  /** The three new files while the old header file is being read. */
  datatype NewFiles = NewFiles(hdr: string, jdt: string, jdx: seq<Idx>)

  /** The new files hold what packing makes of recs. */
  ghost predicate HoldsPacked(f: NewFiles, info: Info, recs: seq<Rec>, text: string)
  {
    FilesHold(f.hdr, f.jdx, info, PackedRecs(recs, text)) && f.jdt == PackedText(recs, text)
  }

  /** The table holds what the records so far make of the old table. */
  ghost predicate Repointed(jlr: seq<LastRead>, was: seq<LastRead>, recs: seq<Rec>)
  {
    |jlr| == |was| && forall j :: 0 <= j < |jlr| ==> jlr[j] == RemapRead(recs, was[j])
  }

  lemma RepointedStep(jlr: seq<LastRead>, next: seq<LastRead>, was: seq<LastRead>, recs: seq<Rec>, i: nat, now: word)
    requires i < |recs| && Repointed(jlr, was, recs[..i]) && |next| == |jlr|
    requires now == Truncate(LiveCount(recs[..i + 1]))
    requires forall j :: 0 <= j < |jlr| ==> next[j] == Repoint(jlr[j], recs[i].Num(), now)
    ensures Repointed(next, was, recs[..i + 1])
  {
    forall j | 0 <= j < |next|
      ensures next[j] == RemapRead(recs[..i + 1], was[j])
    {
      RemapStep(recs, i, was[j]);
    }
  }

  /** Copies one record and its text to the new files under header h. */
  method CopyRecord(hdr: string, jdt: string, f: NewFiles, h: Hdr, from: nat, pos: nat, ghost fs: seq<Field>)
    returns (g: NewFiles, next: nat)
    requires pos + h.subfieldLen <= |hdr| && hdr[pos..pos + h.subfieldLen] == EncFields(fs)
    requires from + h.txtLen <= |jdt| && |f.hdr| < FILE_LIMIT
    ensures g == NewFiles(f.hdr + EncHdr(h) + EncFields(fs), f.jdt + ReadAt(jdt, from, h.txtLen), f.jdx + [Idx(0, |f.hdr|)])
    ensures next == pos + h.subfieldLen
  {
    var idx := Idx(0, |f.hdr|);
    var to := f.hdr + EncHdr(h);
    next := pos;
    if h.subfieldLen > 0 {
      to := to + hdr[pos..pos + h.subfieldLen];
      next := pos + h.subfieldLen;
    }
    var text := CopyText(jdt, from, h.txtLen, f.jdt);
    g := NewFiles(to, text, f.jdx + [idx]);
  }

  lemma RecordCopied(info: Info, recs: seq<Rec>, text: string, i: nat, f: NewFiles, h: Hdr)
    requires i < |recs| && recs[i].Live() && HoldsPacked(f, info, recs[..i], text) && |info.reserved| == RESERVED_SIZE
    requires Rec(h, recs[i].fields) == Moved(recs[i], LiveCount(recs[..i]) + 1, |f.jdt|) && |f.hdr| < FILE_LIMIT
    ensures HoldsPacked(NewFiles(f.hdr + EncHdr(h) + EncFields(recs[i].fields), f.jdt + TextOf(recs[i].h, text), f.jdx + [Idx(0, |f.hdr|)]),
                        info, recs[..i + 1], text)
  {
    PackStep(recs, text, i);
    AppendFiles(f.hdr, f.jdx, info, PackedRecs(recs[..i], text), h, recs[i].fields, Idx(0, |f.hdr|));
  }

  /** Copies the survivor in the header buffer to the new files under its new number. */
  method CopySurvivor(b: JamBase, f: NewFiles, pos: nat, num: word, ghost i: nat) returns (g: NewFiles, next: nat)
    requires i < |b.recs| && b.recs[i].Live() && b.jamHdr == b.recs[i].h && |b.jamHdrInfo.reserved| == RESERVED_SIZE
    requires pos >= HDR_SIZE && RecordReadable(b.hdr, pos - HDR_SIZE, b.recs[i]) && TextInRange(b.recs[i].h, b.jdt)
    requires HoldsPacked(f, b.jamHdrInfo, b.recs[..i], b.jdt) && |f.hdr| < FILE_LIMIT && num == Truncate(LiveCount(b.recs[..i]) + 1)
    modifies b`jamHdr, b`jlr
    ensures HoldsPacked(g, b.jamHdrInfo, b.recs[..i + 1], b.jdt) && next == pos + b.recs[i].h.subfieldLen
    ensures |b.jlr| == |old(b.jlr)|
    ensures forall j :: 0 <= j < |b.jlr| ==> b.jlr[j] == Repoint(old(b.jlr)[j], b.recs[i].Num(), num)
  {
    var from := b.jamHdr.txtOffset;
    b.jamHdr := b.jamHdr.(txtOffset := Truncate(|f.jdt|));
    RepointTable(b, b.jamHdr.msgNum, num);
    b.jamHdr := b.jamHdr.(msgNum := num);
    RecordCopied(b.jamHdrInfo, b.recs, b.jdt, i, f, b.jamHdr);
    g, next := CopyRecord(b.hdr, b.jdt, f, b.jamHdr, from, pos, b.recs[i].fields);
  }

  lemma PackedFits(s: Store, i: nat)
    requires Inv(s) && i <= |s.recs|
    ensures |HdrFile(s.info, PackedRecs(s.recs[..i], s.text))| < FILE_LIMIT
  {
    var a := s.recs[..i];
    PackedSize(a, s.text);
    SplitSeq2(s.recs, i);
    RecBytesConcat(a, s.recs[i..]);
  }

  lemma SplitSeq2<T>(s: seq<T>, i: nat)
    requires i <= |s|
    ensures s[..i] + s[i..] == s
  {
  }

  /** Where the pass stands after i records. */
  ghost predicate Progress(b: JamBase, f: NewFiles, pos: nat, written: word, i: nat, table: seq<LastRead>)
    reads b
  {
    && i <= |b.recs| && pos == Offset(b.recs, i)
    && HoldsPacked(f, b.jamHdrInfo, b.recs[..i], b.jdt)
    && written == LiveCount(b.recs[..i])
    && Repointed(b.jlr, table, b.recs[..i])
  }

  /** What the pass needs to know about record i. */
  ghost predicate Known(b: JamBase, i: nat)
    reads b
  {
    && i < |b.recs| && |b.jamHdrInfo.reserved| == RESERVED_SIZE
    && RecordReadable(b.hdr, Offset(b.recs, i), b.recs[i]) && TextInRange(b.recs[i].h, b.jdt)
    && Offset(b.recs, i + 1) == Offset(b.recs, i) + HDR_SIZE + b.recs[i].h.subfieldLen
    && LiveCount(b.recs[..i + 1]) == LiveCount(b.recs[..i]) + (if b.recs[i].Live() then 1 else 0)
    && LiveCount(b.recs[..i + 1]) < FILE_LIMIT
    && |HdrFile(b.jamHdrInfo, PackedRecs(b.recs[..i], b.jdt))| < FILE_LIMIT
  }

  lemma RecordFacts(b: JamBase, i: nat)
    requires b.Sound() && i < |b.recs|
    ensures Known(b, i)
  {
    RecordsFew(b.Base());
    ReadableAt(b.hdr, b.jdx, b.jamHdrInfo, b.recs, b.jdt, i);
    LiveCountStep(b.recs, i);
    PackedFits(b.Base(), i);
  }

  /** Leaves the deleted record in the header buffer behind. */
  method LeaveRecord(b: JamBase, f: NewFiles, pos: nat, num: word, ghost i: nat) returns (next: nat)
    requires i < |b.recs| && !b.recs[i].Live() && b.jamHdr == b.recs[i].h
    requires HoldsPacked(f, b.jamHdrInfo, b.recs[..i], b.jdt)
    modifies b`jlr
    ensures HoldsPacked(f, b.jamHdrInfo, b.recs[..i + 1], b.jdt) && next == pos + b.recs[i].h.subfieldLen
    ensures |b.jlr| == |old(b.jlr)|
    ensures forall j :: 0 <= j < |b.jlr| ==> b.jlr[j] == Repoint(old(b.jlr)[j], b.recs[i].Num(), num)
  {
    PackStep(b.recs, b.jdt, i);
    next := pos + b.jamHdr.subfieldLen;
    RepointTable(b, b.jamHdr.msgNum, num);
  }

  /** One record of the pass: copied to the new files or left behind, and followed by the table. */
  method PassRecord(b: JamBase, f: NewFiles, pos: nat, written: word, ghost i: nat, ghost table: seq<LastRead>)
    returns (g: NewFiles, next: nat, now: word)
    requires Known(b, i) && Progress(b, f, pos, written, i, table)
    modifies b`jamHdr, b`jlr
    ensures Progress(b, g, next, now, i + 1, table)
  {
    b.jamHdr := HeaderAt(b.hdr, pos);
    next := pos + HDR_SIZE;
    ghost var before := b.jlr;
    if b.jamHdr.Deleted() {
      g, now := f, written;
      next := LeaveRecord(b, f, next, now, i);
    } else {
      now := written + 1;
      g, next := CopySurvivor(b, f, next, now, i);
    }
    RepointedStep(before, b.jlr, table, b.recs, i, now);
  }

  /** Whether another header can be read from pos on. */
  lemma PassEnds(b: JamBase, i: nat)
    requires b.Sound() && i <= |b.recs|
    ensures Offset(b.recs, i) + HDR_SIZE <= |b.hdr| <==> i < |b.recs|
  {
    if i < |b.recs| {
      RecordFacts(b, i);
    } else {
      OffsetEnd(b.jamHdrInfo, b.recs);
    }
  }

  /** One turn of the pass, and whether there will be another. */
  method PassStep(b: JamBase, f: NewFiles, pos: nat, written: word, ghost i: nat, ghost table: seq<LastRead>)
    returns (g: NewFiles, next: nat, now: word)
    requires b.Sound() && i < |b.recs| && Progress(b, f, pos, written, i, table)
    modifies b`jamHdr, b`jlr
    ensures Progress(b, g, next, now, i + 1, table)
    ensures next + HDR_SIZE <= |b.hdr| <==> i + 1 < |b.recs|
  {
    RecordFacts(b, i);
    PassEnds(b, i + 1);
    g, next, now := PassRecord(b, f, pos, written, i, table);
  }

  lemma PassStarts(b: JamBase)
    requires b.Sound()
    ensures Progress(b, NewFiles(EncInfo(b.jamHdrInfo), "", []), INFO_SIZE, 0, 0, b.jlr)
    ensures INFO_SIZE + HDR_SIZE <= |b.hdr| <==> 0 < |b.recs|
  {
    NothingPacked(b.jamHdrInfo, b.jdt, b.recs, b.jlr);
    PassEnds(b, 0);
  }

  lemma PassDone(b: JamBase, f: NewFiles, pos: nat, written: word, i: nat, table: seq<LastRead>)
    requires Progress(b, f, pos, written, i, table) && i >= |b.recs|
    ensures HoldsPacked(f, b.jamHdrInfo, b.recs, b.jdt) && written == LiveCount(b.recs) && Repointed(b.jlr, table, b.recs)
  {
    assert b.recs[..i] == b.recs;
  }

  /** Reads the old header file from record to record, copies the survivors and rewrites the
      table; returns the new files and the number of survivors. */
  method CopySurvivors(b: JamBase) returns (f: NewFiles, written: word)
    requires b.Sound()
    modifies b`jamHdr, b`jlr
    ensures HoldsPacked(f, b.jamHdrInfo, b.recs, b.jdt)
    ensures written == LiveCount(b.recs)
    ensures Repointed(b.jlr, old(b.jlr), b.recs)
  {
    ghost var i := 0;
    PassStarts(b);
    f := NewFiles(EncInfo(b.jamHdrInfo), "", []);
    written := 0;
    var pos: nat := INFO_SIZE;
    while pos + HDR_SIZE <= |b.hdr|
      invariant Progress(b, f, pos, written, i, old(b.jlr))
      invariant pos + HDR_SIZE <= |b.hdr| <==> i < |b.recs|
      modifies b`jamHdr, b`jlr
      decreases |b.recs| - i
    {
      f, pos, written := PassStep(b, f, pos, written, i, old(b.jlr));
      i := i + 1;
    }
    PassDone(b, f, pos, written, i, old(b.jlr));
  }

  lemma NothingPacked(info: Info, text: string, recs: seq<Rec>, lrs: seq<LastRead>)
    ensures HoldsPacked(NewFiles(EncInfo(info), "", []), info, recs[..0], text)
    ensures Repointed(lrs, lrs, recs[..0])
    ensures Offset(recs, 0) == INFO_SIZE
  {
    assert recs[..0] == [];
    assert EncInfo(info) + "" == EncInfo(info);
  }

  /** Corrects the count of active messages in the new header file, if anything was written. */
  method CorrectCount(b: JamBase, f: NewFiles, written: word, ghost recs: seq<Rec>) returns (g: NewFiles)
    requires f.hdr == HdrFile(b.jamHdrInfo, recs) && |b.jamHdrInfo.reserved| == RESERVED_SIZE
    modifies b`jamHdrInfo
    ensures b.jamHdrInfo == old(b.jamHdrInfo).(activeMsgs := if written > 0 then written else old(b.jamHdrInfo.activeMsgs))
    ensures g == f.(hdr := HdrFile(b.jamHdrInfo, recs))
  {
    g := f;
    if written > 0 {
      RewriteInfo(b.jamHdrInfo, b.jamHdrInfo, recs);
      b.jamHdrInfo := DecInfo(ReadAt(f.hdr, 0, INFO_SIZE));
      if b.jamHdrInfo.activeMsgs != written {
        b.jamHdrInfo := b.jamHdrInfo.(activeMsgs := written);
        RewriteInfo(old(b.jamHdrInfo), b.jamHdrInfo, recs);
        g := f.(hdr := WriteAt(f.hdr, 0, EncInfo(b.jamHdrInfo)));
      }
    }
  }

  /** The copies of a record whose user id is a name CRC, one for each user in the file. */
  method CopyByCrc(us: seq<word>, lr: LastRead, to: seq<LastRead>) returns (r: seq<LastRead>)
    ensures r == to + ByCrc(us, |us|, lr).0
  {
    r := to;
    var cur := lr;
    assert to + [] == to;
    for myrec := 0 to |us|
      invariant r == to + ByCrc(us, myrec, lr).0 && cur == ByCrc(us, myrec, lr).1
    {
      if cur.userCRC == us[myrec] {
        cur := cur.(userID := Truncate(myrec));
      }
      r := r + [cur];
    }
  }

  /** Copies the last-read table: pointers of an empty area are reset, the others limited to
      the last message, and records of users that no longer exist are dropped. */
  method CopyReads(b: JamBase, users: Option<seq<word>>, ghost recs: seq<Rec>, ghost was: seq<LastRead>) returns (to: seq<LastRead>)
    requires Repointed(b.jlr, was, recs)
    ensures to == PackedReads(recs, b.jamHdrInfo.activeMsgs, users, was)
  {
    var active := b.jamHdrInfo.activeMsgs;
    to := [];
    for i := 0 to |b.jlr|
      invariant to == PackedReads(recs, active, users, was[..i])
    {
      var lr := b.jlr[i];
      if active == 0 && (lr.lastReadMsg != 0 || lr.highReadMsg != 0) {
        lr := lr.(lastReadMsg := 0, highReadMsg := 0);
      }
      if active != 0 && lr.lastReadMsg > active {
        lr := lr.(lastReadMsg := active);
      }
      if active != 0 && lr.highReadMsg > active {
        lr := lr.(highReadMsg := active);
      }
      assert lr == Clamp(active, RemapRead(recs, was[i]));
      ReadsStep(recs, active, users, was, i);
      match users
      case Some(us) =>
        if lr.userID == lr.userCRC && lr.userCRC != 0 {
          to := CopyByCrc(us, lr, to);
        } else if lr.userID < |us| && us[lr.userID] == lr.userCRC {
          to := to + [lr];
        }
      case None =>
        to := to + [lr];
    }
    assert was[..|b.jlr|] == was;
  }

  lemma ReadsStep(recs: seq<Rec>, active: word, users: Option<seq<word>>, was: seq<LastRead>, i: nat)
    requires i < |was|
    ensures PackedReads(recs, active, users, was[..i + 1]) ==
            PackedReads(recs, active, users, was[..i]) + KeptReads(users, Clamp(active, RemapRead(recs, was[i])))
  {
    assert was[..i + 1][..i] == was[..i];
  }

  /** Puts the new files in the place of the old and opens them. */
  method SwapIn(b: JamBase, f: NewFiles, lastReads: seq<LastRead>, ghost recs: seq<Rec>, now: word)
    requires Inv(Store(b.jamHdrInfo, recs, f.jdt, lastReads)) && FilesHold(f.hdr, f.jdx, b.jamHdrInfo, recs)
    modifies b
    ensures b.Valid() && b.Base() == Store(old(b.jamHdrInfo), recs, f.jdt, lastReads)
    ensures b.jdxPos == 0 && b.msg == old(b.msg).(id := 0) && b.lines == old(b.lines)
  {
    b.hdr, b.jdt, b.jdx, b.jlr := f.hdr, f.jdt, f.jdx, lastReads;
    b.recs := recs;
    assert b.Sound();
    var ok := b.Open(now);
  }

  /** Packs the base: the survivors renumbered, the last-read pointers following them.  users
      holds the CRC of each user's name, if there is a user file. */
  method Pack(b: JamBase, users: Option<seq<word>>, now: word)
    requires b.Valid()
    modifies b
    ensures b.Base() == JamPackSpec.Pack(old(b.Base()), users)
    ensures TablePacked(old(b.Base()), users, b.jlr)
    ensures b.Valid()
    ensures b.jdxPos == 0 && b.msg == old(b.msg).(id := 0) && b.lines == old(b.lines)
  {
    ghost var s := b.Base();
    ghost var p := JamPackSpec.Pack(s, users);
    PackKeepsInv(s, users);
    PackedTable(s, users);
    var f, newReads := PackedFiles(b, users);
    assert Store(b.jamHdrInfo, p.recs, f.jdt, newReads) == p;
    SwapIn(b, f, newReads, p.recs, now);
  }

  /** The new files and the new last-read table; the information block in memory is the new one. */
  method PackedFiles(b: JamBase, users: Option<seq<word>>) returns (f: NewFiles, lastReads: seq<LastRead>)
    requires b.Sound()
    modifies b`jamHdrInfo, b`jamHdr, b`jlr
    ensures b.jamHdrInfo == old(b.jamHdrInfo).(activeMsgs := PackedActive(old(b.Base())))
    ensures FilesHold(f.hdr, f.jdx, b.jamHdrInfo, PackedRecs(b.recs, b.jdt)) && f.jdt == PackedText(b.recs, b.jdt)
    ensures lastReads == PackedReads(b.recs, b.jamHdrInfo.activeMsgs, users, old(b.jlr))
  {
    RewriteInfo(b.jamHdrInfo, b.jamHdrInfo, b.recs);
    b.jamHdrInfo := DecInfo(ReadAt(b.hdr, 0, INFO_SIZE));
    var written;
    f, written := CopySurvivors(b);
    f := CorrectCount(b, f, written, PackedRecs(b.recs, b.jdt));
    lastReads := CopyReads(b, users, b.recs, old(b.jlr));
  }
}
