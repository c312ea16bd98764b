/** The open message base: the four files, the position in the index file and the global
    buffers, updated step by step by the operations on messages. */
module JamBases {
  import opened Bytes
  import opened JamFormat
  import opened JamText
  import opened JamStore
  import opened JamHeaders

  /** The header at an offset of the header file. */
  function HeaderAt(hdr: string, off: nat): Hdr
    requires off + HDR_SIZE <= |hdr|
  {
    DecHdr(hdr[off..off + HDR_SIZE])
  }

  /** Record r can be read at an offset of the header file. */
  ghost predicate RecordReadable(hdr: string, off: nat, r: Rec)
  {
    && off + HDR_SIZE + r.h.subfieldLen <= |hdr|
    && HeaderAt(hdr, off) == r.h
    && hdr[off + HDR_SIZE..off + HDR_SIZE + r.h.subfieldLen] == EncFields(r.fields)
  }

  ghost predicate AllReadable(hdr: string, jdx: seq<Idx>, recs: seq<Rec>)
  {
    && |jdx| == |recs|
    && (forall i {:trigger jdx[i].hdrOffset} :: 0 <= i < |recs| ==> RecordReadable(hdr, jdx[i].hdrOffset, recs[i]))
  }

  lemma FilesReadable(hdr: string, jdx: seq<Idx>, info: Info, recs: seq<Rec>, text: string)
    requires FilesHold(hdr, jdx, info, recs) && |info.reserved| == RESERVED_SIZE && AllWellFormed(recs, text)
    ensures AllReadable(hdr, jdx, recs)
  {
    forall i {:trigger jdx[i].hdrOffset} | 0 <= i < |recs|
      ensures RecordReadable(hdr, jdx[i].hdrOffset, recs[i])
    {
      assert WellFormed(recs[i], text);
      RecordAt(info, recs, i);
    }
  }

  /** Undeleted numbers strictly increase. */
  ghost predicate LiveOrdered(recs: seq<Rec>)
  {
    forall i, j {:trigger recs[i].Num(), recs[j].Num()} ::
      0 <= i < j < |recs| && recs[i].Live() && recs[j].Live() ==> recs[i].Num() < recs[j].Num()
  }

  lemma FieldsStep(fs: seq<Field>, i: nat)
    requires i < |fs|
    ensures fs[i..] != [] && fs[i..][0] == fs[i] && fs[i..][1..] == fs[i + 1..]
    ensures fs[..i + 1][..i] == fs[..i] && fs[..i + 1][i] == fs[i]
  {
  }

  lemma SliceOfTail(s: string, p: nat, a: nat, n: nat)
    requires p + a + n <= |s|
    ensures s[p..][a..a + n] == s[p + a..p + a + n]
  {
  }

  /** The subfield at a position of the subfield buffer, and where the next one starts. */
  method FieldAt(sub: string, pos: nat, ghost rest: seq<Field>) returns (f: Field, next: nat)
    requires pos <= |sub| < 0x1_0000_0000 && rest != [] && sub[pos..] == EncFields(rest)
    ensures f == rest[0] && pos < next <= |sub| && sub[next..] == EncFields(rest[1..])
  {
    FieldAtHead(rest);
    assert sub[pos..][4..] == sub[pos + 4..];
    var datLen := Word(sub[pos + 4..]);
    next := pos + SUB_SIZE + datLen;
    f := Field(Word(sub[pos..]), sub[pos + SUB_SIZE..next]);
    SliceOfTail(sub, pos, SUB_SIZE, datLen);
    assert sub[next..] == sub[pos..][SUB_SIZE + datLen..];
  }

  lemma FieldsRoom(fs: seq<Field>)
    ensures fs == [] <==> EncFields(fs) == ""
  {
  }

  class JamBase {
    var hdr: string
    var jdt: string
    var jdx: seq<Idx>
    var jlr: seq<LastRead>
    var jdxPos: nat
    var jamHdrInfo: Info
    var jamHdr: Hdr
    var lastReadRec: nat
    var msg: MsgBuf
    var lines: seq<string>
    ghost var recs: seq<Rec>

    ghost function Base(): Store
      reads `jdt, `jlr, `jamHdrInfo, `recs
    {
      Store(jamHdrInfo, recs, jdt, jlr)
    }

    /** The files and the header information hold a base that meets the invariant. */
    ghost predicate Sound()
      reads `hdr, `jdt, `jdx, `jlr, `jamHdrInfo, `recs
    {
      Inv(Base()) && FilesHold(hdr, jdx, jamHdrInfo, recs)
    }

    ghost predicate Valid()
      reads this
    {
      Sound() && jdxPos <= |jdx|
    }

    /** What reading and navigation rely on. */
    ghost predicate Navigable()
      reads `hdr, `jdx, `recs, `jamHdrInfo
    {
      && AllReadable(hdr, jdx, recs) && LiveOrdered(recs)
      && (jamHdrInfo.activeMsgs == 0 <==> forall i :: 0 <= i < |recs| ==> !recs[i].Live())
    }

    lemma ValidIsNavigable()
      requires Valid()
      ensures Navigable()
    {
      FilesReadable(hdr, jdx, jamHdrInfo, recs, jdt);
      NumbersOrdered(Base());
      if jamHdrInfo.activeMsgs == 0 {
        NoneLive(recs);
      } else if forall i :: 0 <= i < |recs| ==> !recs[i].Live() {
        AllDead(recs);
      }
    }

    /** Reads the index record at the position and the header it points to. */
    method Fetch() returns (ok: bool, idx: Idx)
      requires Navigable() && jdxPos <= |jdx|
      modifies `jdxPos, `jamHdr
      ensures ok <==> old(jdxPos) < |jdx|
      ensures ok ==> jdxPos == old(jdxPos) + 1 && idx == jdx[old(jdxPos)] && jamHdr == recs[old(jdxPos)].h
      ensures !ok ==> jdxPos == old(jdxPos) && jamHdr == old(jamHdr)
    {
      idx := Idx(0, 0);
      ok := jdxPos < |jdx|;
      if ok {
        idx := jdx[jdxPos];
        assert RecordReadable(hdr, idx.hdrOffset, recs[jdxPos]);
        jamHdr := HeaderAt(hdr, idx.hdrOffset);
        jdxPos := jdxPos + 1;
      }
    }

    /** Reads the index record at a place and the header it points to. */
    method FetchAt(pos: nat) returns (ok: bool)
      requires Navigable() && pos < |jdx|
      modifies `jdxPos, `jamHdr
      ensures ok && pos < |recs| && jdxPos == pos + 1 && jamHdr == recs[pos].h
    {
      jdxPos := pos;
      var idx;
      ok, idx := Fetch();
    }

    /** The number of the last record, if any message is active. */
    method Highest() returns (n: word)
      requires Navigable() && jdxPos <= |jdx|
      modifies `jdxPos, `jamHdr, `msg
      ensures jdxPos <= |jdx|
      ensures n == JamStore.Highest(Base())
      ensures msg == old(msg).(id := n)
    {
      n := 0;
      if jamHdrInfo.activeMsgs > 0 {
        jdxPos := |jdx| - 1;
        var ok, idx := Fetch();
        if ok {
          n := jamHdr.msgNum;
        }
      }
      msg := msg.(id := n);
    }

    /** The number of the first record, deleted or not, if any message is active. */
    method Lowest() returns (n: word)
      requires Navigable() && jdxPos <= |jdx|
      modifies `jdxPos, `jamHdr, `msg
      ensures jdxPos <= |jdx|
      ensures n == if jamHdrInfo.activeMsgs > 0 then recs[0].Num() else 0
      ensures msg == old(msg).(id := n)
    {
      n := 0;
      if jamHdrInfo.activeMsgs > 0 {
        jdxPos := 0;
        var ok, idx := Fetch();
        if ok {
          n := jamHdr.msgNum;
        }
      }
      msg := msg.(id := n);
    }

    /** First attempt of Next: from the record before the position on, looks for number n and
        then for the next undeleted message. */
    method NextFromHere(n: word) returns (found: bool, maybeNext: bool, next: word)
      requires Navigable() && jdxPos <= |jdx| && jamHdrInfo.activeMsgs > 0
      modifies `jdxPos, `jamHdr
      ensures jdxPos <= |jdx|
      ensures found ==> maybeNext && IsNext(n, next)
      ensures !found ==> next == n && (maybeNext ==> forall i :: 0 <= i < |recs| && recs[i].Live() ==> recs[i].Num() <= n)
    {
      found, maybeNext, next := false, false, n;
      if jdxPos >= 1 {
        jdxPos := jdxPos - 1;
      }
      ghost var m := 0;
      var go := true;
      while go
        invariant jdxPos <= |recs|
        invariant maybeNext ==> m < jdxPos && LiveAt(recs, m, n)
        invariant !found ==> next == n && (maybeNext ==> forall i :: m < i < jdxPos ==> !recs[i].Live())
        invariant found ==> !go && maybeNext && m < jdxPos - 1 && LiveAt(recs, jdxPos - 1, next) && jamHdr == recs[jdxPos - 1].h &&
                            next > n && forall i :: m < i < jdxPos - 1 ==> !recs[i].Live()
        invariant !go && !found ==> jdxPos == |recs|
        modifies `jdxPos, `jamHdr
        decreases |recs| - jdxPos, if go then 1 else 0
      {
        var ok, idx := Fetch();
        if ok {
          if maybeNext {
            assert recs[m].Num() == n && (jamHdr.Deleted() || recs[jdxPos - 1].Num() > n);
            if !jamHdr.Deleted() && jamHdr.msgNum > next {
              next := jamHdr.msgNum;
              found := true;
            }
          }
          if !jamHdr.Deleted() && jamHdr.msgNum == next {
            m := if found then m else jdxPos - 1;
            maybeNext := true;
          }
        }
        go := !found && jdxPos < |jdx|;
      }
    }

    /** Second attempt of Next: the whole index. */
    method NextFromStart(n: word) returns (found: bool, next: word)
      requires Navigable() && jdxPos <= |jdx| && jamHdrInfo.activeMsgs > 0
      modifies `jdxPos, `jamHdr
      ensures jdxPos <= |jdx|
      ensures found ==> IsNext(n, next)
      ensures !found ==> next == n && forall i :: 0 <= i < |recs| && recs[i].Live() ==> recs[i].Num() <= n
    {
      found, next := false, n;
      jdxPos := 0;
      var go := true;
      while go
        invariant jdxPos <= |recs|
        invariant !found ==> next == n && forall i :: 0 <= i < jdxPos && recs[i].Live() ==> recs[i].Num() <= n
        invariant found ==> !go && jdxPos >= 1 && LiveAt(recs, jdxPos - 1, next) && jamHdr == recs[jdxPos - 1].h && next > n &&
                            forall i :: 0 <= i < jdxPos - 1 && recs[i].Live() ==> recs[i].Num() <= n
        invariant !go && !found ==> jdxPos == |recs|
        modifies `jdxPos, `jamHdr
        decreases |recs| - jdxPos, if go then 1 else 0
      {
        var ok, idx := Fetch();
        if ok {
          if !jamHdr.Deleted() && jamHdr.msgNum > next {
            next := jamHdr.msgNum;
            found := true;
          }
        }
        go := !found && jdxPos < |jdx|;
      }
    }

    /** The record just read is the undeleted one with the least number above n. */
    ghost predicate IsNext(n: word, next: word)
      reads `jdxPos, `jamHdr, `recs
    {
      && next > n && 1 <= jdxPos <= |recs| && LiveAt(recs, jdxPos - 1, next) && jamHdr == recs[jdxPos - 1].h
      && forall i :: 0 <= i < |recs| && recs[i].Live() && recs[i].Num() > n ==> recs[i].Num() >= next
    }

    /** The record just read is the undeleted one with the greatest number below n. */
    ghost predicate IsPrevious(n: word, prev: word)
      reads `jdxPos, `jamHdr, `recs
    {
      && prev < n && 1 <= jdxPos <= |recs| && LiveAt(recs, jdxPos - 1, prev) && jamHdr == recs[jdxPos - 1].h
      && forall i :: 0 <= i < |recs| && recs[i].Live() && recs[i].Num() < n ==> recs[i].Num() <= prev
    }

    /** From any position: the least undeleted number above n, or n itself and false. */
    method Next(n: word) returns (found: bool, next: word)
      requires Navigable() && jdxPos <= |jdx|
      modifies `jdxPos, `jamHdr, `msg
      ensures jdxPos <= |jdx|
      ensures found ==> IsNext(n, next)
      ensures !found ==> next == n && forall i :: 0 <= i < |recs| && recs[i].Live() ==> recs[i].Num() <= n
      ensures msg == if jamHdrInfo.activeMsgs == 0 then old(msg) else old(msg).(id := if found then next else 0)
    {
      found, next := false, n;
      if jamHdrInfo.activeMsgs > 0 {
        var maybeNext;
        found, maybeNext, next := NextFromHere(n);
        if !found && !maybeNext {
          found, next := NextFromStart(n);
        }
        msg := msg.(id := if found then next else 0);
      }
    }

    /** First attempt of Previous: backwards from the record before the position. */
    method PreviousFromHere(n: word) returns (found: bool, maybeNext: bool, prev: word)
      requires Navigable() && jdxPos <= |jdx| && jamHdrInfo.activeMsgs > 0
      modifies `jdxPos, `jamHdr
      ensures jdxPos <= |jdx|
      ensures found ==> maybeNext && IsPrevious(n, prev)
      ensures !found ==> prev == n && (maybeNext ==> forall i :: 0 <= i < |recs| && recs[i].Live() ==> recs[i].Num() >= n)
    {
      found, maybeNext, prev := false, false, n;
      if jdxPos >= 1 {
        var pos: int := jdxPos - 1;
        ghost var m := |recs|;
        var go := true;
        while go
          invariant -1 <= pos < |recs| && jdxPos <= |recs|
          invariant maybeNext ==> pos < m && LiveAt(recs, m, n)
          invariant !found ==> prev == n && (maybeNext ==> forall i :: pos < i < m ==> !recs[i].Live())
          invariant found ==> !go && maybeNext && jdxPos == pos + 2 && pos + 1 < m && LiveAt(recs, pos + 1, prev) &&
                              jamHdr == recs[pos + 1].h && prev < n && forall i :: pos + 1 < i < m ==> !recs[i].Live()
          invariant go ==> pos >= 0
          invariant !go && !found ==> pos == -1
          modifies `jdxPos, `jamHdr
          decreases pos + 1
        {
          var ok := FetchAt(pos);
          if ok {
            if maybeNext {
              assert recs[m].Num() == n && (jamHdr.Deleted() || recs[pos].Num() < n);
              if !jamHdr.Deleted() && jamHdr.msgNum < prev {
                prev := jamHdr.msgNum;
                found := true;
              }
            }
            if !jamHdr.Deleted() && jamHdr.msgNum == prev {
              m := if found then m else pos;
              maybeNext := true;
            }
          }
          pos := pos - 1;
          go := !found && pos >= 0;
        }
      }
    }

    /** Reads the record at a place of the index: whether it is an undeleted one below n. */
    method BelowAt(pos: nat, n: word) returns (found: bool, prev: word)
      requires Navigable() && pos < |jdx|
      modifies `jdxPos, `jamHdr
      ensures pos < |recs| && jdxPos == pos + 1 && jamHdr == recs[pos].h
      ensures found <==> recs[pos].Live() && recs[pos].Num() < n
      ensures prev == if found then recs[pos].Num() else n
    {
      found, prev := false, n;
      var ok := FetchAt(pos);
      if ok {
        if !jamHdr.Deleted() && jamHdr.msgNum < prev {
          prev := jamHdr.msgNum;
          found := true;
        }
      }
    }

    /** Second attempt of Previous: the whole index, from its end. */
    method PreviousFromEnd(n: word) returns (found: bool, prev: word)
      requires Navigable() && jdxPos <= |jdx| && jamHdrInfo.activeMsgs > 0
      modifies `jdxPos, `jamHdr
      ensures jdxPos <= |jdx|
      ensures found ==> IsPrevious(n, prev)
      ensures !found ==> prev == n && forall i :: 0 <= i < |recs| && recs[i].Live() ==> recs[i].Num() >= n
    {
      found, prev := false, n;
      var pos: int := |jdx| - 1;
      var go := true;
      while go
        invariant -1 <= pos < |recs| && jdxPos <= |recs|
        invariant !found ==> prev == n && forall i :: pos < i < |recs| && recs[i].Live() ==> recs[i].Num() >= n
        invariant found ==> !go && jdxPos == pos + 2 && LiveAt(recs, pos + 1, prev) && jamHdr == recs[pos + 1].h && prev < n &&
                            forall i :: pos + 1 < i < |recs| && recs[i].Live() ==> recs[i].Num() >= n
        invariant go ==> pos >= 0
        invariant !go && !found ==> pos == -1
        modifies `jdxPos, `jamHdr
        decreases pos + 1
      {
        found, prev := BelowAt(pos, n);
        pos := pos - 1;
        go := !found && pos >= 0;
      }
    }

    /** From any position: the greatest undeleted number below n, or n itself and false. */
    method Previous(n: word) returns (found: bool, prev: word)
      requires Navigable() && jdxPos <= |jdx|
      modifies `jdxPos, `jamHdr, `msg
      ensures jdxPos <= |jdx|
      ensures found ==> IsPrevious(n, prev)
      ensures !found ==> prev == n && forall i :: 0 <= i < |recs| && recs[i].Live() ==> recs[i].Num() >= n
      ensures msg == if jamHdrInfo.activeMsgs == 0 then old(msg) else old(msg).(id := if found then prev else 0)
    {
      found, prev := false, n;
      if jamHdrInfo.activeMsgs > 0 {
        var maybeNext;
        found, maybeNext, prev := PreviousFromHere(n);
        if !found && !maybeNext {
          found, prev := PreviousFromEnd(n);
        }
        msg := msg.(id := if found then prev else 0);
      }
    }

    /** The record just read is the undeleted message n. */
    ghost predicate Located(n: word, idx: Idx)
      reads `jdxPos, `jamHdr, `recs, `jdx
    {
      1 <= jdxPos <= |recs| == |jdx| && LiveAt(recs, jdxPos - 1, n) && jamHdr == recs[jdxPos - 1].h && idx == jdx[jdxPos - 1]
    }

    /** Shortcut: the record at the position, or the one before it. */
    method TryHere(n: word, back: bool) returns (found: bool, idx: Idx)
      requires Navigable() && jdxPos <= |jdx|
      modifies `jdxPos, `jamHdr
      ensures jdxPos <= |jdx|
      ensures found ==> Located(n, idx)
    {
      if back && jdxPos >= 1 {
        jdxPos := jdxPos - 1;
      }
      var ok;
      ok, idx := Fetch();
      found := ok && !jamHdr.Deleted() && jamHdr.msgNum == n;
    }

    /** The full scan for message n. */
    method ScanFor(n: word) returns (found: bool, idx: Idx)
      requires Navigable() && jdxPos <= |jdx|
      modifies `jdxPos, `jamHdr
      ensures jdxPos <= |jdx|
      ensures found ==> Located(n, idx)
      ensures !found ==> forall i :: !LiveAt(recs, i, n)
    {
      found := false;
      idx := Idx(0, 0);
      jdxPos := 0;
      var go := true;
      while go
        invariant jdxPos <= |recs|
        invariant !found ==> forall i :: 0 <= i < jdxPos ==> !LiveAt(recs, i, n)
        invariant found ==> !go && Located(n, idx)
        invariant !go && !found ==> jdxPos == |recs|
        modifies `jdxPos, `jamHdr
        decreases |recs| - jdxPos, if go then 1 else 0
      {
        var ok;
        ok, idx := Fetch();
        if ok {
          if !jamHdr.Deleted() && jamHdr.msgNum == n {
            found := true;
          }
        }
        go := !found && jdxPos < |jdx|;
      }
    }

    /** Puts the subfields of the record just read in the message buffer. */
    method LoadFields(sub: string, ghost fs: seq<Field>)
      requires sub == EncFields(fs) && |sub| < 0x1_0000_0000
      modifies `msg
      ensures msg == ApplyFields(old(msg), fs)
    {
      var pos, len := 0, |sub|;
      ghost var i := 0;
      while len > 0
        invariant i <= |fs| && pos <= |sub| && len == |sub| - pos
        invariant sub[pos..] == EncFields(fs[i..])
        invariant msg == ApplyFields(old(msg), fs[..i])
        decreases len
      {
        FieldsStep(fs, i);
        var f, next := FieldAt(sub, pos, fs[i..]);
        msg := ApplyField(msg, f);
        len := len - (next - pos);
        pos := next;
        i := i + 1;
      }
      FieldsRoom(fs[i..]);
      assert fs[..i] == fs;
    }

    /** Fills the message buffer from the record just read. */
    method LoadMessage(n: word, idx: Idx)
      requires Navigable() && jdxPos <= |jdx| && Located(n, idx)
      modifies `msg
      ensures msg == Loaded(recs[jdxPos - 1])
    {
      msg := EMPTY_MSG.(id := n, current := n, flags := KnownFlags(jamHdr.attribute), written := jamHdr.dateWritten,
                        arrived := jamHdr.dateProcessed, read := jamHdr.dateReceived, original := jamHdr.replyTo,
                        reply := jamHdr.replyNext);
      ghost var r := recs[jdxPos - 1];
      assert RecordReadable(hdr, idx.hdrOffset, r);
      if jamHdr.subfieldLen > 0 {
        var sub := hdr[idx.hdrOffset + HDR_SIZE..idx.hdrOffset + HDR_SIZE + jamHdr.subfieldLen];
        LoadFields(sub, r.fields);
      } else {
        FieldsRoom(r.fields);
      }
      msg := WithAddress(msg);
    }

    /** The two shortcuts and the full scan of ReadHeader. */
    method FindMessage(n: word) returns (found: bool, idx: Idx)
      requires Navigable() && jdxPos <= |jdx|
      modifies `jdxPos, `jamHdr, `msg
      ensures jdxPos <= |jdx|
      ensures found ==> Located(n, idx)
      ensures !found ==> msg == old(msg).(id := 0) && forall i :: !LiveAt(recs, i, n)
    {
      found := false;
      idx := Idx(0, 0);
      if msg.id == n {
        found, idx := TryHere(n, true);
      }
      if Truncate(msg.id + 1) == n && !found {
        found, idx := TryHere(n, false);
      }
      if !found {
        msg := msg.(id := 0);
        found, idx := ScanFor(n);
      }
    }

    /** The work of ReadHeader. */
    method FindAndLoad(n: word) returns (found: bool)
      requires Navigable() && jdxPos <= |jdx|
      modifies `jdxPos, `jamHdr, `msg
      ensures jdxPos <= |jdx|
      ensures found ==> 1 <= jdxPos && LiveAt(recs, jdxPos - 1, n) && jamHdr == recs[jdxPos - 1].h && msg == Loaded(recs[jdxPos - 1])
      ensures !found ==> msg == EMPTY_MSG && forall i :: !LiveAt(recs, i, n)
    {
      msg := EMPTY_MSG.(id := msg.id);
      var idx;
      found, idx := FindMessage(n);
      if found {
        LoadMessage(n, idx);
      }
    }

    /** Finds undeleted message n from any position and loads the message buffer from it. */
    method ReadHeader(n: word) returns (found: bool)
      requires Navigable() && jdxPos <= |jdx|
      modifies `jdxPos, `jamHdr, `msg, `lines
      ensures jdxPos <= |jdx| && lines == []
      ensures found ==> 1 <= jdxPos && LiveAt(recs, jdxPos - 1, n) && jamHdr == recs[jdxPos - 1].h && msg == Loaded(recs[jdxPos - 1])
      ensures found ==> HeaderRead(msg, recs[jdxPos - 1])
      ensures !found ==> msg == EMPTY_MSG && forall i :: !LiveAt(recs, i, n)
    {
      lines := [];
      found := FindAndLoad(n);
      if found { HeaderFills(recs[jdxPos - 1]); }
    }

    // ----- changing the base

    ghost predicate Holds()
      reads `hdr, `jdx, `jamHdrInfo, `recs
    {
      FilesHold(hdr, jdx, jamHdrInfo, recs) && |jamHdrInfo.reserved| == RESERVED_SIZE
    }

    /** Overwrites header i, at the offset its index record gives, with the header buffer. */
    method PutHeader(ghost i: nat, idx: Idx)
      requires Holds() && i < |recs| && idx == jdx[i]
      modifies `hdr, `recs
      ensures Holds()
      ensures recs == old(recs[i := Rec(jamHdr, recs[i].fields)])
    {
      RewriteFiles(hdr, jdx, jamHdrInfo, recs, i, jamHdr);
      hdr := WriteAt(hdr, idx.hdrOffset, EncHdr(jamHdr));
      recs := recs[i := Rec(jamHdr, recs[i].fields)];
    }

    /** Reads the information block, counts added active messages and modifications, and writes it back. */
    method UpdateInfo(activeMsgs: int, modCounter: nat)
      requires Holds()
      modifies `hdr, `jamHdrInfo
      ensures Holds()
      ensures jamHdrInfo == old(jamHdrInfo).(activeMsgs := (old(jamHdrInfo.activeMsgs) + activeMsgs) % 0x1_0000_0000,
                                             modCounter := Truncate(old(jamHdrInfo.modCounter) + modCounter))
    {
      ghost var info := jamHdrInfo;
      RewriteInfo(info, info, recs);
      jamHdrInfo := DecInfo(ReadAt(hdr, 0, INFO_SIZE));
      jamHdrInfo := jamHdrInfo.(activeMsgs := (jamHdrInfo.activeMsgs + activeMsgs) % 0x1_0000_0000,
                                modCounter := Truncate(jamHdrInfo.modCounter + modCounter));
      RewriteInfo(info, jamHdrInfo, recs);
      hdr := WriteAt(hdr, 0, EncInfo(jamHdrInfo));
    }

    /** Marks the record just read as deleted. */
    method MarkHeader(ghost i: nat)
      requires Holds() && jdxPos == i + 1 <= |jdx| && jamHdr == recs[i].h && recs[i].Live()
      modifies `hdr, `jamHdr, `jdxPos, `recs
      ensures Holds() && jdxPos == old(jdxPos)
      ensures recs == old(recs[i := Marked(recs[i])])
    {
      jamHdr := jamHdr.(attribute := jamHdr.attribute + MSG_DELETED);
      jdxPos := jdxPos - 1;
      var idx := jdx[jdxPos];
      jdxPos := jdxPos + 1;
      PutHeader(i, idx);
    }

    /** Marks the record just read as deleted and counts one message less. */
    method MarkDeleted(ghost i: nat)
      requires Holds() && jdxPos == i + 1 <= |jdx| && jamHdr == recs[i].h && recs[i].Live()
      modifies `hdr, `jamHdr, `jamHdrInfo, `jdxPos, `recs
      ensures Holds() && jdxPos == old(jdxPos)
      ensures recs == old(recs[i := Marked(recs[i])])
      ensures jamHdrInfo == old(jamHdrInfo).(activeMsgs := (old(jamHdrInfo.activeMsgs) - 1) % 0x1_0000_0000)
    {
      MarkHeader(i);
      UpdateInfo(-1, 0);
    }

    /** Reads the header of the message to delete. */
    method ReadForDelete(n: word) returns (found: bool)
      requires Navigable() && jdxPos <= |jdx|
      modifies `jdxPos, `jamHdr, `msg, `lines
      ensures jdxPos <= |jdx| && lines == []
      ensures found <==> Find(recs, n) >= 0
      ensures found ==> jdxPos == Find(recs, n) + 1 && jamHdr == recs[jdxPos - 1].h && recs[jdxPos - 1].Live()
    {
      found := ReadHeader(n);
      if found { FindUnique(recs, jdxPos - 1, n); }
    }

    /** The work of Delete on the files. */
    method DeleteInFiles(n: word) returns (done: bool)
      requires Holds() && Navigable() && jdxPos <= |jdx|
      modifies `hdr, `jdxPos, `jamHdr, `jamHdrInfo, `msg, `lines, `recs
      ensures Holds() && jdxPos <= |jdx| && lines == []
      ensures done <==> Find(old(recs), n) >= 0
      ensures !done ==> recs == old(recs) && jamHdrInfo == old(jamHdrInfo)
      ensures done ==>
                var i := Find(old(recs), n);
                recs == old(recs)[i := Marked(old(recs)[i])] &&
                jamHdrInfo == old(jamHdrInfo).(activeMsgs := (old(jamHdrInfo.activeMsgs) - 1) % 0x1_0000_0000)
    {
      done := ReadForDelete(n);
      if done {
        MarkDeleted(jdxPos - 1);
      }
    }

    /** Marks undeleted message n as deleted. */
    method Delete(n: word) returns (done: bool)
      requires Valid()
      modifies `hdr, `jdxPos, `jamHdr, `jamHdrInfo, `msg, `lines, `recs
      ensures Base() == JamStore.Delete(old(Base()), n)
      ensures Valid()
      ensures done <==> Find(old(recs), n) >= 0
      ensures lines == []
    {
      ghost var b := Base();
      ValidIsNavigable();
      done := DeleteInFiles(n);
      DeletedBase(b, n, Base());
    }

    /** The shortcut and the full scan of WriteHeader. */
    method FindForWrite(n: word) returns (found: bool, idx: Idx)
      requires Navigable() && jdxPos <= |jdx|
      modifies `jdxPos, `jamHdr, `msg
      ensures jdxPos <= |jdx|
      ensures found ==> Located(n, idx) && jdxPos == Find(recs, n) + 1 && msg == old(msg).(id := n)
      ensures !found ==> msg == old(msg).(id := 0) && Find(recs, n) == -1
    {
      found := false;
      idx := Idx(0, 0);
      if msg.id == n {
        found, idx := TryHere(n, true);
      }
      if !found {
        msg := msg.(id := 0);
        found, idx := ScanFor(n);
      }
      if found {
        FindUnique(recs, jdxPos - 1, n);
        msg := msg.(id := jamHdr.msgNum);
      }
    }

    /** The work of WriteHeader on the files. */
    method WriteInFiles(n: word) returns (done: bool)
      requires Holds() && Navigable() && jdxPos <= |jdx|
      modifies `hdr, `jdxPos, `jamHdr, `msg, `recs
      ensures Holds() && jdxPos <= |jdx|
      ensures done <==> Find(old(recs), n) >= 0
      ensures msg == old(msg).(id := if done then n else 0)
      ensures !done ==> recs == old(recs)
      ensures done ==>
                var i := Find(old(recs), n);
                jdxPos == i + 1 && recs == old(recs)[i := Rec(Rewritten(old(recs)[i].h, old(msg)), old(recs)[i].fields)]
    {
      ghost var m := msg;
      var idx;
      done, idx := FindForWrite(n);
      if done {
        ghost var i := jdxPos - 1;
        jamHdr := Rewritten(jamHdr, msg);
        assert jamHdr == Rewritten(recs[i].h, m);
        PutHeader(i, idx);
      }
    }

    /** Rewrites the header of undeleted message n from the message buffer. */
    method WriteHeader(n: word) returns (done: bool)
      requires Valid() && msg.flags < MSG_DELETED
      modifies `hdr, `jdxPos, `jamHdr, `msg, `recs
      ensures Base() == Write(old(Base()), n, old(msg))
      ensures Valid()
      ensures done <==> Find(old(recs), n) >= 0
      ensures msg == old(msg).(id := if done then n else 0)
      ensures done ==> jdxPos == Find(old(recs), n) + 1
    {
      ValidIsNavigable();
      ghost var b, m := Base(), msg;
      done := WriteInFiles(n);
      WrittenBase(b, n, m, Base());
    }

    // ----- adding a message

    /** Since the header file was start and the length counter was len, fs has been appended. */
    ghost predicate Appended(start: string, len: word, fs: seq<Field>)
      reads `hdr, `jamHdr
    {
      hdr == start + EncFields(fs) && jamHdr.subfieldLen == Truncate(len + |EncFields(fs)|)
    }

    /** Appends one subfield to the header file and counts its length. */
    method AddSubfield(id: word, data: string, ghost start: string, ghost len: word, ghost fs: seq<Field>)
      requires Appended(start, len, fs)
      modifies `hdr, `jamHdr
      ensures Appended(start, len, fs + [Field(id, data)])
      ensures jamHdr == old(jamHdr).(subfieldLen := jamHdr.subfieldLen)
    {
      NextField(start, len, fs, Field(id, data));
      hdr := hdr + EncField(Field(id, data));
      jamHdr := jamHdr.(subfieldLen := Truncate(jamHdr.subfieldLen + (SUB_SIZE + |data|)));
    }

    /** The subfields that come from the message buffer. */
    method AddHeadFields(ghost start: string, ghost len: word)
      requires Appended(start, len, [])
      modifies `hdr, `jamHdr
      ensures Appended(start, len, HeadFields(msg))
      ensures jamHdr == old(jamHdr).(subfieldLen := jamHdr.subfieldLen)
    {
      AddSubfield(SFLD_SENDERNAME, msg.from, start, len, []);
      ghost var fs := [Field(SFLD_SENDERNAME, msg.from)];
      assert [] + fs == fs;
      if msg.to != "" {
        AddSubfield(SFLD_RECVRNAME, msg.to, start, len, fs);
        fs := fs + [Field(SFLD_RECVRNAME, msg.to)];
      }
      AddSubfield(SFLD_SUBJECT, msg.subject, start, len, fs);
      fs := fs + [Field(SFLD_SUBJECT, msg.subject)];
      if msg.fromAddress != "" {
        AddSubfield(SFLD_OADDRESS, msg.fromAddress, start, len, fs);
        fs := fs + [Field(SFLD_OADDRESS, msg.fromAddress)];
      }
      if msg.toAddress != "" {
        AddSubfield(SFLD_DADDRESS, msg.toAddress, start, len, fs);
        fs := fs + [Field(SFLD_DADDRESS, msg.toAddress)];
      }
      assert fs == HeadFields(msg);
    }

    /** Stores a control line as a subfield (a malformed SEEN-BY not at all). */
    method AddControlLine(l: string, ghost start: string, ghost len: word, ghost fs: seq<Field>)
      requires !PlaceOf(l).Body? && Appended(start, len, fs)
      modifies `hdr, `jamHdr
      ensures Appended(start, len, if PlaceOf(l).Sub? then fs + [PlaceOf(l).field] else fs)
      ensures jamHdr == old(jamHdr).(subfieldLen := jamHdr.subfieldLen)
    {
      TagChars();
      var done := false;
      if PID_TAG <= l {
        AddSubfield(SFLD_PID, l[6..], start, len, fs);
        done := true;
      }
      if MSGID_TAG <= l {
        AddSubfield(SFLD_MSGID, l[8..], start, len, fs);
        done := true;
      }
      if REPLY_TAG <= l {
        AddSubfield(SFLD_REPLYID, l[8..], start, len, fs);
        done := true;
      }
      if PATH_TAG <= l {
        AddSubfield(SFLD_PATH2D, l[7..], start, len, fs);
        done := true;
      }
      if VIA_WORD <= l {
        AddSubfield(SFLD_TRACE, if |l| >= 5 then l[5..] else "", start, len, fs);
        done := true;
      }
      if SEENBY_TAG <= l {
        AddSubfield(SFLD_SEENBY2D, l[9..], start, len, fs);
        done := true;
      }
      if !done && [CTRL] <= l {
        AddSubfield(SFLD_FTSKLUDGE, l[1..], start, len, fs);
      }
    }

    /** Since the text file was start and the length counter was 0, this has been appended. */
    ghost predicate TextAppended(start: string, body: string)
      reads `jdt, `jamHdr
    {
      jdt == start + body && jamHdr.txtLen == Truncate(|body|)
    }

    /** Appends bytes to the text file and counts them. */
    method AddText(s: string, ghost start: string, ghost body: string)
      requires TextAppended(start, body)
      modifies `jdt, `jamHdr
      ensures TextAppended(start, body + s)
      ensures jamHdr == old(jamHdr).(txtLen := jamHdr.txtLen)
    {
      Associative(start, body, s);
      TruncateSum(|body|, |s|);
      jdt := jdt + s;
      jamHdr := jamHdr.(txtLen := Truncate(jamHdr.txtLen + |s|));
    }

    /** Stores one line of the message, as a subfield or as text. */
    method AddLine(l: string, ghost start: string, ghost len: word, ghost fs: seq<Field>, ghost text: string, ghost body: string)
      requires Appended(start, len, fs) && TextAppended(text, body)
      modifies `hdr, `jdt, `jamHdr
      ensures Appended(start, len, if PlaceOf(l).Sub? then fs + [PlaceOf(l).field] else fs)
      ensures TextAppended(text, if PlaceOf(l).Body? then body + l + [CR] else body)
      ensures jamHdr == old(jamHdr).(subfieldLen := jamHdr.subfieldLen, txtLen := jamHdr.txtLen)
    {
      if [CTRL] <= l || SEENBY_WORD <= l {
        AddControlLine(l, start, len, fs);
      } else {
        AddText(l, text, body);
        AddText([CR], text, body + l);
      }
    }

    /** Stores the lines of the message, the ones that are not text as subfields. */
    method AddLines(ghost start: string, ghost len: word, ghost fs: seq<Field>, ghost text: string)
      requires Appended(start, len, fs) && TextAppended(text, "")
      modifies `hdr, `jdt, `jamHdr
      ensures Appended(start, len, fs + KludgeFields(lines)) && TextAppended(text, BodyText(lines))
      ensures jamHdr == old(jamHdr).(subfieldLen := jamHdr.subfieldLen, txtLen := jamHdr.txtLen)
    {
      ghost var subs, body := fs, "";
      assert fs + [] == fs;
      for i := 0 to |lines|
        invariant subs == fs + KludgeFields(lines[..i]) && body == BodyText(lines[..i])
        invariant Appended(start, len, subs) && TextAppended(text, body)
        invariant jamHdr == old(jamHdr).(subfieldLen := jamHdr.subfieldLen, txtLen := jamHdr.txtLen)
      {
        var l := lines[i];
        LinesStep(lines, i, fs);
        AddLine(l, start, len, subs, text, body);
        subs := if PlaceOf(l).Sub? then subs + [PlaceOf(l).field] else subs;
        body := if PlaceOf(l).Body? then body + l + [CR] else body;
      }
      assert lines[..|lines|] == lines;
    }

    /** A cleared header with the message buffer's fields and number num. */
    method NewHeader(num: word)
      modifies `jamHdr
      ensures jamHdr == NewHdr(msg, num, 0, 0, 0)
    {
      jamHdr := Hdr(SIGNATURE, 1, 0, 0, 0, 0, 0, 0, 0, 0, 0, 0, num, 0, 0, 0, 0, 0, 0);
      jamHdr := jamHdr.(dateWritten := msg.written, dateProcessed := msg.arrived);
      jamHdr := Rewritten(jamHdr, msg);
    }

    /** Appends the record of the message in the buffers; its header is written twice, the
        second time with the lengths that are known only then. */
    method AppendRecord(num: word) returns (off: word)
      requires |hdr| < FILE_LIMIT && |jdt| < FILE_LIMIT
      modifies `hdr, `jdt, `jdx, `jdxPos, `jamHdr, `msg
      ensures off == |old(hdr)| && jdx == old(jdx) + [Idx(0, off)] && jdxPos == |jdx|
      ensures msg == old(msg).(id := num)
      ensures var fs := FieldsOf(msg, lines);
              && jamHdr == NewHdr(msg, num, Truncate(|EncFields(fs)|), |old(jdt)|, Truncate(|BodyText(lines)|))
              && hdr == old(hdr) + EncHdr(jamHdr) + EncFields(fs)
      ensures jdt == old(jdt) + BodyText(lines)
    {
      NewHeader(num);
      ghost var h0 := jamHdr;
      off := |hdr|;
      jdx := jdx + [Idx(0, off)];
      jdxPos := |jdx|;
      hdr := hdr + EncHdr(jamHdr);
      ghost var start := hdr;
      assert start + "" == start;
      AddHeadFields(start, 0);
      msg := msg.(id := jamHdr.msgNum);
      jamHdr := jamHdr.(txtOffset := |jdt|, txtLen := 0);
      ghost var text := jdt;
      assert text + "" == text;
      AddLines(start, 0, HeadFields(msg), text);
      WriteInside(old(hdr), EncHdr(h0), EncHdr(jamHdr), EncFields(FieldsOf(msg, lines)));
      hdr := WriteAt(hdr, off, EncHdr(jamHdr));
    }

    /** Appends the record and the text of the message in the buffers. */
    method AppendInFiles(num: word, ghost fs: seq<Field>, ghost body: string)
      requires fs == FieldsOf(msg, lines) && body == BodyText(lines)
      requires Holds() && CanAddRec(Base(), msg, fs, body) && num == JamStore.Highest(Base()) + 1
      modifies `hdr, `jdt, `jdx, `jdxPos, `jamHdr, `msg, `recs
      ensures Holds() && jdxPos == |jdx|
      ensures recs == old(recs) + [AddedRec(old(Base()), old(msg), fs, |body|)] && jdt == old(jdt) + body
      ensures msg == old(msg).(id := num)
    {
      ghost var b, m := Base(), msg;
      SizesFit(b, msg, fs, body);
      SameFields(msg, lines, num);
      var off := AppendRecord(num);
      AppendFiles(old(hdr), old(jdx), jamHdrInfo, recs, jamHdr, fs, Idx(0, off));
      HeaderIsAdded(b, m, fs, body, num, jamHdr);
      recs := recs + [Rec(jamHdr, fs)];
    }

    /** The work of AddMsg on the files. */
    method AddInFiles(num: word, ghost fs: seq<Field>, ghost body: string)
      requires fs == FieldsOf(msg, lines) && body == BodyText(lines)
      requires Holds() && CanAddRec(Base(), msg, fs, body) && num == JamStore.Highest(Base()) + 1
      modifies `hdr, `jdt, `jdx, `jdxPos, `jamHdr, `jamHdrInfo, `msg, `recs
      ensures Holds() && jdxPos == |jdx|
      ensures Base() == AddRec(old(Base()), old(msg), fs, body)
      ensures msg == old(msg).(id := num)
    {
      ghost var b, m := Base(), msg;
      AppendInFiles(num, fs, body);
      UpdateInfo(1, 1);
      AddedBase(b, m, fs, body, Base());
    }

    /** Adds the message in the buffers, with the next number. */
    method AddMsg()
      requires Valid() && CanAdd(Base(), msg, lines)
      modifies this
      ensures Base() == Add(old(Base()), old(msg), old(lines))
      ensures Valid()
      ensures msg == old(msg).(id := JamStore.Highest(old(Base())) + 1)
      ensures lines == old(lines) && jdxPos == |jdx| && lastReadRec == old(lastReadRec)
    {
      ValidIsNavigable();
      AddKeepsInv(Base(), msg, lines);
      AddNumbered(FieldsOf(msg, lines), BodyText(lines));
    }

    /** Finds the next number and adds the message under it. */
    method AddNumbered(ghost fs: seq<Field>, ghost body: string)
      requires fs == FieldsOf(msg, lines) && body == BodyText(lines)
      requires Holds() && Navigable() && jdxPos <= |jdx| && CanAddRec(Base(), msg, fs, body)
      modifies `hdr, `jdt, `jdx, `jdxPos, `jamHdr, `jamHdrInfo, `msg, `recs
      ensures Holds() && jdxPos == |jdx|
      ensures Base() == AddRec(old(Base()), old(msg), fs, body)
      ensures msg == old(msg).(id := JamStore.Highest(old(Base())) + 1)
    {
      ghost var b, m := Base(), msg;
      var n := Highest();
      SameFields(m, lines, n);
      AddInFiles(n + 1, fs, body);
      assert Base() == AddRec(b, m, fs, body);
    }

    // ----- opening, and the last-read records

    /** Opens the files: a header file too short for an information block is given a new one. */
    method Open(now: word) returns (ok: bool)
      modifies this
      ensures jdt == old(jdt) && jdx == old(jdx) && jlr == old(jlr) && lines == old(lines)
      ensures jdxPos == 0 && msg == old(msg).(id := 0)
      ensures |old(hdr)| < INFO_SIZE ==> ok && hdr == EncInfo(NewInfo(now)) && jamHdrInfo == NewInfo(now) && recs == []
      ensures |old(hdr)| < INFO_SIZE ==>
                jamHdrInfo.dateCreated == now && jamHdrInfo.activeMsgs == 0 && jamHdrInfo.baseMsgNum == 1
      ensures |old(hdr)| >= INFO_SIZE ==>
                hdr == old(hdr) && jamHdrInfo == DecInfo(hdr[..INFO_SIZE]) && recs == old(recs) &&
                (ok <==> jamHdrInfo.signature == SIGNATURE)
      ensures old(Sound()) ==> ok && Valid() && Base() == old(Base())
      ensures old(hdr) == "" && jdx == [] && |jdt| < FILE_LIMIT ==> Valid()
    {
      ghost var was := jamHdrInfo;
      if Sound() {
        RewriteInfo(was, was, recs);
      }
      var b := ReadAt(hdr, 0, INFO_SIZE);
      if |b| < INFO_SIZE {
        jamHdrInfo := NewInfo(now);
        hdr := WriteAt(hdr, 0, EncInfo(jamHdrInfo));
        recs := [];
        EmptyBase(now);
      } else {
        jamHdrInfo := DecInfo(b);
      }
      ok := jamHdrInfo.signature == SIGNATURE;
      jdxPos := 0;
      msg := msg.(id := 0);
    }

    /** Looks up a user's last-read record; lastReadRec is left at it, or at the end. */
    method GetLastRead(query: LastRead) returns (found: bool, answer: LastRead)
      modifies `lastReadRec
      ensures lastReadRec <= |jlr| && forall i :: 0 <= i < lastReadRec ==> !IsReadOf(jlr[i], query)
      ensures found <==> lastReadRec < |jlr|
      ensures found ==> IsReadOf(jlr[lastReadRec], query) &&
                        answer == query.(lastReadMsg := jlr[lastReadRec].lastReadMsg, highReadMsg := jlr[lastReadRec].highReadMsg)
      ensures found <==> exists i :: 0 <= i < |jlr| && (if jlr[i].userID == jlr[i].userCRC then jlr[i].userCRC == query.userCRC
                                                        else jlr[i].userID == query.userID)
      ensures !found ==> answer == query
    {
      lastReadRec := 0;
      found, answer := false, query;
      while lastReadRec < |jlr|
        invariant lastReadRec <= |jlr| && answer == query && !found
        invariant forall i :: 0 <= i < lastReadRec ==> !IsReadOf(jlr[i], query)
      {
        var lr := jlr[lastReadRec];
        if lr.userID == lr.userCRC && lr.userCRC == query.userCRC {
          return true, query.(lastReadMsg := lr.lastReadMsg, highReadMsg := lr.highReadMsg);
        }
        if lr.userID != lr.userCRC && lr.userID == query.userID {
          return true, query.(lastReadMsg := lr.lastReadMsg, highReadMsg := lr.highReadMsg);
        }
        lastReadRec := lastReadRec + 1;
      }
    }

    /** Writes a record where the last look-up ended. */
    method SetLastRead(lr: LastRead)
      requires lastReadRec <= |jlr|
      modifies `jlr
      ensures jlr == if lastReadRec < |old(jlr)| then old(jlr)[lastReadRec := lr] else old(jlr) + [lr]
    {
      jlr := jlr[..lastReadRec] + [lr] + (if lastReadRec < |jlr| then jlr[lastReadRec + 1..] else []);
    }
  }

  /** The information block of a new base. */
  function NewInfo(now: word): Info
  {
    Info(SIGNATURE, now, 0, 0, 0, 1, seq(RESERVED_SIZE, _ => 0 as char))
  }

  lemma EmptyBase(now: word)
    ensures FilesHold(EncInfo(NewInfo(now)), [], NewInfo(now), [])
    ensures forall text: string, lrs: seq<LastRead> :: |text| < FILE_LIMIT ==> Inv(Store(NewInfo(now), [], text, lrs))
  {
    assert EncInfo(NewInfo(now)) + RecBytes([]) == EncInfo(NewInfo(now));
    assert Numbered([], 0);
  }

  /** A last-read record that answers a query: by user id, or by name CRC where a record
      carries the CRC in place of the id. */
  predicate IsReadOf(lr: LastRead, query: LastRead)
  {
    if lr.userID == lr.userCRC then lr.userCRC == query.userCRC else lr.userID == query.userID
  }

  lemma HeaderIsAdded(s: Store, m: MsgBuf, fs: seq<Field>, body: string, num: word, h: Hdr)
    requires CanAddRec(s, m, fs, body) && num == JamStore.Highest(s) + 1
    requires h == NewHdr(m.(id := num), num, Truncate(|EncFields(fs)|), |s.text|, Truncate(|body|))
    ensures Rec(h, fs) == AddedRec(s, m, fs, |body|)
  {
  }

  /** A base with one more record, counted in its information block, is the base of AddRec. */
  lemma AddedBase(s: Store, m: MsgBuf, fs: seq<Field>, body: string, s': Store)
    requires s'.recs == s.recs + [AddedRec(s, m, fs, |body|)] && s'.text == s.text + body && s'.lastReads == s.lastReads
    requires s'.info == s.info.(activeMsgs := (s.info.activeMsgs + 1) % 0x1_0000_0000, modCounter := Truncate(s.info.modCounter + 1))
    ensures s' == AddRec(s, m, fs, body)
  {
  }

  /** A base in which the header of message n was marked and counted off is the base of Delete. */
  lemma DeletedBase(s: Store, n: word, s': Store)
    requires Inv(s) && s'.text == s.text && s'.lastReads == s.lastReads
    requires Find(s.recs, n) < 0 ==> s'.recs == s.recs && s'.info == s.info
    requires Find(s.recs, n) >= 0 ==>
               var i := Find(s.recs, n);
               s'.recs == s.recs[i := Marked(s.recs[i])] &&
               s'.info == s.info.(activeMsgs := (s.info.activeMsgs - 1) % 0x1_0000_0000)
    ensures s' == JamStore.Delete(s, n) && Inv(s')
  {
    DeleteKeepsInv(s, n);
  }

  lemma WrittenBase(s: Store, n: word, m: MsgBuf, s': Store)
    requires Inv(s) && m.flags < MSG_DELETED && s'.info == s.info && s'.text == s.text && s'.lastReads == s.lastReads
    requires Find(s.recs, n) < 0 ==> s'.recs == s.recs
    requires Find(s.recs, n) >= 0 ==>
               var i := Find(s.recs, n); s'.recs == s.recs[i := Rec(Rewritten(s.recs[i].h, m), s.recs[i].fields)]
    ensures s' == Write(s, n, m) && Inv(s')
  {
    WriteKeepsInv(s, n, m);
  }

  lemma SameFields(m: MsgBuf, lines: seq<string>, n: word)
    ensures FieldsOf(m.(id := n), lines) == FieldsOf(m, lines)
  {
  }

  lemma SizesFit(s: Store, m: MsgBuf, fs: seq<Field>, body: string)
    requires CanAddRec(s, m, fs, body)
    ensures |EncFields(fs)| < FILE_LIMIT && |body| < FILE_LIMIT && |s.text| < FILE_LIMIT
    ensures |s.info.reserved| == RESERVED_SIZE ==> |HdrFile(s.info, s.recs)| < FILE_LIMIT
  {
  }

  lemma LinesStep(lines: seq<string>, i: nat, fs: seq<Field>)
    requires i < |lines|
    ensures var l := lines[i];
            && fs + KludgeFields(lines[..i + 1]) ==
               (if PlaceOf(l).Sub? then (fs + KludgeFields(lines[..i])) + [PlaceOf(l).field] else fs + KludgeFields(lines[..i]))
            && BodyText(lines[..i + 1]) == (if PlaceOf(l).Body? then BodyText(lines[..i]) + l + [CR] else BodyText(lines[..i]))
            && (PlaceOf(l).Body? <==> !([CTRL] <= l) && !(SEENBY_WORD <= l))
  {
    assert lines[..i + 1][..i] == lines[..i];
  }

  /** One more subfield after those that fs stands for. */
  lemma NextField(start: string, len: word, fs: seq<Field>, f: Field)
    ensures (start + EncFields(fs)) + EncField(f) == start + EncFields(fs + [f])
    ensures Truncate(Truncate(len + |EncFields(fs)|) + |EncField(f)|) == Truncate(len + |EncFields(fs + [f])|)
  {
    EncFieldsConcat(fs, [f]);
    OneField(f);
    Associative(start, EncFields(fs), EncFields([f]));
    TruncateSum(len + |EncFields(fs)|, |EncFields([f])|);
  }

  lemma OneField(f: Field)
    ensures EncFields([f]) == EncField(f)
  {
    assert [f][1..] == [];
  }

  lemma FindUnique(recs: seq<Rec>, i: nat, n: word)
    requires LiveOrdered(recs) && LiveAt(recs, i, n)
    ensures Find(recs, n) == i
  {
  }
}
