/** The word wrap that reading a message applies to its text: a machine fed one character at
    a time, whatever the buffer boundaries the characters arrive in. */
module JamWrap {
  import opened Bytes
  import opened JamText

  /** The lines given so far, the line being filled, and whether it continues a wrapped one. */
  datatype Wrap = Wrap(out: seq<string>, line: string, skip: bool)

  /** Where the backward scan for a blank stops. */
  function Back(l: string, p: nat): (r: nat)
    requires p <= |l|
    ensures r <= p && (p >= 1 ==> r >= 1)
    ensures r > 1 ==> r < |l| && l[r] == ' '
    ensures forall k :: r < k <= p && k < |l| ==> l[k] != ' '
    decreases p
  {
    if p > 1 && (p == |l| || l[p] != ' ') then Back(l, p - 1) else p
  }

  /** Where the forward scan over blanks stops. */
  function Skip(l: string, p: nat): (r: nat)
    requires p <= |l|
    ensures p <= r <= |l|
    ensures forall k :: p <= k < r ==> l[k] == ' '
    decreases |l| - p
  {
    if p < |l| && l[p] == ' ' then Skip(l, p + 1) else p
  }

  /** How many characters of a full line are given out; the rest is carried over. */
  function Break(l: string): (r: nat)
    requires |l| >= 1
    ensures 1 <= r <= |l|
    ensures ' ' in l ==> l[r - 1] == ' ' && ' ' !in l[r..]
    ensures ' ' !in l ==> r == |l|
  {
    if ' ' in l then Skip(l, Back(l, |l|)) else |l|
  }

  /** l without its trailing blanks, but never without its first character. */
  function Trim(l: string): (r: string)
    ensures r <= l
    ensures |l| >= 1 ==> |r| >= 1
    ensures |r| > 1 ==> r[|r| - 1] != ' '
    ensures forall k :: |r| <= k < |l| ==> l[k] == ' '
  {
    if |l| > 1 && l[|l| - 1] == ' ' then Trim(l[..|l| - 1]) else l
  }

  function Feed(s: Wrap, c: char, w: int): Wrap
  {
    if c == CR then
      if |s.line| > 0 && s.skip then
        Wrap(if |Trim(s.line)| > 1 then s.out + [Trim(s.line)] else s.out, "", false)
      else
        Wrap(if !s.skip then s.out + [s.line] else s.out, "", false)
    else if c == LF then s
    else
      var l := s.line + [c];
      if |l| >= w then Wrap(s.out + [l[..Break(l)]], l[Break(l)..], true) else s.(line := l)
  }

  function FeedAll(s: Wrap, text: string, w: int): Wrap
  {
    if text == "" then s else Feed(FeedAll(s, text[..|text| - 1], w), text[|text| - 1], w)
  }

  /** Cutting the text into chunks anywhere changes nothing. */
  lemma {:induction false} ChunksDoNotMatter(s: Wrap, a: string, b: string, w: int)
    ensures FeedAll(s, a + b, w) == FeedAll(FeedAll(s, a, w), b, w)
    decreases |b|
  {
    if b == "" {
      assert a + b == a;
    } else {
      assert (a + b)[..|a + b| - 1] == a + b[..|b| - 1];
      ChunksDoNotMatter(s, a, b[..|b| - 1], w);
    }
  }

  /** s without its line feeds. */
  function NoLineFeeds(s: string): string
  {
    if s == "" then ""
    else if s[|s| - 1] == LF then NoLineFeeds(s[..|s| - 1])
    else NoLineFeeds(s[..|s| - 1]) + [s[|s| - 1]]
  }

  /** Line feeds change nothing. */
  lemma {:induction false} LineFeedsIgnored(s: Wrap, text: string, w: int)
    ensures FeedAll(s, text, w) == FeedAll(s, NoLineFeeds(text), w)
    decreases |text|
  {
    if text != "" {
      var init, c := text[..|text| - 1], text[|text| - 1];
      LineFeedsIgnored(s, init, w);
      if c != LF { assert (NoLineFeeds(init) + [c])[..|NoLineFeeds(init)|] == NoLineFeeds(init); }
    }
  }

  predicate Plain(p: string) { CR !in p && LF !in p }

  function Concat(ls: seq<string>): string
  {
    if ls == [] then "" else Concat(ls[..|ls| - 1]) + ls[|ls| - 1]
  }

  /** The pieces a paragraph is cut into at width w, and what is left over. */
  function Cutting(p: string, w: int): (seq<string>, string)
  {
    if p == "" then ([], "")
    else
      var (ps, rest) := Cutting(p[..|p| - 1], w);
      var l := rest + [p[|p| - 1]];
      if |l| >= w then (ps + [l[..Break(l)]], l[Break(l)..]) else (ps, l)
  }

  function Pieces(p: string, w: int): seq<string> { Cutting(p, w).0 }

  /** What the closing CR of the paragraph finds. */
  function Carry(p: string, w: int): string { Cutting(p, w).1 }

  lemma ConcatSnoc(ps: seq<string>, l: string)
    ensures Concat(ps + [l]) == Concat(ps) + l
  {
    assert (ps + [l])[..|ps|] == ps;
  }

  lemma Regroup(a: string, b: string, c: string)
    ensures (a + b) + c == a + (b + c)
  {
  }

  /** Every piece has 1 to w characters, and pieces and carry together are the characters
      consumed. */
  lemma {:induction false} CuttingConserves(p: string, w: int)
    requires w >= 1
    ensures Concat(Pieces(p, w)) + Carry(p, w) == p
    ensures forall i :: 0 <= i < |Pieces(p, w)| ==> 1 <= |Pieces(p, w)[i]| <= w
    ensures |Carry(p, w)| < w
    ensures Pieces(p, w) == [] <==> |p| < w
  {
    if p != "" {
      var q, c := p[..|p| - 1], p[|p| - 1];
      CuttingConserves(q, w);
      var ps, l := Pieces(q, w), Carry(q, w) + [c];
      assert p == q + [c];
      Regroup(Concat(ps), Carry(q, w), [c]);
      if |l| >= w {
        var b := Break(l);
        ConcatSnoc(ps, l[..b]);
        Regroup(Concat(ps), l[..b], l[b..]);
        assert l == l[..b] + l[b..];
      }
    }
  }

  /** Where a full line that starts at a is cut: after its last blank, or after w characters if
      it has none. */
  predicate CutAt(p: string, a: nat, b: nat, w: nat)
  {
    && a < b <= a + w <= |p|
    && if ' ' in p[a..a + w] then p[b - 1] == ' ' && ' ' !in p[b..a + w] else b == a + w
  }

  /** Piece i of a paragraph is what stands between two cuts. */
  ghost predicate PieceCut(p: string, ps: seq<string>, i: nat, w: nat)
    requires i < |ps|
  {
    var a := |Concat(ps[..i])|;
    var b := a + |ps[i]|;
    CutAt(p, a, b, w) && ps[i] == p[a..b]
  }

  lemma LinePieceCut(done: string, l: string, w: nat)
    requires |l| == w >= 1
    ensures var b := |done| + Break(l); CutAt(done + l, |done|, b, w) && (done + l)[|done|..b] == l[..Break(l)]
  {
    var p, a, b := done + l, |done|, |done| + Break(l);
    assert p[a..a + w] == l;
    assert p[b..a + w] == l[Break(l)..];
  }

  lemma CutInLonger(q: string, more: string, a: nat, b: nat, w: nat)
    requires CutAt(q, a, b, w)
    ensures CutAt(q + more, a, b, w) && (q + more)[a..b] == q[a..b]
  {
    assert (q + more)[a..a + w] == q[a..a + w] && (q + more)[b..a + w] == q[b..a + w];
  }

  /** A piece ends inside a word only when the full line it was cut from has no blank. */
  lemma {:induction false} PiecesEndAtBlanks(p: string, w: int, i: nat)
    requires w >= 1 && i < |Pieces(p, w)|
    ensures PieceCut(p, Pieces(p, w), i, w)
  {
    var q, c := p[..|p| - 1], p[|p| - 1];
    var ps, l := Pieces(q, w), Carry(q, w) + [c];
    assert p == q + [c];
    CuttingConserves(q, w);
    assert Pieces(p, w)[..i] == ps[..i];
    if i < |ps| {
      PiecesEndAtBlanks(q, w, i);
      CutInLonger(q, [c], |Concat(ps[..i])|, |Concat(ps[..i])| + |ps[i]|, w);
    } else {
      LastPieceCut(q, c, ps, l, w);
    }
  }

  lemma LastPieceCut(q: string, c: char, ps: seq<string>, l: string, w: int)
    requires w >= 1 && ps == Pieces(q, w) && l == Carry(q, w) + [c] && |l| == w
    ensures PieceCut(q + [c], ps + [l[..Break(l)]], |ps|, w)
  {
    CuttingConserves(q, w);
    Regroup(Concat(ps), Carry(q, w), [c]);
    LinePieceCut(Concat(ps), l, w);
    assert (ps + [l[..Break(l)]])[..|ps|] == ps;
  }

  /** Feeding a paragraph gives out its pieces and nothing else. */
  lemma {:induction false} FeedCuts(out: seq<string>, p: string, w: int)
    requires Plain(p) && w >= 1
    ensures FeedAll(Wrap(out, "", false), p, w) == Wrap(out + Pieces(p, w), Carry(p, w), |p| >= w)
  {
    if p == "" {
      assert out + [] == out;
    } else {
      var q, c := p[..|p| - 1], p[|p| - 1];
      PlainPrefix(p);
      FeedCuts(out, q, w);
      CuttingConserves(q, w);
      var l := Carry(q, w) + [c];
      assert (out + Pieces(q, w)) + [l[..Break(l)]] == out + (Pieces(q, w) + [l[..Break(l)]]);
      if |q| < w {
        CarryFull(q, w);
      }
    }
  }

  lemma PlainPrefix(p: string)
    requires Plain(p) && p != ""
    ensures Plain(p[..|p| - 1]) && p[|p| - 1] != CR && p[|p| - 1] != LF
  {
    assert p[|p| - 1] in p;
  }

  lemma CarryFull(q: string, w: int)
    requires w >= 1 && |q| < w
    ensures Carry(q, w) == q
  {
    CuttingConserves(q, w);
    assert Concat([]) + Carry(q, w) == Carry(q, w);
  }

  /** What a paragraph and its closing CR become. */
  function Wrapped(p: string, w: int): seq<string>
  {
    if |p| < w then [p]
    else if |Trim(Carry(p, w))| > 1 then Pieces(p, w) + [Trim(Carry(p, w))]
    else Pieces(p, w)
  }

  lemma RegroupLines(a: seq<string>, b: seq<string>, c: seq<string>)
    ensures (a + b) + c == a + (b + c)
  {
  }

  lemma FeedSnoc(s: Wrap, p: string, c: char, w: int)
    ensures FeedAll(s, p + [c], w) == Feed(FeedAll(s, p, w), c, w)
  {
    assert (p + [c])[..|p|] == p;
  }

  lemma ParagraphWraps(out: seq<string>, p: string, w: int)
    requires Plain(p) && w >= 1
    ensures FeedAll(Wrap(out, "", false), p + [CR], w) == Wrap(out + Wrapped(p, w), "", false)
  {
    FeedCuts(out, p, w);
    FeedSnoc(Wrap(out, "", false), p, CR, w);
    if |p| < w {
      CarryFull(p, w);
      CuttingConserves(p, w);
      assert out + [] == out;
    } else {
      RegroupLines(out, Pieces(p, w), [Trim(Carry(p, w))]);
    }
  }

  predicate Blank(s: string) { forall i :: 0 <= i < |s| ==> s[i] == ' ' }

  /** What the closing CR puts out of the remainder of a broken paragraph. */
  function Remainder(l: string): string { if |Trim(l)| > 1 then Trim(l) else "" }

  lemma WrappedText(p: string, w: int)
    requires Plain(p) && w >= 1
    ensures Concat(Wrapped(p, w)) == if |p| < w then p else Concat(Pieces(p, w)) + Remainder(Carry(p, w))
  {
    if |p| < w {
      ConcatSnoc([], p);
      assert Concat([]) + p == p && [] + [p] == [p];
    } else if |Trim(Carry(p, w))| > 1 {
      ConcatSnoc(Pieces(p, w), Trim(Carry(p, w)));
    } else {
      assert Concat(Pieces(p, w)) + "" == Concat(Pieces(p, w));
    }
  }

  /** No line of a wrapped paragraph is empty or longer than the width. */
  lemma WrappedFits(p: string, w: int)
    requires |p| >= w >= 1
    ensures forall i :: 0 <= i < |Wrapped(p, w)| ==> 1 <= |Wrapped(p, w)[i]| <= w
  {
    CuttingConserves(p, w);
  }

  lemma RemainderLost(a: string, l: string)
    ensures a + Remainder(l) <= a + l
    ensures Blank((a + l)[|a + Remainder(l)|..]) <==> !(|Trim(l)| == 1 && l[0] != ' ')
  {
    var t := Remainder(l);
    assert (a + l)[|a + t|..] == l[|t|..];
  }

  /** A wrapped paragraph loses only blanks at its end, exactly when what the closing CR
      finds is not one character and blanks. */
  lemma WrapLosesOnlyBlanks(p: string, w: int)
    requires Plain(p) && w >= 1
    ensures Concat(Wrapped(p, w)) <= p
    ensures Blank(p[|Concat(Wrapped(p, w))|..]) <==> !(|p| >= w && |Trim(Carry(p, w))| == 1 && Carry(p, w)[0] != ' ')
  {
    WrappedText(p, w);
    if |p| >= w {
      CuttingConserves(p, w);
      RemainderLost(Concat(Pieces(p, w)), Carry(p, w));
    }
  }

  lemma BreakAfterLast(l: string)
    requires |l| == 3 && l[0] != ' ' && l[1] != ' ' && l[2] == ' '
    ensures Break(l) == 3 && l[..3] == l && l[3..] == ""
  {
    assert l[2] in l;
  }

  lemma CutThree()
    ensures Cutting("ab ", 3) == (["ab "], "")
  {
    CutStep("", 'a', 3);
    CutStep("a", 'b', 3);
    CutStep("ab", ' ', 3);
    BreakAfterLast("ab ");
    assert "" + ['a'] == "a" && "a" + ['b'] == "ab" && "ab" + [' '] == "ab ";
    assert [] + ["ab "] == ["ab "];
  }

  /** "ab c" read three columns wide comes back without its last character. */
  lemma WrapCanLoseText()
    ensures Wrapped("ab c", 3) == ["ab "]
  {
    CutThree();
    CutStep("ab ", 'c', 3);
    assert "ab " + ['c'] == "ab c" && "" + ['c'] == "c";
  }

  lemma CutStep(q: string, c: char, w: int)
    ensures var (ps, rest) := Cutting(q, w);
            var l := rest + [c];
            Cutting(q + [c], w) == if |l| >= w then (ps + [l[..Break(l)]], l[Break(l)..]) else (ps, l)
  {
    assert (q + [c])[..|q + [c]| - 1] == q;
  }

  /** What the body lines of a message become at width w. */
  function WrapBody(lines: seq<string>, w: int): seq<string>
  {
    if lines == [] then []
    else
      var init := WrapBody(lines[..|lines| - 1], w);
      if IsBody(lines[|lines| - 1]) then init + Wrapped(lines[|lines| - 1], w) else init
  }

  predicate PlainBody(lines: seq<string>)
  {
    forall i :: 0 <= i < |lines| && IsBody(lines[i]) ==> Plain(lines[i])
  }

  lemma OneMoreLine(out: seq<string>, text: string, sofar: seq<string>, l: string, line: string, w: int)
    requires Plain(l) && w >= 1 && line == l + [CR]
    requires FeedAll(Wrap(out, "", false), text, w) == Wrap(out + sofar, "", false)
    ensures FeedAll(Wrap(out, "", false), text + line, w) == Wrap(out + (sofar + Wrapped(l, w)), "", false)
  {
    ChunksDoNotMatter(Wrap(out, "", false), text, line, w);
    ParagraphWraps(out + sofar, l, w);
    RegroupLines(out, sofar, Wrapped(l, w));
  }

  /** The stored text is read back as its body lines, each wrapped on its own. */
  lemma {:induction false} BodyReadBack(out: seq<string>, lines: seq<string>, w: int)
    requires PlainBody(lines) && w >= 1
    ensures FeedAll(Wrap(out, "", false), BodyText(lines), w) == Wrap(out + WrapBody(lines, w), "", false)
  {
    if lines == [] {
      assert out + [] == out;
    } else {
      var init, l := lines[..|lines| - 1], lines[|lines| - 1];
      BodyReadBack(out, init, w);
      if IsBody(l) {
        assert BodyText(lines) == BodyText(init) + (l + [CR]) by { assert PlaceOf(l).Body?; }
        OneMoreLine(out, BodyText(init), WrapBody(init, w), l, l + [CR], w);
      } else {
        assert !PlaceOf(l).Body?;
      }
    }
  }

  /** Below the width, the body lines come back unchanged, empty ones too. */
  lemma {:induction false} ShortLinesUnchanged(lines: seq<string>, w: int)
    requires forall i :: 0 <= i < |lines| && IsBody(lines[i]) ==> |lines[i]| < w
    ensures WrapBody(lines, w) == Select(lines, IsBody)
  {
    if lines != [] {
      ShortLinesUnchanged(lines[..|lines| - 1], w);
    }
  }
}
