/** How the lines of a message are split between header subfields and message text when it
    is stored, and what each subfield becomes when the message is read back. */
module JamText {
  import opened Bytes
  import opened JamFormat

  const MAX_LINE_LENGTH: nat := 2048

  const CTRL: char := 1 as char
  const CR: char := '\r'
  const LF: char := '\n'

  const PID_TAG: string := [CTRL] + "PID: "
  const MSGID_TAG: string := [CTRL] + "MSGID: "
  const REPLY_TAG: string := [CTRL] + "REPLY: "
  const PATH_TAG: string := [CTRL] + "PATH: "
  const VIA_WORD: string := [CTRL] + "Via"
  const VIA_TAG: string := [CTRL] + "Via "
  const FLAGS_TAG: string := [CTRL] + "FLAGS "
  const TZUTC_TAG: string := [CTRL] + "TZUTC "
  const SEENBY_WORD: string := "SEEN-BY:"
  const SEENBY_TAG: string := "SEEN-BY: "
  const AREA_WORD: string := "AREA:"

  /** Where a line of the message goes when it is stored. */
  datatype Place = Body | Sub(field: Field) | Dropped

  function PlaceOf(l: string): Place
  {
    if !([CTRL] <= l) && !(SEENBY_WORD <= l) then Body
    else if PID_TAG <= l then Sub(Field(SFLD_PID, l[6..]))
    else if MSGID_TAG <= l then Sub(Field(SFLD_MSGID, l[8..]))
    else if REPLY_TAG <= l then Sub(Field(SFLD_REPLYID, l[8..]))
    else if PATH_TAG <= l then Sub(Field(SFLD_PATH2D, l[7..]))
    else if VIA_WORD <= l then Sub(Field(SFLD_TRACE, if |l| >= 5 then l[5..] else ""))
    else if SEENBY_TAG <= l then Sub(Field(SFLD_SEENBY2D, l[9..]))
    else if [CTRL] <= l then Sub(Field(SFLD_FTSKLUDGE, l[1..]))
    else Dropped
  }

  /** The subfields that the lines of a message become, in order. */
  function KludgeFields(lines: seq<string>): seq<Field>
  {
    if lines == [] then []
    else
      var init := KludgeFields(lines[..|lines| - 1]);
      match PlaceOf(lines[|lines| - 1])
      case Sub(f) => init + [f]
      case _ => init
  }

  /** The message text that the lines of a message become: every body line and a CR. */
  function BodyText(lines: seq<string>): string
  {
    if lines == [] then ""
    else
      var init := BodyText(lines[..|lines| - 1]);
      var l := lines[|lines| - 1];
      if PlaceOf(l).Body? then init + l + [CR] else init
  }

  /** What reading a subfield back gives: a line above the text, a line below it, or none. */
  datatype Shown = Top(line: string) | Bottom(line: string) | Hidden

  function Cut(l: string): (r: string)
    ensures |l| < MAX_LINE_LENGTH ==> r == l
    ensures |r| < MAX_LINE_LENGTH
  {
    if |l| < MAX_LINE_LENGTH then l else l[..MAX_LINE_LENGTH - 1]
  }

  function ShownAs(f: Field): Shown
  {
    if f.LoId() == SFLD_MSGID then Top(Cut(MSGID_TAG + f.data))
    else if f.LoId() == SFLD_REPLYID then Top(Cut(REPLY_TAG + f.data))
    else if f.LoId() == SFLD_PID then Top(Cut(PID_TAG + f.data))
    else if f.LoId() == SFLD_TRACE then Top(Cut(VIA_TAG + f.data))
    else if f.LoId() == SFLD_FTSKLUDGE then
      if AREA_WORD <= f.data then Top(Cut(f.data)) else Top(Cut([CTRL] + f.data))
    else if f.LoId() == SFLD_SEENBY2D then Bottom(Cut(SEENBY_TAG + f.data))
    else if f.LoId() == SFLD_PATH2D then Bottom(Cut(PATH_TAG + f.data))
    else if f.LoId() == SFLD_FLAGS then Top(Cut(FLAGS_TAG + f.data))
    else if f.LoId() == SFLD_TZUTCINFO then Top(Cut(TZUTC_TAG + f.data))
    else Hidden
  }

  function Tops(fs: seq<Field>): seq<string>
  {
    if fs == [] then []
    else
      var init := Tops(fs[..|fs| - 1]);
      match ShownAs(fs[|fs| - 1])
      case Top(l) => init + [l]
      case _ => init
  }

  function Bottoms(fs: seq<Field>): seq<string>
  {
    if fs == [] then []
    else
      var init := Bottoms(fs[..|fs| - 1]);
      match ShownAs(fs[|fs| - 1])
      case Bottom(l) => init + [l]
      case _ => init
  }

  predicate IsBody(l: string) { !([CTRL] <= l) && !(SEENBY_WORD <= l) }

  predicate IsBottom(l: string) { SEENBY_WORD <= l || PATH_TAG <= l }

  predicate IsControl(l: string) { !IsBody(l) && !IsBottom(l) }

  /** The lines of a message that satisfy p, in order. */
  function Select(lines: seq<string>, p: string -> bool): seq<string>
  {
    if lines == [] then []
    else
      var init := Select(lines[..|lines| - 1], p);
      if p(lines[|lines| - 1]) then init + [lines[|lines| - 1]] else init
  }

  /** A control line that a subfield keeps to the letter. */
  predicate Faithful(l: string)
  {
    && |l| < MAX_LINE_LENGTH
    && (SEENBY_WORD <= l ==> SEENBY_TAG <= l)
    && (VIA_WORD <= l ==> VIA_TAG <= l)
    && !([CTRL] + AREA_WORD <= l)
  }

  lemma TagSplit(tag: string, l: string)
    requires tag <= l
    ensures tag + l[|tag|..] == l
  {
  }

  /** What tells the tags apart. */
  lemma TagChars()
    ensures |PID_TAG| == 6 && PID_TAG[0] == CTRL && PID_TAG[1] == 'P' && PID_TAG[2] == 'I'
    ensures |MSGID_TAG| == 8 && MSGID_TAG[0] == CTRL && MSGID_TAG[1] == 'M'
    ensures |REPLY_TAG| == 8 && REPLY_TAG[0] == CTRL && REPLY_TAG[1] == 'R'
    ensures |PATH_TAG| == 7 && PATH_TAG[0] == CTRL && PATH_TAG[1] == 'P' && PATH_TAG[2] == 'A'
    ensures |VIA_WORD| == 4 && VIA_WORD[0] == CTRL && VIA_WORD[1] == 'V'
    ensures |VIA_TAG| == 5 && VIA_TAG[0] == CTRL && VIA_TAG[1] == 'V' && VIA_TAG[4] == ' ' && VIA_TAG[..4] == VIA_WORD
    ensures |SEENBY_WORD| == 8 && SEENBY_WORD[0] == 'S' && |SEENBY_TAG| == 9 && SEENBY_TAG[0] == 'S'
    ensures SEENBY_TAG[..8] == SEENBY_WORD
    ensures |[CTRL] + AREA_WORD| == 6 && ([CTRL] + AREA_WORD)[1] == 'A' && ([CTRL] + AREA_WORD)[0] == CTRL
  {
  }

  /** Line l is stored as a subfield that is shown on its side of the text, and to the letter
      exactly when it is Faithful. */
  predicate ComesBack(l: string)
  {
    PlaceOf(l).Sub? &&
    var s := ShownAs(PlaceOf(l).field);
    !s.Hidden? && (s.Bottom? <==> IsBottom(l)) && (s.line == l <==> Faithful(l))
  }

  lemma KludgeRestored(l: string)
    requires PID_TAG <= l || MSGID_TAG <= l || REPLY_TAG <= l
    ensures ComesBack(l)
  {
    TagChars();
    if PID_TAG <= l {
      TagSplit(PID_TAG, l);
    } else if MSGID_TAG <= l {
      TagSplit(MSGID_TAG, l);
    } else {
      TagSplit(REPLY_TAG, l);
    }
  }

  lemma RouteRestored(l: string)
    requires PATH_TAG <= l || SEENBY_TAG <= l
    ensures ComesBack(l)
  {
    TagChars();
    if PATH_TAG <= l {
      TagSplit(PATH_TAG, l);
    } else {
      TagSplit(SEENBY_TAG, l);
    }
  }

  lemma ViaPlace(l: string)
    requires VIA_WORD <= l
    ensures PlaceOf(l) == Sub(Field(SFLD_TRACE, if |l| >= 5 then l[5..] else ""))
    ensures !IsBottom(l) && !([CTRL] + AREA_WORD <= l) && !(SEENBY_WORD <= l)
  {
    TagChars();
    assert l[0] == CTRL && l[1] == 'V';
  }

  lemma ViaLine(l: string)
    requires VIA_WORD <= l
    ensures VIA_TAG + (if |l| >= 5 then l[5..] else "") == l <==> VIA_TAG <= l
  {
    TagChars();
    if VIA_TAG <= l {
      TagSplit(VIA_TAG, l);
    }
  }

  lemma ViaRestored(l: string)
    requires VIA_WORD <= l
    ensures ComesBack(l)
  {
    TagChars();
    ViaPlace(l);
    ViaLine(l);
  }

  lemma OtherRestored(l: string)
    requires [CTRL] <= l && !(PID_TAG <= l) && !(MSGID_TAG <= l) && !(REPLY_TAG <= l) && !(PATH_TAG <= l) && !(VIA_WORD <= l)
    ensures ComesBack(l)
  {
    TagChars();
    TagSplit([CTRL], l);
    if AREA_WORD <= l[1..] {
      assert l == [CTRL] + l[1..];
    }
  }

  /** A control line comes back as the same line, on the right side of the text, exactly
      when it is Faithful; the one kind that is not stored at all is never Faithful. */
  lemma LineRestored(l: string)
    requires !IsBody(l)
    ensures if PlaceOf(l).Dropped? then IsBottom(l) && !Faithful(l) else ComesBack(l)
  {
    if PID_TAG <= l || MSGID_TAG <= l || REPLY_TAG <= l {
      KludgeRestored(l);
    } else if PATH_TAG <= l || SEENBY_TAG <= l {
      RouteRestored(l);
    } else if VIA_WORD <= l {
      ViaRestored(l);
    } else if [CTRL] <= l {
      OtherRestored(l);
    }
  }

  lemma SnocInjective<T>(a: seq<T>, x: T, b: seq<T>, y: T)
    ensures a + [x] == b + [y] <==> a == b && x == y
  {
    if a + [x] == b + [y] {
      assert (a + [x])[..|a|] == a && (b + [y])[..|b|] == b;
      assert (a + [x])[|a|] == x && (b + [y])[|b|] == y;
    }
  }

  ghost predicate AllFaithful(lines: seq<string>)
  {
    forall i :: 0 <= i < |lines| && !IsBody(lines[i]) ==> Faithful(lines[i])
  }

  lemma ShownSnoc(fs: seq<Field>, f: Field)
    ensures Tops(fs + [f]) == if ShownAs(f).Top? then Tops(fs) + [ShownAs(f).line] else Tops(fs)
    ensures Bottoms(fs + [f]) == if ShownAs(f).Bottom? then Bottoms(fs) + [ShownAs(f).line] else Bottoms(fs)
  {
    assert (fs + [f])[..|fs|] == fs;
  }

  lemma FaithfulStep(lines: seq<string>)
    requires lines != []
    ensures var init, l := lines[..|lines| - 1], lines[|lines| - 1];
            AllFaithful(lines) <==> AllFaithful(init) && (IsBody(l) || Faithful(l))
  {
    assert lines == lines[..|lines| - 1] + [lines[|lines| - 1]];
  }

  /** Storing lines as subfields and showing them again partitions them stably, control
      lines above and SEEN-BY and PATH lines below, exactly when each one is Faithful. */
  lemma {:induction false} StablePartition(lines: seq<string>)
    ensures var fs := KludgeFields(lines);
            && |Tops(fs)| == |Select(lines, IsControl)|
            && |Bottoms(fs)| <= |Select(lines, IsBottom)|
            && (AllFaithful(lines) <==> Tops(fs) == Select(lines, IsControl) && Bottoms(fs) == Select(lines, IsBottom))
  {
    if lines != [] {
      var init, l := lines[..|lines| - 1], lines[|lines| - 1];
      StablePartition(init);
      FaithfulStep(lines);
      if !IsBody(l) {
        LineRestored(l);
        var fs := KludgeFields(init);
        if PlaceOf(l).Sub? {
          var f := PlaceOf(l).field;
          ShownSnoc(fs, f);
          SnocInjective(Tops(fs), ShownAs(f).line, Select(init, IsControl), l);
          SnocInjective(Bottoms(fs), ShownAs(f).line, Select(init, IsBottom), l);
        }
      }
    }
  }

  lemma KludgeOne(l: string, f: Field)
    requires PlaceOf(l) == Sub(f)
    ensures KludgeFields([l]) == [f]
  {
    assert [l][..0] == [] && [] + [f] == [f];
  }

  lemma TopOne(f: Field, line: string)
    requires ShownAs(f) == Top(line)
    ensures Tops([f]) == [line]
  {
    assert [f][..0] == [] && [] + [line] == [line];
  }

  lemma SelectOne(l: string, p: string -> bool)
    requires p(l)
    ensures Select([l], p) == [l]
  {
    assert [l][..0] == [] && [] + [l] == [l];
  }

  lemma AreaPlace(l: string, a: string)
    requires AREA_WORD <= a && |a| < MAX_LINE_LENGTH && l == [CTRL] + a
    ensures PlaceOf(l) == Sub(Field(SFLD_FTSKLUDGE, a)) && IsControl(l) && l != a
    ensures ShownAs(Field(SFLD_FTSKLUDGE, a)) == Top(a)
  {
    TagChars();
    assert l[0] == CTRL && l[1] == 'A' && l[1..] == a && |a| == |l| - 1;
  }

  /** Area lines behind a control character lose the character. */
  lemma AreaLineLoses(l: string, a: string)
    requires AREA_WORD <= a && |a| < MAX_LINE_LENGTH && l == [CTRL] + a
    ensures Select([l], IsControl) == [l] && Tops(KludgeFields([l])) == [a] && a != l
  {
    var f := Field(SFLD_FTSKLUDGE, a);
    AreaPlace(l, a);
    KludgeOne(l, f);
    SelectOne(l, IsControl);
    TopOne(f, a);
  }

  lemma Longer(a: string, b: string)
    ensures a <= a + b
  {
  }

  /** One line that changes. */
  lemma AreaLineChanges(a: string)
    requires a == "AREA:x"
    ensures var l := [CTRL] + a; Select([l], IsControl) == [l] && Tops(KludgeFields([l])) == [a] && a != l
  {
    assert AREA_WORD + "x" == a;
    Longer(AREA_WORD, "x");
    AreaLineLoses([CTRL] + a, a);
  }

  lemma {:induction false} ShownConcat(a: seq<Field>, b: seq<Field>)
    ensures Tops(a + b) == Tops(a) + Tops(b)
    ensures Bottoms(a + b) == Bottoms(a) + Bottoms(b)
  {
    if b == [] {
      assert a + b == a;
    } else {
      var init := b[..|b| - 1];
      assert (a + b)[..|a + b| - 1] == a + init;
      ShownConcat(a, init);
    }
  }
}
