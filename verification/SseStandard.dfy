/** The codec against the event-stream interpretation of the HTML Standard, section 9.2.6. */
module SseStandard {
  import opened Sequences
  import opened Utf8
  import opened Strings
  import opened SseCodec

  // ---------- The standard's reading ----------

  /** Lines end at LF, CR or both; the last entry is what follows the last line end. */
  function StandardLines(s: string): (r: seq<string>)
    ensures |r| > 0
  {
    if s == "" then [""]
    else if s[0] == '\r' && |s| > 1 && s[1] == '\n' then [""] + StandardLines(s[2..])
    else if s[0] == '\n' || s[0] == '\r' then [""] + StandardLines(s[1..])
    else var r := StandardLines(s[1..]); [[s[0]] + r[0]] + r[1..]
  }

  /** The value a line adds to the data buffer; a field name without a colon has an empty value. */
  function StandardValue(line: string): Option<string> {
    if line == "data" then Some("")
    else if PREFIX <= line then Some(if " " <= line[5..] then line[6..] else line[5..])
    else None
  }

  /** The data of the events dispatched: an empty line dispatches what has been gathered, if anything;
      an event that is never finished is dropped. */
  function Interpret(lines: seq<string>, data: seq<string>): seq<string> {
    if lines == [] then []
    else if lines[0] == "" then (if data == [] then [] else [Join(data)]) + Interpret(lines[1..], [])
    else match StandardValue(lines[0])
      case Some(v) => Interpret(lines[1..], data + [v])
      case None => Interpret(lines[1..], data)
  }

  const BYTE_ORDER_MARK: char := '\U{FEFF}'

  function StandardEvents(text: string): seq<string> {
    var lines := StandardLines(if text != "" && text[0] == BYTE_ORDER_MARK then text[1..] else text);
    Interpret(lines[..|lines| - 1], [])
  }

  // ---------- Lines ----------

  /** A line that both read alike: its data value, if any, does not end in white space unless it is a
      lone space; it is not a bare field name; and it does not turn into a data line when stripped. */
  predicate Conforming(line: string) {
    if PREFIX <= line then line[5..] == "" || line[5..] == " " || !IsSpace(line[|line| - 1])
    else line != "data" && !(PREFIX <= Strip(line))
  }

  lemma {:induction false} StripRightOfData(line: string)
    requires PREFIX <= line
    ensures PREFIX <= StripRight(line)
  {
    if IsSpace(line[|line| - 1]) {
      assert |line| > 5 by {
        assert line[4] == ':';
      }
      StripRightOfData(line[..|line| - 1]);
    }
  }

  /** Taking one leading space off a shortened value and off the value itself. */
  lemma ShorterValueDiffers(v: string, m: nat)
    requires m <= |v|
    ensures var w := v[..m];
      (if " " <= w then w[1..] else w) == (if " " <= v then v[1..] else v) <==> m == |v| || (v == " " && m == 0)
  {
    var w := v[..m];
    assert m == |v| ==> w == v;
    assert 0 < m ==> w[0] == v[0];
  }

  lemma DataLineAgreesExactly(line: string)
    requires PREFIX <= line
    ensures FieldValue(line) == StandardValue(line) <==> Conforming(line)
  {
    assert line[0] == 'd' && StripLeft(line) == line && line != "data";
    StripRightOfData(line);
    hide IsSpace;
    var v, k := line[5..], |StripRight(line)|;
    assert Strip(line) == line[..k] && line[..k][5..] == v[..k - 5];
    ShorterValueDiffers(v, k - 5);
    assert k < |line| && v == " " ==> k == 5;
    hide StripRight;
  }

  /** Exactly the lines on which codec and standard agree. */
  lemma LineAgreesExactly(line: string)
    ensures FieldValue(line) == StandardValue(line) <==> Conforming(line)
  {
    if PREFIX <= line {
      DataLineAgreesExactly(line);
    } else if line == "data" {
      assert StripLeft(line) == line && |Strip(line)| <= 4;
    }
  }

  // ---------- Frames ----------

  predicate GoodLine(line: string) {
    line != "" && '\n' !in line && '\r' !in line && Conforming(line)
  }

  ghost predicate GoodLines(lines: seq<string>) {
    forall i :: 0 <= i < |lines| ==> GoodLine(lines[i])
  }

  ghost predicate GoodFrames(frames: seq<seq<string>>) {
    forall i :: 0 <= i < |frames| ==> frames[i] != [] && GoodLines(frames[i])
  }

  predicate HasData(frame: seq<string>) {
    DataParts(frame) != []
  }

  /** The lines of every frame, and an empty line after it. */
  function StreamText(frames: seq<seq<string>>): string {
    if frames == [] then "" else Join(frames[0]) + "\n\n" + StreamText(frames[1..])
  }

  lemma {:induction false} WithoutReturns(s: string)
    requires '\r' !in s
    ensures StandardLines(s) == Lines(s)
  {
    if s != "" {
      WithoutReturns(s[1..]);
    }
  }

  lemma LineThenRest(line: string, rest: string)
    requires '\n' !in line
    ensures Lines(line + "\n" + rest) == [line] + Lines(rest)
  {
    var s := "\n" + rest;
    FirstLine(line, s);
    assert s[1..] == rest && line + s == line + "\n" + rest && line + "" == line;
  }

  lemma {:induction false} LinesOfJoin(lines: seq<string>, rest: string)
    requires lines != [] && GoodLines(lines)
    ensures Lines(Join(lines) + "\n" + rest) == lines + Lines(rest)
    ensures Lines(Join(lines)) == lines
    ensures '\r' !in Join(lines)
  {
    hide Conforming, Lines;
    assert GoodLine(lines[0]);
    if |lines| == 1 {
      LineThenRest(lines[0], rest);
      SingleLine(lines[0]);
    } else {
      LinesOfJoin(lines[1..], rest);
      LineThenRest(lines[0], Join(lines[1..]) + "\n" + rest);
      LineThenRest(lines[0], Join(lines[1..]));
      assert Join(lines) + "\n" + rest == lines[0] + "\n" + (Join(lines[1..]) + "\n" + rest);
    }
  }

  /** No empty line inside a frame, nor at either end of it. */
  lemma {:induction false} LinesMakeOneFrame(lines: seq<string>)
    requires lines != [] && GoodLines(lines)
    ensures Join(lines) != "" && Join(lines)[0] != '\n' && OneFrame(Join(lines))
  {
    assert GoodLine(lines[0]);
    if |lines| == 1 {
      NoNewlineOneFrame(lines[0]);
    } else {
      LinesMakeOneFrame(lines[1..]);
      LineMakesOneFrame(lines[0], Join(lines[1..]));
    }
  }

  lemma {:induction false} LineMakesOneFrame(line: string, rest: string)
    requires '\n' !in line && rest != "" && rest[0] != '\n' && OneFrame(rest)
    ensures OneFrame(line + "\n" + rest)
  {
    var s := line + "\n" + rest;
    if line == "" {
      assert s[1..] == rest;
    } else {
      assert s[1..] == line[1..] + "\n" + rest;
      LineMakesOneFrame(line[1..], rest);
    }
  }

  // ---------- What both make of a stream ----------

  /** The events of whole frames, as the standard has them. */
  function EventsOf(frames: seq<seq<string>>): seq<string> {
    if frames == [] then []
    else (if HasData(frames[0]) then [Join(DataParts(frames[0]))] else []) + EventsOf(frames[1..])
  }

  lemma {:induction false} GatherLines(lines: seq<string>, rest: seq<string>, data: seq<string>)
    requires GoodLines(lines)
    ensures Interpret(lines + rest, data) == Interpret(rest, data + DataParts(lines))
  {
    hide Conforming, FieldValue, StandardValue;
    if lines == [] {
      assert lines + rest == rest && data + DataParts(lines) == data;
    } else {
      var line := lines[0];
      assert GoodLine(line);
      LineAgreesExactly(line);
      assert (lines + rest)[1..] == lines[1..] + rest;
      var data' := match FieldValue(line) case Some(v) => data + [v] case None => data;
      GatherLines(lines[1..], rest, data');
      assert data' + DataParts(lines[1..]) == data + DataParts(lines);
    }
  }

  /** The lines of a stream: those of its frames with an empty line after each, and of the rest. */
  function StreamLines(frames: seq<seq<string>>): seq<string> {
    if frames == [] then [] else frames[0] + [""] + StreamLines(frames[1..])
  }

  lemma {:induction false} LinesOfStream(frames: seq<seq<string>>, rest: string)
    requires GoodFrames(frames)
    ensures Lines(StreamText(frames) + rest) == StreamLines(frames) + Lines(rest)
    ensures '\r' !in StreamText(frames)
  {
    hide GoodLines, Lines, Join;
    if frames == [] {
      assert StreamText(frames) + rest == rest;
    } else {
      var later := StreamText(frames[1..]) + rest;
      LinesOfStream(frames[1..], rest);
      LinesOfJoin(frames[0], "\n" + later);
      assert ("\n" + later)[1..] == later;
      LineThenRest("", later);
      assert "" + "\n" + later == "\n" + later;
      assert StreamText(frames) + rest == Join(frames[0]) + "\n" + ("\n" + later);
      assert frames[0] + ([""] + (StreamLines(frames[1..]) + Lines(rest))) == StreamLines(frames) + Lines(rest);
    }
  }

  lemma EmptyLineDispatches(rest: seq<string>, data: seq<string>)
    ensures Interpret([""] + rest, data) == (if data == [] then [] else [Join(data)]) + Interpret(rest, [])
  {
    assert ([""] + rest)[1..] == rest;
  }

  lemma {:induction false} InterpretStream(frames: seq<seq<string>>, rest: seq<string>)
    requires GoodFrames(frames)
    ensures Interpret(StreamLines(frames) + rest, []) == EventsOf(frames) + Interpret(rest, [])
  {
    hide GoodLines, Join, DataParts, Interpret;
    if frames == [] {
      assert StreamLines(frames) + rest == rest;
    } else {
      var later := StreamLines(frames[1..]) + rest;
      assert StreamLines(frames) + rest == frames[0] + ([""] + later);
      GatherLines(frames[0], [""] + later, []);
      assert [] + DataParts(frames[0]) == DataParts(frames[0]);
      EmptyLineDispatches(later, DataParts(frames[0]));
      InterpretStream(frames[1..], rest);
    }
  }

  lemma LinesOfLast(last: seq<string>) returns (lines: seq<string>, rest: string)
    requires GoodLines(last)
    ensures GoodLines(lines) && Lines(Join(last)) == lines + [rest] && '\r' !in Join(last)
  {
    hide GoodLine;
    if last == [] {
      lines, rest := [], "";
    } else {
      LinesOfJoin(last, "");
      lines, rest := last[..|last| - 1], last[|last| - 1];
    }
  }

  lemma StandardOfLines(text: string, lines: seq<string>, rest: string)
    requires '\r' !in text && (text != "" ==> text[0] != BYTE_ORDER_MARK)
    requires Lines(text) == lines + [rest]
    ensures StandardEvents(text) == Interpret(lines, [])
  {
    hide Lines, Interpret;
    WithoutReturns(text);
  }

  /** The standard sees the whole frames, and drops an unfinished one. */
  lemma StandardOfStream(frames: seq<seq<string>>, last: seq<string>)
    requires GoodFrames(frames) && GoodLines(last)
    requires var text := StreamText(frames) + Join(last); text != "" ==> text[0] != BYTE_ORDER_MARK
    ensures StandardEvents(StreamText(frames) + Join(last)) == EventsOf(frames)
  {
    hide GoodLines, GoodFrames, DataParts, Join, Lines, StreamLines, StreamText, EventsOf, StandardEvents;
    var text := StreamText(frames) + Join(last);
    var lines, rest := LinesOfLast(last);
    LinesOfStream(frames, Join(last));
    assert StreamLines(frames) + (lines + [rest]) == StreamLines(frames) + lines + [rest];
    StandardOfLines(text, StreamLines(frames) + lines, rest);
    InterpretStream(frames, lines);
    GatherLines(lines, [], []);
    assert lines + [] == lines;
  }

  /** The codec's text for every whole frame. */
  function FrameTexts(frames: seq<seq<string>>): (r: seq<string>)
    ensures |r| == |frames|
  {
    if frames == [] then []
    else [if HasData(frames[0]) then Join(DataParts(frames[0])) else Join(frames[0])] + FrameTexts(frames[1..])
  }

  /** What an unfinished frame yields. */
  function Unfinished(s: string): seq<Object> {
    if Blank(Encode(s)) then [] else [Text(FrameText(s))]
  }

  lemma UnfinishedFrame(lib: Library, s: string)
    requires OneFrame(s)
    ensures DecodeSpec(lib, false, Encode(s)) == Stream(Unfinished(s), false)
  {
    var b := Encode(s);
    FindInEncoded(s, []);
    assert Find(b).None? by {
      if Find(b).Some? {
        FindIsStable(b, [10, 10] + []);
        assert false;
      }
    }
    RoundTrip(s);
  }

  lemma TextOfFrame(frame: seq<string>)
    requires frame != [] && GoodLines(frame)
    ensures FrameText(Join(frame)) == if HasData(frame) then Join(DataParts(frame)) else Join(frame)
  {
    LinesOfJoin(frame, "");
  }

  /** One whole frame, whatever follows it. */
  lemma CodecOfFrame(lib: Library, frame: seq<string>, later: string)
    requires frame != [] && GoodLines(frame)
    ensures DecodeSpec(lib, false, Encode(Join(frame) + "\n\n" + later)) ==
      Prepend([Text(if HasData(frame) then Join(DataParts(frame)) else Join(frame))], DecodeSpec(lib, false, Encode(later)))
  {
    LinesMakeOneFrame(frame);
    TextOfFrame(frame);
    EncodeConcat(Join(frame) + "\n\n", later);
    hide GoodLines, Join, DataParts, FrameText, DecodeSpec, Encode, OneFrame;
    DecodeOneFrame(lib, false, Join(frame), Encode(later));
  }

  lemma TextObjectsOfMore(text: string, texts: seq<string>)
    ensures TextObjects([text] + texts) == [Text(text)] + TextObjects(texts)
  {
    assert ([text] + texts)[1..] == texts;
  }

  lemma CodecOfLast(lib: Library, frames: seq<seq<string>>, last: seq<string>)
    requires frames == [] && GoodLines(last)
    ensures DecodeSpec(lib, false, Encode(StreamText(frames) + Join(last)))
         == Stream(TextObjects(FrameTexts(frames)) + Unfinished(Join(last)), false)
  {
    if last != [] {
      LinesMakeOneFrame(last);
    }
    hide GoodLines, DecodeSpec, Unfinished;
    UnfinishedFrame(lib, Join(last));
    assert StreamText(frames) + Join(last) == Join(last);
    assert TextObjects(FrameTexts(frames)) + Unfinished(Join(last)) == Unfinished(Join(last));
  }

  lemma FirstAndRest(frames: seq<seq<string>>)
    requires GoodFrames(frames) && frames != []
    ensures frames[0] != [] && GoodLines(frames[0]) && GoodFrames(frames[1..])
  {
    hide GoodLines;
  }

  lemma StreamAndTexts(frames: seq<seq<string>>, rest: string)
    requires frames != []
    ensures StreamText(frames) + rest == Join(frames[0]) + "\n\n" + (StreamText(frames[1..]) + rest)
    ensures TextObjects(FrameTexts(frames)) ==
      [Text(if HasData(frames[0]) then Join(DataParts(frames[0])) else Join(frames[0]))] + TextObjects(FrameTexts(frames[1..]))
  {
    hide Join, DataParts;
    TextObjectsOfMore(FrameTexts(frames)[0], FrameTexts(frames[1..]));
  }

  /** The codec yields every whole frame, and an unfinished one too. */
  lemma {:induction false} CodecOfStream(lib: Library, frames: seq<seq<string>>, last: seq<string>)
    requires GoodFrames(frames) && GoodLines(last)
    ensures var out := DecodeSpec(lib, false, Encode(StreamText(frames) + Join(last)));
      && !out.failed
      && out.items == TextObjects(FrameTexts(frames)) + Unfinished(Join(last))
  {
    hide GoodLines, GoodFrames, Join, DataParts, HasData, FrameText, DecodeSpec, Encode, Unfinished, TextObjects, StreamText, FrameTexts;
    if frames == [] {
      CodecOfLast(lib, frames, last);
    } else {
      var later := StreamText(frames[1..]) + Join(last);
      FirstAndRest(frames);
      CodecOfFrame(lib, frames[0], later);
      CodecOfStream(lib, frames[1..], last);
      StreamAndTexts(frames, Join(last));
    }
  }

  lemma {:induction false} EventsAreFrameTexts(frames: seq<seq<string>>)
    ensures |EventsOf(frames)| <= |frames|
    ensures |EventsOf(frames)| == |frames| ==> forall i :: 0 <= i < |frames| ==> HasData(frames[i])
    ensures (forall i :: 0 <= i < |frames| ==> HasData(frames[i])) ==> EventsOf(frames) == FrameTexts(frames)
  {
    if frames != [] {
      EventsAreFrameTexts(frames[1..]);
    }
  }

  /** Tabs, line ends and blanks. */
  predicate BlankChars(s: string) {
    forall i :: 0 <= i < |s| ==> 9 <= s[i] as int <= 13 || s[i] == ' '
  }

  lemma BlankJoins(head: Bytes, rest: Bytes)
    ensures Blank(head + rest) <==> Blank(head) && Blank(rest)
  {
    assert forall x :: x in head + rest <==> x in head || x in rest;
  }

  lemma {:induction false} BlankText(s: string)
    ensures Blank(Encode(s)) <==> BlankChars(s)
  {
    if s != "" {
      var head := EncodeChar(s[0]);
      BlankText(s[1..]);
      BlankJoins(head, Encode(s[1..]));
      assert head[0] in head;
      assert Blank(head) <==> 9 <= s[0] as int <= 13 || s[0] == ' ';
      assert forall i :: 0 < i < |s| ==> s[1..][i - 1] == s[i];
    }
  }

  ghost predicate HasDataLine(frame: seq<string>) {
    exists j :: 0 <= j < |frame| && PREFIX <= frame[j]
  }

  lemma {:induction false} DataLineGivesData(frame: seq<string>)
    requires GoodLines(frame)
    ensures HasData(frame) <==> HasDataLine(frame)
  {
    hide FieldValue;
    if frame != [] {
      assert GoodLine(frame[0]);
      LineAgreesExactly(frame[0]);
      DataLineGivesData(frame[1..]);
      assert forall j :: 0 < j < |frame| ==> frame[1..][j - 1] == frame[j];
      assert HasDataLine(frame) <==> PREFIX <= frame[0] || HasDataLine(frame[1..]) by {
        if j :| 0 <= j < |frame[1..]| && PREFIX <= frame[1..][j] {
          assert PREFIX <= frame[j + 1];
        }
      }
    }
  }

  /** On streams of such lines codec and standard agree exactly when every frame has a data line and
      nothing but tabs, line ends and blanks follows the last one. */
  lemma AgreesExactly(lib: Library, frames: seq<seq<string>>, last: seq<string>)
    requires GoodFrames(frames) && GoodLines(last)
    requires var text := StreamText(frames) + Join(last); text != "" ==> text[0] != BYTE_ORDER_MARK
    ensures var text := StreamText(frames) + Join(last);
      DecodeSpec(lib, false, Encode(text)) == Stream(TextObjects(StandardEvents(text)), false) <==>
      (forall i :: 0 <= i < |frames| ==> HasDataLine(frames[i])) && BlankChars(Join(last))
  {
    StandardOfStream(frames, last);
    CodecOfStream(lib, frames, last);
    EventsAreFrameTexts(frames);
    BlankText(Join(last));
    hide Blank, Join, HasData, HasDataLine, GoodLines;
    forall i | 0 <= i < |frames| ensures HasData(frames[i]) <==> HasDataLine(frames[i]) {
      DataLineGivesData(frames[i]);
    }
  }

  // ---------- What the encoder sends ----------

  function EncodedFrames(texts: seq<string>): (r: seq<seq<string>>)
    ensures |r| == |texts|
  {
    if texts == [] then [] else [["data: " + texts[0]]] + EncodedFrames(texts[1..])
  }

  lemma EncodedLine(t: string)
    requires Clean(t) && '\r' !in t
    ensures GoodLine("data: " + t) && DataParts(["data: " + t]) == [t]
  {
    var line := "data: " + t;
    assert line[5..] == " " + t && PREFIX <= line;
    assert t != "" ==> line[|line| - 1] == t[|t| - 1];
    LineAgreesExactly(line);
    assert (" " + t)[1..] == t && line[6..] == t;
    assert DataParts([line][1..]) == [];
  }

  lemma OneFrameMore(line: string, t: string, frames: seq<seq<string>>)
    requires GoodLine(line) && DataParts([line]) == [t] && GoodFrames(frames)
    ensures var more := [[line]] + frames;
      && GoodFrames(more) && EventsOf(more) == [t] + EventsOf(frames)
      && StreamText(more) == line + "\n\n" + StreamText(frames)
  {
    hide GoodLine, DataParts;
    var more := [[line]] + frames;
    assert more[0] == [line] && more[1..] == frames;
    assert Join([line]) == line && Join([t]) == t;
    hide Join;
    assert forall i :: 0 < i < |more| ==> more[i] == frames[i - 1];
  }

  lemma {:induction false} EncodedEvents(texts: seq<string>)
    requires forall i :: 0 <= i < |texts| ==> Clean(texts[i]) && '\r' !in texts[i]
    ensures GoodFrames(EncodedFrames(texts)) && EventsOf(EncodedFrames(texts)) == texts
    ensures Encode(StreamText(EncodedFrames(texts))) == FramesOf(texts)
    ensures var text := StreamText(EncodedFrames(texts)); text != "" ==> text[0] == 'd'
  {
    if texts != [] {
      var t, frames := texts[0], EncodedFrames(texts[1..]);
      EncodedLine(t);
      EncodedEvents(texts[1..]);
      hide GoodLine, Clean, GoodFrames, DataParts, EventsOf, StreamText;
      OneFrameMore("data: " + t, t, frames);
      EncodeConcat("data: " + t + "\n\n", StreamText(frames));
    }
  }

  /** Any reader that follows the standard gets back what the encoder was given: strings of one line, not
      ending in white space, without a carriage return. */
  lemma StandardReadsEncoded(lib: Library, texts: seq<string>) returns (text: string)
    requires forall t :: t in texts ==> Clean(t) && '\r' !in t
    ensures Encode(text) == Flatten(EncodeSpec(lib, false, TextObjects(texts)).items)
    ensures StandardEvents(text) == texts
  {
    hide Clean;
    text := StreamText(EncodedFrames(texts));
    EncodedEvents(texts);
    EncodeGivesFrames(lib, false, TextObjects(texts), texts);
    assert text + Join([]) == text;
    StandardOfStream(EncodedFrames(texts), []);
  }
}
