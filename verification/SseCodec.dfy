/** The incremental event-stream codec: one `data:` frame per object, frames ended by an empty line. */
module SseCodec {
  import opened Sequences
  import opened Utf8
  import opened Strings

  /** Application objects: bytes and strings are treated specially, everything else is opaque. */
  datatype Object = BytesObject(data: Bytes) | Text(text: string) | Other(id: int)

  /** What `json.loads` does: a value, a decoding error, or some other exception. */
  datatype Loaded = Parsed(value: Object) | Malformed | Crashed

  /** The library calls the codec makes; `None` is an exception. */
  datatype Library = Library(dumps: Object -> Option<string>, loads: string -> Loaded, str: int -> Option<string>)

  /** What an async generator yields, and whether it ends by raising. */
  datatype Stream<T> = Stream(items: seq<T>, failed: bool)

  function Prepend<T>(items: seq<T>, s: Stream<T>): Stream<T> {
    s.(items := items + s.items)
  }

  lemma PrependSnoc<T>(items: seq<T>, x: T, s: Stream<T>)
    ensures Prepend(items, Prepend([x], s)) == Prepend(items + [x], s)
  {
    assert items + ([x] + s.items) == items + [x] + s.items;
  }

  function DataText(lib: Library, autoJson: bool, obj: Object): Option<string> {
    if obj.BytesObject? then Some(Decode(obj.data))
    else if autoJson then lib.dumps(obj)
    else if obj.Text? then Some(obj.text)
    else lib.str(obj.id)
  }

  function FrameBytes(data: string): Bytes {
    Encode("data: " + data + "\n\n")
  }

  function EncodeSpec(lib: Library, autoJson: bool, objs: seq<Object>): Stream<Bytes> {
    if objs == [] then Stream([], false)
    else
      match DataText(lib, autoJson, objs[0])
      case None => Stream([], true)
      case Some(data) => Prepend([FrameBytes(data)], EncodeSpec(lib, autoJson, objs[1..]))
  }

  method EncodeStream(lib: Library, autoJson: bool, objs: seq<Object>) returns (out: Stream<Bytes>)
    ensures out == EncodeSpec(lib, autoJson, objs)
  {
    hide DataText, FrameBytes;
    var frames: seq<Bytes> := [];
    assert objs[0..] == objs;
    for i := 0 to |objs|
      invariant EncodeSpec(lib, autoJson, objs) == Prepend(frames, EncodeSpec(lib, autoJson, objs[i..]))
    {
      assert objs[i..][1..] == objs[i + 1..];
      var data := DataText(lib, autoJson, objs[i]);
      if data.None? {
        return Stream(frames, true);
      }
      PrependSnoc(frames, FrameBytes(data.value), EncodeSpec(lib, autoJson, objs[i + 1..]));
      frames := frames + [FrameBytes(data.value)];
    }
    out := Stream(frames, false);
  }

  const PREFIX := "data:"

  /** The value of a line's `data:` field, less one leading space. */
  function FieldValue(line: string): Option<string> {
    var stripped := Strip(line);
    if PREFIX <= stripped then
      var value := stripped[5..];
      Some(if " " <= value then value[1..] else value)
    else None
  }

  function DataParts(lines: seq<string>): seq<string> {
    if lines == [] then []
    else (match FieldValue(lines[0]) case Some(v) => [v] case None => []) + DataParts(lines[1..])
  }

  /** The `data:` values of a frame on separate lines, or the whole frame when it has none. */
  function FrameText(text: string): string {
    var parts := DataParts(Lines(text));
    if parts != [] then Join(parts) else text
  }

  /** `None` when parsing raises. */
  function ParseFrame(lib: Library, autoJson: bool, raw: Bytes): Option<Object> {
    var data := FrameText(Decode(raw));
    if !autoJson then Some(Text(data))
    else
      match lib.loads(data)
      case Parsed(v) => Some(v)
      case Malformed => Some(Text(data))
      case Crashed => None
  }

  /** Where the first delimiter starts. */
  function Find(b: Bytes): (r: Option<nat>)
    ensures r.Some? ==> r.value + 2 <= |b| && b[r.value] == b[r.value + 1] == 10
    ensures forall j :: 0 <= j < (if r.Some? then r.value else |b| - 1) ==> !(b[j] == 10 && b[j + 1] == 10)
  {
    if |b| < 2 then None
    else if b[0] == 10 && b[1] == 10 then Some(0)
    else match Find(b[1..]) case Some(i) => Some(i + 1) case None => None
  }

  /** Batch meaning of a byte stream: cut at the leftmost delimiter, again and again; a rest that is
      not blank is a last frame. */
  function DecodeSpec(lib: Library, autoJson: bool, b: Bytes): Stream<Object>
    decreases |b|
  {
    match Find(b)
    case Some(i) =>
      (match ParseFrame(lib, autoJson, b[..i])
       case None => Stream([], true)
       case Some(obj) => Prepend([obj], DecodeSpec(lib, autoJson, b[i + 2..])))
    case None =>
      if Blank(b) then Stream([], false)
      else
        match ParseFrame(lib, autoJson, b)
        case None => Stream([], true)
        case Some(obj) => Stream([obj], false)
  }

  lemma FindUnique(b: Bytes, i: nat)
    requires i + 2 <= |b| && b[i] == b[i + 1] == 10
    requires forall j :: 0 <= j < i ==> !(b[j] == 10 && b[j + 1] == 10)
    ensures Find(b) == Some(i)
  {
  }

  /** What arrives later does not move a delimiter already found. */
  lemma FindIsStable(b: Bytes, later: Bytes)
    requires Find(b).Some?
    ensures Find(b + later) == Find(b)
  {
    var i := Find(b).value;
    assert forall j :: 0 <= j <= i + 1 ==> (b + later)[j] == b[j];
    FindUnique(b + later, i);
  }

  lemma CutOne(lib: Library, autoJson: bool, buffer: Bytes, later: Bytes, i: nat)
    requires Find(buffer) == Some(i)
    ensures DecodeSpec(lib, autoJson, buffer + later) ==
      match ParseFrame(lib, autoJson, buffer[..i])
      case None => Stream([], true)
      case Some(obj) => Prepend([obj], DecodeSpec(lib, autoJson, buffer[i + 2..] + later))
  {
    hide ParseFrame, Blank;
    FindIsStable(buffer, later);
    assert (buffer + later)[..i] == buffer[..i];
    assert (buffer + later)[i + 2..] == buffer[i + 2..] + later;
  }

  lemma LastFrame(lib: Library, autoJson: bool, b: Bytes)
    requires Find(b).None?
    ensures DecodeSpec(lib, autoJson, b) ==
      if Blank(b) then Stream([], false)
      else
        match ParseFrame(lib, autoJson, b)
        case None => Stream([], true)
        case Some(obj) => Stream([obj], false)
  {
  }

  /** However the bytes are cut into chunks, the decoder yields what the whole byte sequence means. */
  method DecodeStream(lib: Library, autoJson: bool, chunks: seq<Bytes>) returns (out: Stream<Object>)
    ensures out == DecodeSpec(lib, autoJson, Flatten(chunks))
  {
    hide ParseFrame, Blank, DecodeSpec, Find;
    var buffer: Bytes := [];
    var items: seq<Object> := [];
    ghost var whole := DecodeSpec(lib, autoJson, Flatten(chunks));
    assert chunks[0..] == chunks && [] + Flatten(chunks) == Flatten(chunks);
    for c := 0 to |chunks|
      invariant whole == Prepend(items, DecodeSpec(lib, autoJson, buffer + Flatten(chunks[c..])))
      invariant Find(buffer).None?
    {
      ghost var later := Flatten(chunks[c + 1..]);
      assert chunks[c..][1..] == chunks[c + 1..];
      assert buffer + Flatten(chunks[c..]) == (buffer + chunks[c]) + later;
      buffer := buffer + chunks[c];
      while Find(buffer).Some?
        invariant whole == Prepend(items, DecodeSpec(lib, autoJson, buffer + later))
        decreases |buffer|
      {
        var i := Find(buffer).value;
        CutOne(lib, autoJson, buffer, later, i);
        var obj := ParseFrame(lib, autoJson, buffer[..i]);
        buffer := buffer[i + 2..];
        if obj.None? {
          return Stream(items, true);
        }
        PrependSnoc(items, obj.value, DecodeSpec(lib, autoJson, buffer + later));
        items := items + [obj.value];
      }
    }
    assert buffer + Flatten(chunks[|chunks|..]) == buffer;
    LastFrame(lib, autoJson, buffer);
    if !Blank(buffer) {
      var obj := ParseFrame(lib, autoJson, buffer);
      if obj.None? {
        return Stream(items, true);
      }
      items := items + [obj.value];
    }
    out := Stream(items, false);
  }

  // ---------- The rest after the last frame ----------

  lemma PrependTwice<T>(a: seq<T>, b: seq<T>, s: Stream<T>)
    ensures Prepend(a, Prepend(b, s)) == Prepend(a + b, s)
  {
    assert a + (b + s.items) == a + b + s.items;
  }

  /** A byte stream of complete frames, each with its delimiter. */
  predicate Complete(b: Bytes)
    decreases |b|
  {
    b == [] || (Find(b).Some? && Complete(b[Find(b).value + 2..]))
  }

  predicate NoDelimiter(b: Bytes) {
    forall j :: 0 <= j < |b| - 1 ==> !(b[j] == 10 && b[j + 1] == 10)
  }

  lemma {:induction false} FramesThenRest(lib: Library, autoJson: bool, b: Bytes, rest: Bytes)
    requires Complete(b)
    ensures var out := DecodeSpec(lib, autoJson, b);
      DecodeSpec(lib, autoJson, b + rest) == if out.failed then out else Prepend(out.items, DecodeSpec(lib, autoJson, rest))
    decreases |b|
  {
    hide ParseFrame, Find, DecodeSpec;
    if b == [] {
      LastFrame(lib, autoJson, b);
      assert b + rest == rest && Prepend([], DecodeSpec(lib, autoJson, rest)) == DecodeSpec(lib, autoJson, rest);
    } else {
      var i := Find(b).value;
      var later := b[i + 2..];
      CutOne(lib, autoJson, b, rest, i);
      CutOne(lib, autoJson, b, [], i);
      assert b + [] == b && later + [] == later;
      FramesThenRest(lib, autoJson, later, rest);
      var obj := ParseFrame(lib, autoJson, b[..i]);
      if obj.Some? {
        PrependTwice([obj.value], DecodeSpec(lib, autoJson, later).items, DecodeSpec(lib, autoJson, rest));
      }
    }
  }

  /** What follows the last delimiter is dropped exactly when it consists of tabs, line ends and blanks;
      anything else is one more frame, which yields one more object or a failure. */
  lemma RestIsDroppedExactly(lib: Library, autoJson: bool, b: Bytes, rest: Bytes)
    requires Complete(b) && NoDelimiter(rest) && !DecodeSpec(lib, autoJson, b).failed
    ensures var out, out' := DecodeSpec(lib, autoJson, b), DecodeSpec(lib, autoJson, b + rest);
      if forall x :: x in rest ==> x in [9, 10, 11, 12, 13, 32] then out' == out
      else
        && out.items <= out'.items
        && |out'.items| == |out.items| + (if out'.failed then 0 else 1)
  {
    hide Find, ParseFrame, DecodeSpec;
    FramesThenRest(lib, autoJson, b, rest);
    assert Find(rest).None?;
    LastFrame(lib, autoJson, rest);
    assert DecodeSpec(lib, autoJson, b).items + [] == DecodeSpec(lib, autoJson, b).items;
  }

  // ---------- Round trips ----------

  /** No delimiter occurs in `s`, nor one that starts in `s` when another delimiter follows. */
  predicate OneFrame(s: string) {
    s == "" || ((s[0] == '\n' ==> |s| > 1 && s[1] != '\n') && OneFrame(s[1..]))
  }

  lemma {:induction false} NoNewlineOneFrame(s: string)
    requires '\n' !in s
    ensures OneFrame(s)
  {
    if s != "" {
      NoNewlineOneFrame(s[1..]);
    }
  }

  lemma FindShifts(head: Bytes, b: Bytes, i: nat)
    requires Find(b) == Some(i)
    requires forall x :: x in head ==> x != 10
    ensures Find(head + b) == Some(|head| + i)
  {
    var all := head + b;
    forall j | 0 <= j < |head| + i ensures !(all[j] == 10 && all[j + 1] == 10) {
      if j < |head| {
        assert all[j] in head;
      } else {
        assert all[j] == b[j - |head|] && all[j + 1] == b[j + 1 - |head|];
      }
    }
    FindUnique(all, |head| + i);
  }

  lemma FindPastNewline(b: Bytes, i: nat)
    requires Find(b) == Some(i) && b[0] != 10
    ensures Find([10] + b) == Some(i + 1)
  {
    assert ([10] + b)[1..] == b;
  }

  /** On encoded text the first delimiter byte pair is the encoding of the first delimiter. */
  lemma {:induction false} FindInEncoded(s: string, later: Bytes)
    requires OneFrame(s)
    ensures Find(Encode(s) + ([10, 10] + later)) == Some(|Encode(s)|)
  {
    hide Find, EncodeChar;
    var tail := [10, 10] + later;
    if s == "" {
      FindUnique(tail, 0);
      assert Encode(s) + tail == tail;
    } else {
      var head, rest := EncodeChar(s[0]), Encode(s[1..]) + tail;
      FindInEncoded(s[1..], later);
      assert Encode(s) + tail == head + rest;
      if s[0] == '\n' {
        assert Encode(s[1..]) == EncodeChar(s[1]) + Encode(s[1..][1..]);
        assert rest[0] == EncodeChar(s[1])[0] != 10;
        FindPastNewline(rest, |Encode(s[1..])|);
      } else {
        FindShifts(head, rest, |Encode(s[1..])|);
      }
    }
  }

  /** Decoding the bytes of one frame and what follows takes the frame off the front. */
  lemma DecodeOneFrame(lib: Library, autoJson: bool, s: string, later: Bytes)
    requires OneFrame(s)
    ensures var text := FrameText(s);
      DecodeSpec(lib, autoJson, Encode(s + "\n\n") + later) ==
        if !autoJson then Prepend([Text(text)], DecodeSpec(lib, autoJson, later))
        else match lib.loads(text)
             case Parsed(v) => Prepend([v], DecodeSpec(lib, autoJson, later))
             case Malformed => Prepend([Text(text)], DecodeSpec(lib, autoJson, later))
             case Crashed => Stream([], true)
  {
    var b := Encode(s) + ([10, 10] + later);
    EncodeConcat(s, "\n\n");
    assert Encode("\n\n") == [10, 10] by {
      assert "\n\n"[1..] == "\n" && "\n"[1..] == "";
    }
    assert Encode(s + "\n\n") + later == b;
    FindInEncoded(s, later);
    assert b[..|Encode(s)|] == Encode(s);
    assert b[|Encode(s)| + 2..] == later;
    RoundTrip(s);
  }

  /** Texts that survive: one line, not ending in white space. */
  predicate Clean(t: string) {
    '\n' !in t && (t == "" || !IsSpace(t[|t| - 1]))
  }

  lemma CleanFrameText(t: string)
    requires Clean(t)
    ensures OneFrame("data: " + t) && FrameText("data: " + t) == t
  {
    var s := "data: " + t;
    assert '\n' !in s;
    NoNewlineOneFrame(s);
    SingleLine(s);
    assert StripLeft(s) == s;
    if t == "" {
      assert s == "data: " && s[..5] == "data:";
      assert StripRight("data:") == "data:";
      assert Strip(s) == "data:";
    } else {
      assert s[|s| - 1] == t[|t| - 1];
      assert s[..5] == "data:" && s[5..] == " " + t && (" " + t)[1..] == t;
    }
    assert FieldValue(s) == Some(t);
    assert DataParts([s]) == [t];
  }

  /** All the frames of a list of data texts. */
  function FramesOf(texts: seq<string>): Bytes {
    if texts == [] then [] else FrameBytes(texts[0]) + FramesOf(texts[1..])
  }

  lemma {:induction false} EncodeGivesFrames(lib: Library, autoJson: bool, objs: seq<Object>, texts: seq<string>)
    requires |texts| == |objs| && forall i :: 0 <= i < |objs| ==> DataText(lib, autoJson, objs[i]) == Some(texts[i])
    ensures !EncodeSpec(lib, autoJson, objs).failed
    ensures Flatten(EncodeSpec(lib, autoJson, objs).items) == FramesOf(texts)
  {
    if objs != [] {
      EncodeGivesFrames(lib, autoJson, objs[1..], texts[1..]);
      var rest := EncodeSpec(lib, autoJson, objs[1..]).items;
      assert ([FrameBytes(texts[0])] + rest)[1..] == rest;
    }
  }

  /** What `json.dumps` gives for an object, or for bytes the text they decode to. */
  predicate JsonText(lib: Library, obj: Object, text: string) {
    if obj.BytesObject? then text == Decode(obj.data) else lib.dumps(obj) == Some(text)
  }

  /** Auto-JSON: the frames of texts that parse to objects, and are single lines without white space at
      their ends, decode to those objects. */
  lemma {:induction false} JsonRoundTrip(lib: Library, objs: seq<Object>, texts: seq<string>)
    requires |texts| == |objs|
    requires forall i :: 0 <= i < |objs| ==> Clean(texts[i]) && lib.loads(texts[i]) == Parsed(objs[i])
    ensures DecodeSpec(lib, true, FramesOf(texts)) == Stream(objs, false)
  {
    if objs != [] {
      JsonRoundTrip(lib, objs[1..], texts[1..]);
      CleanFrameText(texts[0]);
      DecodeOneFrame(lib, true, "data: " + texts[0], FramesOf(texts[1..]));
      assert [objs[0]] + objs[1..] == objs;
    }
  }

  /** From encoder to decoder over any cut of the encoded stream into chunks: objects whose JSON text
      parses back and is such a line are returned. */
  lemma JsonRoundTripAnyChunks(lib: Library, objs: seq<Object>, texts: seq<string>, chunks: seq<Bytes>)
    requires |texts| == |objs|
    requires forall i :: 0 <= i < |objs| ==>
      JsonText(lib, objs[i], texts[i]) && Clean(texts[i]) && lib.loads(texts[i]) == Parsed(objs[i])
    requires Flatten(chunks) == Flatten(EncodeSpec(lib, true, objs).items)
    ensures !EncodeSpec(lib, true, objs).failed
    ensures DecodeSpec(lib, true, Flatten(chunks)) == Stream(objs, false)
  {
    EncodeGivesFrames(lib, true, objs, texts);
    JsonRoundTrip(lib, objs, texts);
  }

  /** The library call that encoding needs fails for this object. */
  predicate Unencodable(lib: Library, autoJson: bool, obj: Object) {
    match obj
    case BytesObject(_) => false
    case Text(_) => autoJson && lib.dumps(obj).None?
    case Other(id) => if autoJson then lib.dumps(obj).None? else lib.str(id).None?
  }

  /** One frame for every object before the first that cannot be encoded, which ends the stream. */
  lemma {:induction false} EncodeStopsAtFailure(lib: Library, autoJson: bool, objs: seq<Object>)
    ensures var out := EncodeSpec(lib, autoJson, objs);
      && |out.items| <= |objs|
      && (forall i :: 0 <= i < |out.items| ==> !Unencodable(lib, autoJson, objs[i]))
      && (out.failed <==> |out.items| < |objs|)
      && (out.failed ==> Unencodable(lib, autoJson, objs[|out.items|]))
  {
    if objs != [] {
      EncodeStopsAtFailure(lib, autoJson, objs[1..]);
      assert forall i :: 0 < i < |objs| ==> objs[1..][i - 1] == objs[i];
    }
  }

  // ---------- Plain text: exactly which texts survive ----------

  lemma {:induction false} PartsAreLighter(lines: seq<string>)
    ensures Weight(DataParts(lines)) <= Weight(lines)
    ensures lines != [] ==> Weight(DataParts(lines)) < Weight(lines)
  {
    if lines != [] {
      PartsAreLighter(lines[1..]);
      var head := match FieldValue(lines[0]) case Some(v) => [v] case None => [];
      assert DataParts(lines) == head + DataParts(lines[1..]);
      if head != [] {
        assert (head + DataParts(lines[1..]))[1..] == DataParts(lines[1..]);
      } else {
        assert head + DataParts(lines[1..]) == DataParts(lines[1..]);
      }
    }
  }

  /** The first line of a frame loses the prefix, and more if it ends in white space. */
  lemma FirstFieldValue(l: string)
    ensures FieldValue("data: " + l).Some?
    ensures |FieldValue("data: " + l).value| <= |l|
    ensures l != "" && IsSpace(l[|l| - 1]) ==> |FieldValue("data: " + l).value| < |l|
  {
    var s := "data: " + l;
    assert StripLeft(s) == s;
    var r := StripRight(s);
    assert s[..5] == "data:";
    PrefixSurvives(s);
    assert r[..5] == s[..5];
    if |r| > 5 {
      assert r[5] == s[5] == ' ';
      assert r[5..][0] == ' ';
    }
    if l != "" {
      assert s[|s| - 1] == l[|l| - 1];
    }
  }

  lemma {:induction false} PrefixSurvives(s: string)
    requires |s| >= 5 && s[4] == ':'
    ensures |StripRight(s)| >= 5
  {
    if IsSpace(s[|s| - 1]) {
      PrefixSurvives(s[..|s| - 1]);
    }
  }

  /** A frame whose text has a line break, or ends in white space, yields something shorter. */
  lemma DirtyFrameText(t: string)
    requires t != "" && ('\n' in t || IsSpace(t[|t| - 1]))
    ensures |FrameText("data: " + t)| < |t|
  {
    hide FieldValue, IsSpace;
    var s := "data: " + t;
    var lines := Lines(t);
    FirstLine("data: ", t);
    FirstFieldValue(lines[0]);
    var v := FieldValue("data: " + lines[0]).value;
    var parts := DataParts(Lines(s));
    var tail := DataParts(lines[1..]);
    assert ([("data: " + lines[0])] + lines[1..])[1..] == lines[1..];
    assert parts == [v] + tail && parts[1..] == tail;
    PartsAreLighter(lines[1..]);
    WeightOfLines(t);
    WeightOfJoin(parts);
    if '\n' in t {
      SeveralLines(t);
    } else {
      SingleLine(t);
    }
  }

  /** Where the frame of a text ends: at the first line break that another one follows. */
  lemma {:induction false} CutDirty(t: string) returns (q: nat, more: string)
    requires !OneFrame(t)
    ensures q < |t| && t[q] == '\n' && OneFrame(t[..q]) && t + "\n\n" == t[..q] + "\n\n" + more
  {
    if t[0] == '\n' && (|t| == 1 || t[1] == '\n') {
      q := 0;
      more := if |t| == 1 then "\n" else t[2..] + "\n\n";
      assert |t| == 1 ==> t + "\n\n" == "\n\n" + more;
      assert |t| > 1 ==> t + "\n\n" == "\n\n" + more;
      assert t[..0] + "\n\n" + more == "\n\n" + more;
    } else {
      var q', more' := CutDirty(t[1..]);
      q, more := q' + 1, more';
      assert t[..q][1..] == t[1..][..q'];
      assert t + "\n\n" == [t[0]] + (t[1..] + "\n\n") && t[..q] == [t[0]] + t[1..][..q'];
      assert t[..q] + "\n\n" + more == [t[0]] + (t[1..][..q'] + "\n\n" + more);
      assert q > 1 ==> t[..q][1] == t[1];
    }
  }

  /** A text that is not clean comes back as something shorter, whatever is sent after it. */
  lemma DirtyComesBackShorter(lib: Library, t: string, later: Bytes)
    requires !Clean(t)
    ensures var out := DecodeSpec(lib, false, FrameBytes(t) + later).items;
      out != [] && out[0].Text? && |out[0].text| < |t|
  {
    var s := "data: " + t;
    if OneFrame(s) {
      DecodeOneFrame(lib, false, s, later);
      DirtyFrameText(t);
    } else {
      var q, more := CutDirty(s);
      var u := s[6..q];
      assert q >= 6 by {
        assert s[q] == '\n' && forall j :: 0 <= j < 6 ==> s[j] == "data: "[j];
      }
      assert s[..q] == "data: " + u && u == t[..q - 6];
      EncodeConcat(s[..q] + "\n\n", more);
      assert FrameBytes(t) + later == Encode(s[..q] + "\n\n") + (Encode(more) + later);
      DecodeOneFrame(lib, false, s[..q], Encode(more) + later);
      FrameTextNoLonger(u);
    }
  }

  lemma FrameTextNoLonger(u: string)
    ensures |FrameText("data: " + u)| <= |u|
  {
    if Clean(u) {
      CleanFrameText(u);
    } else {
      DirtyFrameText(u);
    }
  }

  function TextObjects(texts: seq<string>): (r: seq<Object>)
    ensures |r| == |texts| && forall i :: 0 <= i < |r| ==> r[i] == Text(texts[i])
  {
    if texts == [] then [] else [Text(texts[0])] + TextObjects(texts[1..])
  }

  lemma {:induction false} FramesSurviveExactly(lib: Library, texts: seq<string>)
    ensures (DecodeSpec(lib, false, FramesOf(texts)) == Stream(TextObjects(texts), false)) <==> (forall t :: t in texts ==> Clean(t))
  {
    if texts != [] {
      var t, later := texts[0], FramesOf(texts[1..]);
      FramesSurviveExactly(lib, texts[1..]);
      if Clean(t) {
        CleanFrameText(t);
        DecodeOneFrame(lib, false, "data: " + t, later);
        assert ([Text(t)] + DecodeSpec(lib, false, later).items)[1..] == DecodeSpec(lib, false, later).items;
        assert TextObjects(texts)[1..] == TextObjects(texts[1..]);
        assert forall x :: x in texts <==> x == t || x in texts[1..];
      } else {
        DirtyComesBackShorter(lib, t, later);
      }
    }
  }

  /** Without JSON, a list of strings survives encoding and decoding exactly when each of them is one
      line that does not end in white space. */
  lemma TextRoundTripExactly(lib: Library, texts: seq<string>)
    ensures var sent := EncodeSpec(lib, false, TextObjects(texts));
      && !sent.failed
      && (DecodeSpec(lib, false, Flatten(sent.items)) == Stream(TextObjects(texts), false) <==> forall t :: t in texts ==> Clean(t))
  {
    EncodeGivesFrames(lib, false, TextObjects(texts), texts);
    FramesSurviveExactly(lib, texts);
  }

  function BytesObjects(datas: seq<Bytes>): (r: seq<Object>)
    ensures |r| == |datas| && forall i :: 0 <= i < |r| ==> r[i] == BytesObject(datas[i])
  {
    seq(|datas|, i requires 0 <= i < |datas| => BytesObject(datas[i]))
  }

  /** Bytes are sent as the text they decode to, with JSON or without, whatever the library does; so
      the UTF-8 bytes of strings come back as those strings exactly when the strings would. */
  lemma BytesTravelAsText(lib: Library, autoJson: bool, datas: seq<Bytes>, texts: seq<string>)
    requires |datas| == |texts| && forall i :: 0 <= i < |datas| ==> datas[i] == Encode(texts[i])
    ensures var sent := EncodeSpec(lib, autoJson, BytesObjects(datas));
      && !sent.failed && Flatten(sent.items) == Flatten(EncodeSpec(lib, false, TextObjects(texts)).items)
      && (DecodeSpec(lib, false, Flatten(sent.items)) == Stream(TextObjects(texts), false) <==> forall t :: t in texts ==> Clean(t))
  {
    forall i | 0 <= i < |datas| ensures Decode(datas[i]) == texts[i] {
      RoundTrip(texts[i]);
    }
    EncodeGivesFrames(lib, autoJson, BytesObjects(datas), texts);
    EncodeGivesFrames(lib, false, TextObjects(texts), texts);
    FramesSurviveExactly(lib, texts);
  }
}
