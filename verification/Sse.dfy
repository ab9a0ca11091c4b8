/**
 The text framer for server-sent events: line ends are normalised per chunk, frames end at a blank
 line, and the `data:` lines of a frame are joined into one JSON payload.
 */
module Sse {
  import opened Common
  import opened Framing
  import opened Framers
  import opened Json
  import opened StreamTask

  const MAX_BUFFER_BYTES: nat := 1_048_576
  const OVERFLOW := "SSE frame buffer exceeded 1048576 bytes"

  /** Library functions on text. */
  datatype Text = Text(
    lossy: seq<byte> -> string,
    utf8Len: string -> nat,
    isSpace: char -> bool,
    json: string -> Option<Value>)
  {
    /** On ASCII, lossy decoding is the identity on code points. */
    ghost predicate AsciiExact() {
      forall b: seq<byte> {:trigger lossy(b)} :: Ascii(b) ==> lossy(b) == AsciiText(b)
    }
  }

  predicate Ascii(b: seq<byte>) {
    forall i | 0 <= i < |b| :: b[i] < 128
  }

  function AsciiText(b: seq<byte>): string {
    seq(|b|, i requires 0 <= i < |b| => b[i] as char)
  }

  // ---------------------------------------------------------------- line ends

  function DropCrBeforeLf(s: string): string {
    if s == [] then []
    else if |s| >= 2 && s[0] == '\r' && s[1] == '\n' then ['\n'] + DropCrBeforeLf(s[2..])
    else [s[0]] + DropCrBeforeLf(s[1..])
  }

  function CrToLf(s: string): string {
    seq(|s|, i requires 0 <= i < |s| => if s[i] == '\r' then '\n' else s[i])
  }

  /** `\r\n` and then a lone `\r` become `\n`. */
  function Normalise(s: string): string {
    CrToLf(DropCrBeforeLf(s))
  }

  predicate SplitsCrLf(a: string, b: string) {
    a != [] && b != [] && a[|a| - 1] == '\r' && b[0] == '\n'
  }

  /** Normalising two pieces apart agrees with normalising them together exactly when the cut does not
      fall inside a `\r\n` pair; otherwise one extra line end appears. */
  lemma NormaliseApart(a: string, b: string)
    ensures Normalise(a) + Normalise(b) == Normalise(a + b) <==> !SplitsCrLf(a, b)
    ensures |Normalise(a) + Normalise(b)| == |Normalise(a + b)| + (if SplitsCrLf(a, b) then 1 else 0)
  {
    DropApart(a, b);
    if !SplitsCrLf(a, b) {
      assert CrToLf(DropCrBeforeLf(a)) + CrToLf(DropCrBeforeLf(b)) == CrToLf(DropCrBeforeLf(a) + DropCrBeforeLf(b));
    }
  }

  lemma {:induction false} DropApart(a: string, b: string)
    ensures !SplitsCrLf(a, b) ==> DropCrBeforeLf(a + b) == DropCrBeforeLf(a) + DropCrBeforeLf(b)
    ensures |DropCrBeforeLf(a)| + |DropCrBeforeLf(b)| == |DropCrBeforeLf(a + b)| + (if SplitsCrLf(a, b) then 1 else 0)
    decreases |a|
  {
    if a == [] {
      assert a + b == b;
    } else if |a| >= 2 && a[0] == '\r' && a[1] == '\n' {
      assert (a + b)[2..] == a[2..] + b;
      DropApart(a[2..], b);
      Assoc(['\n'], DropCrBeforeLf(a[2..]), DropCrBeforeLf(b));
    } else if |a| == 1 {
      assert (a + b)[1..] == b && a[1..] == [];
      if SplitsCrLf(a, b) {
        assert (a + b)[2..] == b[1..];
      }
    } else {
      assert (a + b)[1..] == a[1..] + b;
      DropApart(a[1..], b);
      Assoc([a[0]], DropCrBeforeLf(a[1..]), DropCrBeforeLf(b));
    }
  }

  // ---------------------------------------------------------------- one frame

  function IndexOf(s: string, c: char): (i: nat)
    ensures i <= |s| && (i < |s| ==> s[i] == c)
    ensures forall j | 0 <= j < i :: s[j] != c
  {
    if s == [] then 0 else if s[0] == c then 0 else 1 + IndexOf(s[1..], c)
  }

  function StripCr(line: string): string {
    if line != [] && line[|line| - 1] == '\r' then line[..|line| - 1] else line
  }

  /** `str::lines`. */
  function Lines(s: string): seq<string>
    decreases |s|
  {
    if s == [] then []
    else
      var i := IndexOf(s, '\n');
      if i == |s| then [s] else [StripCr(s[..i])] + Lines(s[i + 1..])
  }

  function StripPrefix(s: string, prefix: string): Option<string> {
    if prefix <= s then Some(s[|prefix|..]) else None
  }

  function Field(line: string, name: string): Option<string> {
    match StripPrefix(line, name)
    case None => None
    case Some(rest) =>
      match StripPrefix(rest, ":")
      case None => None
      case Some(value) => Some(if " " <= value then value[1..] else value)
  }

  datatype Fields = Fields(event: Option<string>, data: seq<string>)

  function TakeLine(f: Fields, line: string): Fields {
    if line == [] || line[0] == ':' then f
    else
      match Field(line, "event")
      case Some(value) => f.(event := Some(value))
      case None =>
        match Field(line, "data")
        case Some(value) => f.(data := f.data + [value])
        case None => f
  }

  function TakeLines(f: Fields, lines: seq<string>): Fields
    decreases |lines|
  {
    if lines == [] then f else TakeLines(TakeLine(f, lines[0]), lines[1..])
  }

  function Join(lines: seq<string>): string {
    if lines == [] then "" else if |lines| == 1 then lines[0] else lines[0] + "\n" + Join(lines[1..])
  }

  function TrimStart(t: Text, s: string): string {
    if s != [] && t.isSpace(s[0]) then TrimStart(t, s[1..]) else s
  }

  function TrimEnd(t: Text, s: string): string {
    if s != [] && t.isSpace(s[|s| - 1]) then TrimEnd(t, s[..|s| - 1]) else s
  }

  function Trim(t: Text, s: string): string { TrimEnd(t, TrimStart(t, s)) }

  function StreamErrorMessage(v: Value): Option<string> {
    match Get(v, "error")
    case None => None
    case Some(error) =>
      var direct, nested, outer := AsStr(Some(error)), AsStr(Get(error, "message")), AsStr(Get(v, "message"));
      if direct.Some? then direct else if nested.Some? then nested else if outer.Some? then outer
      else Some("upstream stream error")
  }

  /** The payload of a frame, once its fields are known. */
  function Interpret(t: Text, f: Fields): Result<Option<Value>> {
    if f.data == [] then Ok(None)
    else
      var data := Trim(t, Join(f.data));
      if data == [] || data == "[DONE]" then Ok(None)
      else
        match t.json(data)
        case None => Err("malformed SSE JSON frame")
        case Some(value) =>
          var message := StreamErrorMessage(value);
          if f.event == Some("error") then Err(if message.Some? then message.value else "upstream stream error event")
          else if message.Some? then Err(message.value)
          else Ok(Some(value))
  }

  function FrameValue(t: Text, frame: string): Result<Option<Value>> {
    Interpret(t, TakeLines(Fields(None, []), Lines(frame)))
  }

  method ParseSseFrame(t: Text, frame: string) returns (r: Result<Option<Value>>)
    ensures r == FrameValue(t, frame)
  {
    var fields := Fields(None, []);
    var lines := Lines(frame);
    var i := 0;
    assert lines[0..] == lines;
    while i < |lines|
      invariant 0 <= i <= |lines|
      invariant TakeLines(fields, lines[i..]) == TakeLines(Fields(None, []), lines)
    {
      assert lines[i..][1..] == lines[i + 1..];
      fields := TakeLine(fields, lines[i]);
      i := i + 1;
    }
    return Interpret(t, fields);
  }

  // ---------------------------------------------------------------- the framer

  predicate BlankAt(s: string, i: nat) {
    i + 1 < |s| && s[i] == '\n' && s[i + 1] == '\n'
  }

  /** The first blank line, or the length of the text. */
  function FindBlank(s: string): (i: nat)
    ensures i <= |s|
    ensures i < |s| ==> BlankAt(s, i)
    ensures forall j: nat | j < i :: !BlankAt(s, j)
  {
    if |s| < 2 then |s| else if BlankAt(s, 0) then 0
    else
      var i := FindBlank(s[1..]);
      assert forall j: nat | 0 < j && BlankAt(s, j) :: BlankAt(s[1..], j - 1);
      1 + i
  }

  function SseStep(t: Text, buffer: string): (r: Step<Option<Value>, string>)
    ensures r.Good? ==> 0 < r.size <= |buffer|
  {
    var i := FindBlank(buffer);
    if i == |buffer| then NeedMore
    else
      match FrameValue(t, buffer[..i + 2])
      case Err(e) => Bad(e)
      case Ok(value) => Good(value, i + 2)
  }

  function SseParser(t: Text): (f: string -> Step<Option<Value>, string>)
    ensures Bounded(f)
  {
    (buffer: string) => SseStep(t, buffer)
  }

  function SseFramerOf(t: Text): (f: Framer<char, Value, string>)
    ensures Bounded(f.parse)
  {
    Framer((bytes: seq<byte>) => Normalise(t.lossy(bytes)), SseParser(t),
           (buffer: string) => t.utf8Len(buffer) <= MAX_BUFFER_BYTES, OVERFLOW)
  }

  lemma FindBlankUnique(s: string, i: nat)
    requires BlankAt(s, i) && forall j: nat | j < i :: !BlankAt(s, j)
    ensures FindBlank(s) == i
  {
  }

  lemma SseStable(t: Text, s: string, more: string)
    requires !SseStep(t, s).NeedMore?
    ensures SseStep(t, s + more) == SseStep(t, s)
  {
    var i := FindBlank(s);
    assert forall j: nat | j <= i :: BlankAt(s + more, j) == BlankAt(s, j);
    FindBlankUnique(s + more, i);
    assert (s + more)[..i + 2] == s[..i + 2];
  }

  lemma SsePrompt(t: Text, s: string)
    requires SseStep(t, s).Good?
    ensures SseStep(t, s[..SseStep(t, s).size]) == SseStep(t, s)
  {
    var i := FindBlank(s);
    var u := s[..i + 2];
    assert forall j: nat | j <= i :: BlankAt(u, j) == BlankAt(s, j);
    FindBlankUnique(u, i);
    assert u[..i + 2] == u;
  }

  lemma SseIncremental(t: Text)
    ensures Incremental(SseParser(t)) && SseParser(t)([]).NeedMore?
  {
    forall s: string, more: string
      ensures StableAt(SseParser(t), s, more)
    {
      if !SseStep(t, s).NeedMore? {
        SseStable(t, s, more);
      }
    }
    forall s: string
      ensures PromptAt(SseParser(t), s)
    {
      if SseStep(t, s).Good? {
        SsePrompt(t, s);
      }
    }
  }

  class SseFramer {
    var buffer: string

    constructor ()
      ensures buffer == []
    {
      buffer := [];
    }

    /** The body of the loop: drain and parse the first whole frame, if there is one. */
    method NextFrame(t: Text) returns (r: Step<Option<Value>, string>)
      modifies this
      ensures r == SseParser(t)(old(buffer))
      ensures r.NeedMore? ==> buffer == old(buffer)
      ensures r.Good? ==> r.size <= |old(buffer)| && buffer == old(buffer)[r.size..]
      ensures !r.NeedMore? ==> |buffer| < |old(buffer)|
    {
      var i := FindBlank(buffer);
      if i == |buffer| {
        return NeedMore;
      }
      var value := ParseSseFrame(t, buffer[..i + 2]);
      buffer := buffer[i + 2..];
      return match value case Err(e) => Bad(e) case Ok(v) => Good(v, i + 2);
    }

    method Drain(t: Text) returns (r: PushResult<Value, string>)
      modifies this
      ensures var s := ScanAll(SseParser(t), old(buffer));
              if s.status.Waiting? then r == Values(Present(s.frames)) && buffer == old(buffer)[s.used..]
              else r == PushError(s.status.error)
    {
      ghost var input, parse := buffer, SseParser(t);
      ghost var position := 0;
      var frames: seq<Option<Value>> := [];
      AfterNothing(ScanAll(parse, input));
      while true
        invariant 0 <= position <= |input|
        invariant buffer == input[position..]
        invariant ScanAll(parse, input) == ScanAll(parse, buffer).After(frames, position)
        decreases |buffer|
      {
        LoopTurn(parse, input, position, buffer, frames);
        var step := NextFrame(t);
        match step {
          case NeedMore =>
            return Values(Present(frames));
          case Bad(e) =>
            return PushError(e);
          case Good(value, size) =>
            frames := frames + [value];
            position := position + size;
        }
      }
    }

    method Push(t: Text, bytes: seq<byte>) returns (r: PushResult<Value, string>)
      modifies this
      ensures r == PushBytes(SseFramerOf(t), old(buffer), bytes).result
      ensures r.Values? ==> buffer == PushBytes(SseFramerOf(t), old(buffer), bytes).buffer
    {
      buffer := buffer + Normalise(t.lossy(bytes));
      if t.utf8Len(buffer) > MAX_BUFFER_BYTES {
        return PushError(OVERFLOW);
      }
      r := Drain(t);
    }
  }

  // ---------------------------------------------------------------- chunking

  function NormaliseEach(chunks: seq<string>): string {
    if chunks == [] then [] else Normalise(chunks[0]) + NormaliseEach(chunks[1..])
  }

  /** How many chunk boundaries fall inside a `\r\n` pair. */
  function SplitPairs(chunks: seq<string>): nat {
    if chunks == [] then 0
    else (if SplitsCrLf(chunks[0], Concat(chunks[1..])) then 1 else 0) + SplitPairs(chunks[1..])
  }

  /** The framer sees the normalised text of the whole stream if and only if no chunk boundary falls
      inside a `\r\n` pair; each one that does adds a line end. */
  lemma {:induction false} NormalisingChunks(chunks: seq<string>)
    ensures NormaliseEach(chunks) == Normalise(Concat(chunks)) <==> SplitPairs(chunks) == 0
    ensures |NormaliseEach(chunks)| == |Normalise(Concat(chunks))| + SplitPairs(chunks)
    decreases |chunks|
  {
    if chunks != [] {
      NormalisingChunks(chunks[1..]);
      NormaliseApart(chunks[0], Concat(chunks[1..]));
    }
  }

  // ---------------------------------------------------------------- a split pair changes the output

  const ERROR_LINE := "event: error"

  /** ASCII text as bytes; anything else becomes a question mark. */
  function AsBytes(s: string): seq<byte> {
    seq(|s|, i requires 0 <= i < |s| => if s[i] < 128 as char then s[i] as int else 63)
  }

  lemma AsBytesExact(t: Text, s: string)
    requires t.AsciiExact() && forall i | 0 <= i < |s| :: s[i] < 128 as char
    ensures t.lossy(AsBytes(s)) == s
  {
    assert Ascii(AsBytes(s));
    assert AsciiText(AsBytes(s)) == s;
  }

  lemma {:induction false} DropWithoutCr(s: string)
    requires '\r' !in s
    ensures DropCrBeforeLf(s) == s
    decreases |s|
  {
    if s != [] {
      assert s == [s[0]] + s[1..];
      DropWithoutCr(s[1..]);
    }
  }

  lemma NormaliseWithoutCr(s: string)
    requires '\r' !in s
    ensures Normalise(s) == s
  {
    DropWithoutCr(s);
  }

  lemma NormalisePair(rest: string)
    requires '\r' !in rest
    ensures Normalise("\r\n" + rest) == "\n" + rest
    ensures Normalise("\r") == "\n"
  {
    DropWithoutCr(rest);
    var s := "\r\n" + rest;
    assert s[0] == '\r' && s[1] == '\n' && s[2..] == rest;
    assert DropCrBeforeLf(s) == ['\n'] + rest;
    assert DropCrBeforeLf("\r") == "\r";
  }

  /** A line ended by a pair, in one piece and cut inside the pair. */
  lemma NormaliseLine(line: string, rest: string)
    requires '\r' !in line && '\r' !in rest
    ensures Normalise(line + ("\r\n" + rest)) == line + ("\n" + rest)
    ensures Normalise(line + "\r") == line + "\n"
  {
    NormalisePair(rest);
    NormaliseWithoutCr(line);
    assert !SplitsCrLf(line, "\r\n" + rest) && !SplitsCrLf(line, "\r");
    NormaliseApart(line, "\r\n" + rest);
    NormaliseApart(line, "\r");
  }

  lemma ErrorLineIsTaken(f: Fields)
    ensures TakeLine(f, ERROR_LINE) == f.(event := Some("error"))
  {
    assert "event" <= ERROR_LINE && ERROR_LINE[5..] == ": error" && ": error"[1..] == " error"
        && " error"[1..] == "error";
  }

  /** An event line alone, closed by a blank line, carries nothing. */
  lemma EventLineReads(t: Text, more: string)
    ensures SseStep(t, (ERROR_LINE + "\n\n") + more) == Good(None, |ERROR_LINE| + 2)
  {
    var lines := [ERROR_LINE];
    assert lines[1..] == [];
    assert FrameText(lines) == ERROR_LINE + ("\n" + "\n") == ERROR_LINE + "\n\n";
    FrameReads(t, lines, more);
    ErrorLineIsTaken(Fields(None, []));
  }

  /** The same line in front of data makes the data an error. */
  lemma ErrorFrameReads(t: Text, more: string)
    requires t.json("1") == Some(Num(Integer(1))) && !t.isSpace('1')
    ensures SseStep(t, (ERROR_LINE + ("\n" + DataFrame(["1"]))) + more) == Bad("upstream stream error event")
  {
    var lines := [ERROR_LINE] + DataFields(["1"]);
    assert lines[1..] == DataFields(["1"]);
    assert FrameText(lines) == ERROR_LINE + ("\n" + DataFrame(["1"]));
    DataFieldsAreFields(["1"]);
    FrameReads(t, lines, more);
    var nothing := Fields(None, []);
    ErrorLineIsTaken(nothing);
    TakeLinesCons(nothing, ERROR_LINE, Fields(Some("error"), []), DataFields(["1"]));
    TakeDataFields(Fields(Some("error"), []), ["1"]);
    assert [] + ["1"] == ["1"];
    InterpretOne(t);
  }

  lemma InterpretOne(t: Text)
    requires t.json("1") == Some(Num(Integer(1))) && !t.isSpace('1')
    ensures Interpret(t, Fields(Some("error"), ["1"])) == Err("upstream stream error event")
    ensures Interpret(t, Fields(None, ["1"])) == Ok(Some(Num(Integer(1))))
  {
    assert Join(["1"]) == "1";
    assert Trim(t, "1") == "1";
    assert StreamErrorMessage(Num(Integer(1))) == None;
  }

  /** The example: an event line, a line end of two characters, and a data frame. */
  const FIRST_PART := ERROR_LINE + "\r"

  function SecondPart(): string { "\n" + DataFrame(["1"]) }

  lemma ExampleIsAscii()
    ensures forall i | 0 <= i < |FIRST_PART| :: FIRST_PART[i] < 128 as char
    ensures SecondPart() == "\ndata: 1\n\n"
    ensures forall i | 0 <= i < |SecondPart()| :: SecondPart()[i] < 128 as char
    ensures '\r' !in DataFrame(["1"])
  {
    var fields := DataFields(["1"]);
    assert fields[0] == "data: " + "1" == "data: 1" && fields[1..] == [];
    assert FrameText(fields[1..]) == "\n";
    assert DataFrame(["1"]) == "data: 1\n\n";
  }

  ghost predicate Ordinary(t: Text) {
    && t.AsciiExact() && t.json("1") == Some(Num(Integer(1))) && !t.isSpace('1')
    && forall s: string {:trigger t.utf8Len(s)} :: t.utf8Len(s) <= 4 * |s|
  }

  lemma ExampleIntakes(t: Text)
    requires Ordinary(t)
    ensures var f := SseFramerOf(t);
            && f.intake(AsBytes(FIRST_PART)) == ERROR_LINE + "\n"
            && f.intake(AsBytes(SecondPart())) == SecondPart()
            && f.intake(AsBytes(FIRST_PART + SecondPart())) == ERROR_LINE + ("\n" + DataFrame(["1"]))
  {
    ExampleIsAscii();
    var data := DataFrame(["1"]);
    AsBytesExact(t, FIRST_PART);
    AsBytesExact(t, SecondPart());
    AsBytesExact(t, FIRST_PART + SecondPart());
    assert '\r' !in ERROR_LINE;
    NormaliseLine(ERROR_LINE, data);
    assert FIRST_PART + SecondPart() == ERROR_LINE + ("\r\n" + data);
    assert '\r' !in SecondPart();
    NormaliseWithoutCr(SecondPart());
  }

  lemma ExamplePieces(t: Text)
    requires Ordinary(t)
    ensures Encodes(SseParser(t), ERROR_LINE + "\n\n", None)
    ensures Encodes(SseParser(t), DataFrame(["1"]), Some(Num(Integer(1))))
  {
    forall more: string
      ensures SseParser(t)((ERROR_LINE + "\n\n") + more) == Good(None, |ERROR_LINE + "\n\n"|)
    {
      EventLineReads(t, more);
    }
    forall more: string
      ensures SseParser(t)(DataFrame(["1"]) + more) == Good(Some(Num(Integer(1))), |DataFrame(["1"])|)
    {
      DataFrameReads(t, ["1"], more);
      InterpretOne(t);
    }
  }

  lemma TwoPiecesRead(
      parse: string -> Step<Option<Value>, string>, a: string, b: string, v: Option<Value>, w: Option<Value>)
    requires Bounded(parse) && parse([]).NeedMore? && Encodes(parse, a, v) && Encodes(parse, b, w)
    ensures ScanAll(parse, a + b) == Scan([v, w], |a| + |b|, Waiting)
  {
    EncodedFramesRead(parse, [a, b], [v, w]);
    assert [a, b][1..] == [b] && [b][1..] == [];
    assert Concat([b]) == b + [] == b;
  }

  /** Cut inside the pair, the stream reads as an empty event and a value. */
  lemma SplitExampleScans(t: Text)
    requires Ordinary(t)
    ensures ScanAll(SseParser(t), (ERROR_LINE + "\n") + SecondPart()).status.Waiting?
  {
    ExamplePieces(t);
    SseIncremental(t);
    TwoPiecesRead(SseParser(t), ERROR_LINE + "\n\n", DataFrame(["1"]), None, Some(Num(Integer(1))));
    Regroup(ERROR_LINE, DataFrame(["1"]));
  }

  lemma Regroup(line: string, data: string)
    ensures (line + "\n\n") + data == (line + "\n") + ("\n" + data)
  {
  }

  lemma AsBytesConcat(a: string, b: string)
    ensures AsBytes(a + b) == AsBytes(a) + AsBytes(b)
  {
  }

  /** Two chunkings of the same bytes whose output differs, for every decoder: in one piece the stream
      ends with an error; cut inside the pair it sends events only. */
  lemma SplitPairChangesOutput<D(!new), Ev(!new)>(t: Text, c: Decoder<D, Value, Ev>, d: D)
    requires Ordinary(t)
    ensures var whole := Output(SseFramerOf(t), c, [], d, [Bytes(AsBytes(FIRST_PART + SecondPart()))]);
            var split := Output(SseFramerOf(t), c, [], d, [Bytes(AsBytes(FIRST_PART)), Bytes(AsBytes(SecondPart()))]);
            && whole == [FramingError("upstream stream error event")]
            && forall i | 0 <= i < |split| :: split[i].Event?
    ensures AsBytes(FIRST_PART + SecondPart()) == AsBytes(FIRST_PART) + AsBytes(SecondPart())
  {
    AsBytesConcat(FIRST_PART, SecondPart());
    WholeExampleFails(t, c, d);
    SplitExampleSucceeds(t, c, d);
  }

  lemma WholeExampleFails<D(!new), Ev(!new)>(t: Text, c: Decoder<D, Value, Ev>, d: D)
    requires Ordinary(t)
    ensures Output(SseFramerOf(t), c, [], d, [Bytes(AsBytes(FIRST_PART + SecondPart()))])
            == [FramingError("upstream stream error event")]
  {
    ExampleIntakes(t);
    var text := ERROR_LINE + ("\n" + DataFrame(["1"]));
    ErrorFrameReads(t, []);
    assert text + [] == text;
    ExampleIsAscii();
    assert t.utf8Len(text) <= 4 * |text|;
    BadChunkFails(SseFramerOf(t), c, d, AsBytes(FIRST_PART + SecondPart()));
  }

  lemma BadChunkFails<D(!new), Ev(!new)>(
      f: Framer<char, Value, string>, c: Decoder<D, Value, Ev>, d: D, bytes: seq<byte>)
    requires Bounded(f.parse) && f.fits(f.intake(bytes)) && f.parse(f.intake(bytes)).Bad?
    ensures Output(f, c, [], d, [Bytes(bytes)]) == [FramingError(f.parse(f.intake(bytes)).error)]
  {
    assert [] + f.intake(bytes) == f.intake(bytes);
  }

  lemma SplitExampleSucceeds<D(!new), Ev(!new)>(t: Text, c: Decoder<D, Value, Ev>, d: D)
    requires Ordinary(t)
    ensures var split := Output(SseFramerOf(t), c, [], d, [Bytes(AsBytes(FIRST_PART)), Bytes(AsBytes(SecondPart()))]);
            forall i | 0 <= i < |split| :: split[i].Event?
  {
    ExampleIsAscii();
    ExampleIntakes(t);
    SplitExampleScans(t);
    SseIncremental(t);
    var f := SseFramerOf(t);
    var chunks := [AsBytes(FIRST_PART), AsBytes(SecondPart())];
    var arrivals := [Bytes(chunks[0]), Bytes(chunks[1])];
    LeadingTwo(chunks[0], chunks[1]);
    ExampleFits(t, chunks);
    IntakesTwo(f, chunks);
    CleanOutput(f, c, d, arrivals);
  }

  lemma LeadingTwo(a: seq<byte>, b: seq<byte>)
    ensures Leading([Bytes(a), Bytes(b)]) == [a, b] && !Broken([Bytes(a), Bytes(b)])
  {
    var second := [Bytes(b)];
    assert second[1..] == [];
    assert Leading(second) == [b] + Leading([]);
    assert [Bytes(a), Bytes(b)][1..] == second;
  }

  lemma IntakesTwo(f: Framer<char, Value, string>, chunks: seq<seq<byte>>)
    requires |chunks| == 2
    ensures Intakes(f, chunks) == f.intake(chunks[0]) + f.intake(chunks[1])
  {
    var rest: seq<seq<byte>> := chunks[1..];
    assert |rest[1..]| == 0;
    assert Intakes(f, rest) == f.intake(chunks[1]) + Intakes(f, rest[1..]) == f.intake(chunks[1]);
  }

  lemma ExampleFits(t: Text, chunks: seq<seq<byte>>)
    requires Ordinary(t) && |chunks| == 2
    requires var f := SseFramerOf(t); |f.intake(chunks[0])| + |f.intake(chunks[1])| <= 100
    ensures NeverOverflows(SseFramerOf(t), [], chunks)
  {
    var f := SseFramerOf(t);
    var first := [] + f.intake(chunks[0]);
    assert t.utf8Len(first) <= 4 * |first|;
    var rest := PushBytes(f, [], chunks[0]).buffer;
    assert |rest| <= |first|;
    var second := rest + f.intake(chunks[1]);
    assert t.utf8Len(second) <= 4 * |second|;
    assert chunks[1..][0] == chunks[1] && chunks[1..][1..] == [];
  }

  ghost predicate AllAscii(chunks: seq<seq<byte>>) {
    forall chunk | chunk in chunks :: Ascii(chunk)
  }

  function AsciiTexts(chunks: seq<seq<byte>>): seq<string> {
    seq(|chunks|, i requires 0 <= i < |chunks| => AsciiText(chunks[i]))
  }

  lemma AsciiTextsCons(chunks: seq<seq<byte>>)
    requires chunks != []
    ensures AsciiTexts(chunks) == [AsciiText(chunks[0])] + AsciiTexts(chunks[1..])
  {
  }

  lemma {:induction false} ConcatAscii(chunks: seq<seq<byte>>)
    ensures Concat(AsciiTexts(chunks)) == AsciiText(Concat(chunks))
    decreases |chunks|
  {
    if chunks != [] {
      AsciiTextsCons(chunks);
      ConcatAscii(chunks[1..]);
    }
  }

  lemma {:induction false} IntakesNormaliseEach(t: Text, chunks: seq<seq<byte>>)
    requires t.AsciiExact() && AllAscii(chunks)
    ensures Intakes(SseFramerOf(t), chunks) == NormaliseEach(AsciiTexts(chunks))
    decreases |chunks|
  {
    if chunks != [] {
      AsciiTextsCons(chunks);
      assert chunks[0] in chunks && t.lossy(chunks[0]) == AsciiText(chunks[0]);
      IntakesNormaliseEach(t, chunks[1..]);
    }
  }

  /** An SSE response that ends normally. For ASCII text with no `\r\n` pair cut by a chunk boundary
      (in particular for text without `\r`), within the buffer limit and with frames that all parse,
      the events sent are the decoder folded over the frames of the whole text, then its closing
      events, for every chunking. */
  lemma SseOutputIgnoresChunking<D(!new), Ev(!new)>(
      t: Text, c: Decoder<D, Value, Ev>, d: D, arrivals: seq<Arrival>)
    requires t.AsciiExact() && AllAscii(Leading(arrivals)) && SplitPairs(AsciiTexts(Leading(arrivals))) == 0
    requires !Broken(arrivals) && NeverOverflows(SseFramerOf(t), [], Leading(arrivals))
    requires ScanAll(SseParser(t), Normalise(AsciiText(Concat(Leading(arrivals))))).status.Waiting?
    ensures var frames := ScanAll(SseParser(t), Normalise(AsciiText(Concat(Leading(arrivals))))).frames;
            var decoded := DecodeAll(c, d, Present(frames));
            Output(SseFramerOf(t), c, [], d, arrivals) == Sent(decoded.events + c.finish(decoded.state))
  {
    SseIncremental(t);
    IntakesNormaliseEach(t, Leading(arrivals));
    ConcatAscii(Leading(arrivals));
    NormalisingChunks(AsciiTexts(Leading(arrivals)));
    CleanOutput(SseFramerOf(t), c, d, arrivals);
  }

  /** Under the same conditions on the text, a frame that does not parse ends the stream with that
      frame's error, whatever the chunking and whether or not the connection breaks later. */
  lemma SseErrorIgnoresChunking<D(!new), Ev(!new)>(
      t: Text, c: Decoder<D, Value, Ev>, d: D, arrivals: seq<Arrival>)
    requires t.AsciiExact() && AllAscii(Leading(arrivals)) && SplitPairs(AsciiTexts(Leading(arrivals))) == 0
    requires NeverOverflows(SseFramerOf(t), [], Leading(arrivals))
    requires ScanAll(SseParser(t), Normalise(AsciiText(Concat(Leading(arrivals))))).status.Failed?
    ensures var error := ScanAll(SseParser(t), Normalise(AsciiText(Concat(Leading(arrivals))))).status.error;
            var output := Output(SseFramerOf(t), c, [], d, arrivals);
            output != [] && output[|output| - 1] == FramingError(error)
  {
    var f, chunks := SseFramerOf(t), Leading(arrivals);
    SseIncremental(t);
    IntakesNormaliseEach(t, chunks);
    ConcatAscii(chunks);
    NormalisingChunks(AsciiTexts(chunks));
    assert [] + Intakes(f, chunks) == Intakes(f, chunks);
    DeliveryIsOfWholeInput(f, [], chunks);
    OutputShape(f, c, [], d, arrivals);
  }

  // ---------------------------------------------------------------- what a producer writes

  /** A line a producer may put in a `data:` field. */
  predicate PlainLine(l: string) {
    '\n' !in l && '\r' !in l
  }

  predicate FieldLine(l: string) { l != "" && PlainLine(l) }

  /** One event: its lines, and the blank line behind them. */
  function FrameText(ls: seq<string>): string {
    if ls == [] then "\n" else ls[0] + ("\n" + FrameText(ls[1..]))
  }

  lemma LineIsPlain(line: string)
    requires PlainLine(line)
    ensures forall j | 0 <= j < |line| :: line[j] != '\n' && line[j] != '\r'
  {
  }

  lemma IndexOfUnique(s: string, c: char, i: nat)
    requires i < |s| && s[i] == c && forall j | 0 <= j < i :: s[j] != c
    ensures IndexOf(s, c) == i
  {
  }

  lemma LinesCons(line: string, rest: string)
    requires PlainLine(line)
    ensures Lines(line + ("\n" + rest)) == [line] + Lines(rest)
  {
    var s := line + ("\n" + rest);
    LineIsPlain(line);
    IndexOfUnique(s, '\n', |line|);
    assert s[..|line|] == line && s[|line| + 1..] == rest;
    assert StripCr(line) == line;
  }

  lemma {:induction false} LinesOfFrame(ls: seq<string>)
    requires forall l | l in ls :: FieldLine(l)
    ensures Lines(FrameText(ls)) == ls + [""]
    decreases |ls|
  {
    if ls == [] {
      LinesCons("", "");
      assert FrameText(ls) == "" + ("\n" + "");
    } else {
      assert ls[0] in ls;
      LinesCons(ls[0], FrameText(ls[1..]));
      LinesOfFrame(ls[1..]);
    }
  }

  lemma {:induction false} BlankOnlyAtEnd(ls: seq<string>, after: string, j: nat)
    requires ls != [] && forall l | l in ls :: FieldLine(l)
    requires j < |FrameText(ls)| - 2
    ensures !BlankAt(FrameText(ls) + after, j)
    decreases |ls|
  {
    var s, line, rest := FrameText(ls) + after, ls[0], ls[1..];
    assert s == (line + "\n") + (FrameText(rest) + after) && line in ls;
    LineIsPlain(line);
    if j < |line| {
      assert s[j] == line[j];
    } else if |ls| > 1 {
      assert rest[0] in ls;
      LineIsPlain(rest[0]);
      assert FrameText(rest)[0] == rest[0][0];
      if j > |line| {
        BlankOnlyAtEnd(rest, after, j - |line| - 1);
      }
    }
  }

  lemma {:induction false} LastTwoAreBlank(ls: seq<string>)
    requires ls != []
    ensures |FrameText(ls)| >= 2 && BlankAt(FrameText(ls), |FrameText(ls)| - 2)
    decreases |ls|
  {
    if |ls| > 1 {
      LastTwoAreBlank(ls[1..]);
    }
    assert FrameText(ls) == (ls[0] + "\n") + FrameText(ls[1..]);
  }

  lemma TakeLinesCons(f: Fields, line: string, g: Fields, rest: seq<string>)
    requires TakeLine(f, line) == g
    ensures TakeLines(f, [line] + rest) == TakeLines(g, rest)
  {
  }

  lemma {:induction false} TakeLinesConcat(f: Fields, a: seq<string>, b: seq<string>)
    ensures TakeLines(f, a + b) == TakeLines(TakeLines(f, a), b)
    decreases |a|
  {
    if a == [] {
      assert a + b == b;
    } else {
      assert (a + b)[0] == a[0] && (a + b)[1..] == a[1..] + b;
      TakeLinesConcat(TakeLine(f, a[0]), a[1..], b);
    }
  }

  function StepOf(value: Result<Option<Value>>, size: nat): Step<Option<Value>, string> {
    match value case Err(e) => Bad(e) case Ok(v) => Good(v, size)
  }

  /** Any event reads back as the meaning of exactly its lines, whatever follows it in the stream. */
  lemma FrameReads(t: Text, ls: seq<string>, after: string)
    requires ls != [] && forall l | l in ls :: FieldLine(l)
    ensures SseStep(t, FrameText(ls) + after)
         == StepOf(Interpret(t, TakeLines(Fields(None, []), ls)), |FrameText(ls)|)
  {
    var frame := FrameText(ls);
    var s := frame + after;
    LastTwoAreBlank(ls);
    forall j: nat | j < |frame| - 2
      ensures !BlankAt(s, j)
    {
      BlankOnlyAtEnd(ls, after, j);
    }
    FindBlankUnique(s, |frame| - 2);
    assert s[..|frame|] == frame;
    LinesOfFrame(ls);
    var fields := TakeLines(Fields(None, []), ls);
    TakeLinesConcat(Fields(None, []), ls, [""]);
    TakeLinesCons(fields, "", fields, []);
    assert [""] + [] == [""];
  }

  function DataFields(ls: seq<string>): seq<string> {
    seq(|ls|, i requires 0 <= i < |ls| => "data: " + ls[i])
  }

  /** One event with the given `data:` lines. */
  function DataFrame(ls: seq<string>): string { FrameText(DataFields(ls)) }

  lemma DataFieldsAreFields(ls: seq<string>)
    requires forall l | l in ls :: PlainLine(l)
    ensures forall l | l in DataFields(ls) :: FieldLine(l)
  {
    forall i | 0 <= i < |ls|
      ensures FieldLine("data: " + ls[i])
    {
      assert PlainLine(ls[i]) && PlainLine("data: ");
    }
  }

  lemma {:induction false} TakeDataFields(f: Fields, ls: seq<string>)
    ensures TakeLines(f, DataFields(ls)) == f.(data := f.data + ls)
    decreases |ls|
  {
    if ls == [] {
      assert f.data + [] == f.data;
    } else {
      var g := f.(data := f.data + [ls[0]]);
      DataLineIsTaken(f, ls[0]);
      assert DataFields(ls) == ["data: " + ls[0]] + DataFields(ls[1..]);
      TakeLinesCons(f, "data: " + ls[0], g, DataFields(ls[1..]));
      TakeDataFields(g, ls[1..]);
      assert g.data + ls[1..] == f.data + ls;
    }
  }

  lemma DataLineIsTaken(f: Fields, l: string)
    ensures TakeLine(f, "data: " + l) == f.(data := f.data + [l])
  {
  }

  /** A multi-line event reads back as exactly its lines, whatever follows it in the stream. */
  lemma DataFrameReads(t: Text, ls: seq<string>, after: string)
    requires ls != [] && forall l | l in ls :: PlainLine(l)
    ensures SseStep(t, DataFrame(ls) + after) == StepOf(Interpret(t, Fields(None, ls)), |DataFrame(ls)|)
  {
    DataFieldsAreFields(ls);
    FrameReads(t, DataFields(ls), after);
    TakeDataFields(Fields(None, []), ls);
    assert [] + ls == ls;
  }

  /** With an event line in front, the same lines under that event's name. */
  lemma NamedFrameReads(t: Text, event: string, ls: seq<string>, after: string)
    requires PlainLine(event) && forall l | l in ls :: PlainLine(l)
    ensures var text := FrameText(["event: " + event] + DataFields(ls));
            SseStep(t, text + after) == StepOf(Interpret(t, Fields(Some(event), ls)), |text|)
  {
    var line, nothing := "event: " + event, Fields(None, []);
    DataFieldsAreFields(ls);
    assert PlainLine("event: ") && FieldLine(line);
    FrameReads(t, [line] + DataFields(ls), after);
    EventLineIsTaken(nothing, event);
    TakeLinesCons(nothing, line, Fields(Some(event), []), DataFields(ls));
    TakeDataFields(Fields(Some(event), []), ls);
    assert [] + ls == ls;
  }

  // ---------------------------------------------------------------- what lines and payloads mean

  lemma EventLineIsTaken(f: Fields, value: string)
    ensures TakeLine(f, "event: " + value) == f.(event := Some(value))
  {
    FieldIs("event", " " + value);
    assert "event: " + value == "event" + (":" + (" " + value)) && (" " + value)[1..] == value;
  }

  lemma FieldIs(name: string, rest: string)
    ensures Field(name + (":" + rest), name) == Some(if " " <= rest then rest[1..] else rest)
  {
    var line := name + (":" + rest);
    assert line[|name|..] == ":" + rest && (":" + rest)[1..] == rest;
  }

  /** One space behind the colon is optional and not part of the value. */
  lemma SpaceIsOptional(f: Fields, value: string)
    requires value == "" || value[0] != ' '
    ensures TakeLine(f, "data:" + value) == f.(data := f.data + [value])
    ensures TakeLine(f, "event:" + value) == f.(event := Some(value))
  {
    FieldIs("data", value);
    FieldIs("event", value);
    assert "data:" + value == "data" + (":" + value) && "event:" + value == "event" + (":" + value);
    assert ("data:" + value)[0] == 'd';
  }

  /** Comments, blank lines and every other field are passed over, wherever they stand. */
  lemma OtherLinesAreIgnored(f: Fields, before: seq<string>, line: string, behind: seq<string>)
    requires line == "" || line[0] == ':' || !("event:" <= line || "data:" <= line)
    ensures TakeLines(f, before + ([line] + behind)) == TakeLines(f, before + behind)
  {
    var g := TakeLines(f, before);
    TakeLinesConcat(f, before, [line] + behind);
    TakeLinesConcat(f, before, behind);
    assert Field(line, "event").Some? ==> "event:" <= line;
    assert Field(line, "data").Some? ==> "data:" <= line;
    TakeLinesCons(g, line, g, behind);
  }

  lemma {:induction false} JoinAppends(ls: seq<string>, l: string)
    ensures Join([l]) == l
    ensures ls != [] ==> Join(ls + [l]) == Join(ls) + ("\n" + l)
    decreases |ls|
  {
    if |ls| == 1 {
      assert (ls + [l])[1..] == [l];
    } else if |ls| > 1 {
      assert (ls + [l])[0] == ls[0] && (ls + [l])[1..] == ls[1..] + [l];
      JoinAppends(ls[1..], l);
    }
  }

  ghost predicate AllSpace(t: Text, s: string) {
    forall c | c in s :: t.isSpace(c)
  }

  lemma {:induction false} TrimStartIs(t: Text, blank: string, s: string)
    requires AllSpace(t, blank) && (s == "" || !t.isSpace(s[0]))
    ensures TrimStart(t, blank + s) == s
    decreases |blank|
  {
    if blank == "" {
      assert blank + s == s;
    } else {
      assert (blank + s)[0] == blank[0] && blank[0] in blank && (blank + s)[1..] == blank[1..] + s;
      TrimStartIs(t, blank[1..], s);
    }
  }

  lemma {:induction false} TrimEndIs(t: Text, s: string, blank: string)
    requires AllSpace(t, blank) && (s == "" || !t.isSpace(s[|s| - 1]))
    ensures TrimEnd(t, s + blank) == s
    decreases |blank|
  {
    if blank == "" {
      assert s + blank == s;
    } else {
      var n := |blank| - 1;
      assert (s + blank)[|s| + n] == blank[n] && blank[n] in blank && (s + blank)[..|s| + n] == s + blank[..n];
      TrimEndIs(t, s, blank[..n]);
    }
  }

  /** Blanks around a text that neither begins nor ends with one. */
  ghost predicate Padded(t: Text, data: string, text: string) {
    && text != "" && !t.isSpace(text[0]) && !t.isSpace(text[|text| - 1])
    && exists before: string, behind: string ::
         AllSpace(t, before) && AllSpace(t, behind) && data == before + (text + behind)
  }

  lemma TrimIs(t: Text, data: string, text: string)
    requires Padded(t, data, text)
    ensures Trim(t, data) == text
  {
    var before: string, behind: string :|
      AllSpace(t, before) && AllSpace(t, behind) && data == before + (text + behind);
    TrimStartIs(t, before, text + behind);
    TrimEndIs(t, text, behind);
  }

  /** No data, blank data and `[DONE]` carry nothing, whatever the event. */
  lemma NothingCarried(t: Text, f: Fields)
    ensures f.data == [] || AllSpace(t, Join(f.data)) || Padded(t, Join(f.data), "[DONE]") ==>
              Interpret(t, f) == Ok(None)
  {
    if AllSpace(t, Join(f.data)) {
      TrimStartIs(t, Join(f.data), "");
      assert Join(f.data) + "" == Join(f.data);
    } else if Padded(t, Join(f.data), "[DONE]") {
      TrimIs(t, Join(f.data), "[DONE]");
    }
  }

  /** Any other text is a JSON payload: malformed, a value, or an upstream error with its message. */
  lemma PayloadMeans(t: Text, f: Fields, text: string)
    requires f.data != [] && Padded(t, Join(f.data), text) && text != "[DONE]"
    ensures t.json(text) == None ==> Interpret(t, f) == Err("malformed SSE JSON frame")
    ensures forall v | t.json(text) == Some(v) && Get(v, "error") == None ::
              Interpret(t, f) == if f.event == Some("error") then Err("upstream stream error event") else Ok(Some(v))
    ensures forall v, error | t.json(text) == Some(v) && Get(v, "error") == Some(error) ::
              Interpret(t, f) == Err(UpstreamMessage(v, error))
  {
    TrimIs(t, Join(f.data), text);
  }

  /** What an error object says: its text, its `message`, the `message` beside it, or a default. */
  function UpstreamMessage(v: Value, error: Value): string {
    if error.Str? then error.text
    else if error.Obj? && "message" in error.fields && error.fields["message"].Str? then error.fields["message"].text
    else if v.Obj? && "message" in v.fields && v.fields["message"].Str? then v.fields["message"].text
    else "upstream stream error"
  }

  /** A push that leaves more than 1 MiB waiting or arriving is refused, whatever the bytes say. */
  lemma OverflowEndsPush(t: Text, buffer: string, bytes: seq<byte>)
    requires t.utf8Len(buffer + Normalise(t.lossy(bytes))) > 1_048_576
    ensures PushBytes(SseFramerOf(t), buffer, bytes).result == PushError("SSE frame buffer exceeded 1048576 bytes")
  {
  }

  /** A line end of two characters is one line end. */
  lemma CarriageReturnIsStripped(line: string, rest: string)
    requires PlainLine(line)
    ensures Lines(line + ("\r\n" + rest)) == [line] + Lines(rest)
  {
    var s := line + ("\r\n" + rest);
    LineIsPlain(line);
    assert s[|line|] == '\r' && s[|line| + 1] == '\n' && forall j | 0 <= j < |line| :: s[j] == line[j];
    IndexOfUnique(s, '\n', |line| + 1);
    assert s[..|line| + 1] == line + "\r" && s[|line| + 2..] == rest;
    assert StripCr(line + "\r") == line;
  }
}
