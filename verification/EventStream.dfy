/** `parse_sse`: server-sent events read line by line, against the frame-by-frame reading of sections
    9.2.5 and 9.2.6 of the WHATWG HTML Living Standard, with ids kept per frame and a last
    unterminated frame dispatched. */
module EventStream {
  import opened Wrappers
  import opened Utf8
  import opened Characters
  import opened Json

  const MAX_SSE_FRAME_BYTES := 1048576

  datatype Event = Event(event: string, data: seq<Field>, id: Option<int>)

  datatype Error = FrameTooLarge | NotUtf8 | NotJson | NotObject | IdNotInteger | IdNegative

  /** What `json.loads` makes of a text. */
  datatype Loaded = Malformed | Scalar | Object(fields: seq<Field>)

  /** `json.loads` and `int`. */
  datatype Readers = Readers(json: string -> Loaded, integer: string -> Option<int>)

  /** The events yielded, and the error that then ended the stream, if any. */
  datatype Parsed = Parsed(events: seq<Event>, error: Option<Error>)

  // ---- one line ----

  function StripLineEnd(s: string): string {
    if s != "" && s[|s| - 1] in {'\r', '\n'} then StripLineEnd(s[..|s| - 1]) else s
  }

  function Line(raw: seq<byte>): Option<string> {
    match Decode(raw)
    case None => None
    case Some(s) => Some(StripLineEnd(s))
  }

  /** `line.partition(":")`: the text before the first colon, and what follows it. */
  function Partition(line: string): (string, Option<string>) {
    if line == "" then ("", None)
    else if line[0] == ':' then ("", Some(line[1..]))
    else var (name, value) := Partition(line[1..]); ([line[0]] + name, value)
  }

  /** Field name and value of a line; a comment line has the empty name. */
  function FieldOf(line: string): (string, string) {
    var (name, rest) := Partition(line);
    match rest
    case None => (name, "")
    case Some(value) => (name, if value != "" && value[0] == ' ' then value[1..] else value)
  }

  // ---- one frame, read as a whole ----

  function Bytes(lines: seq<seq<byte>>): nat {
    if lines == [] then 0 else Bytes(lines[..|lines| - 1]) + |lines[|lines| - 1]|
  }

  /** The first thing wrong with a frame's lines, in their order. */
  function Fault(lines: seq<seq<byte>>): Option<Error> {
    if lines == [] then None
    else
      var n := |lines| - 1;
      if Fault(lines[..n]).Some? then Fault(lines[..n])
      else if Bytes(lines) > MAX_SSE_FRAME_BYTES then Some(FrameTooLarge)
      else if Line(lines[n]).None? then Some(NotUtf8)
      else None
  }

  /** Every value a field is given in the frame. */
  function Values(lines: seq<seq<byte>>, name: string): seq<string> {
    if lines == [] then []
    else
      var n := |lines| - 1;
      var here := Line(lines[n]);
      Values(lines[..n], name)
      + if here.Some? && FieldOf(here.value).0 == name then [FieldOf(here.value).1] else []
  }

  function Last(values: seq<string>): Option<string> {
    if values == [] then None else Some(values[|values| - 1])
  }

  /** `_dispatch_sse` */
  function Dispatch(r: Readers, name: Option<string>, id: Option<string>, data: seq<string>)
    : Result<Option<Event>, Error>
  {
    if data == [] then Success(None)
    else match r.json(JoinLines(data)) {
      case Malformed => Failure(NotJson)
      case Scalar => Failure(NotObject)
      case Object(fields) =>
        var kind := if name.Some? && name.value != "" then name.value else "message";
        if id.None? then Success(Some(Event(kind, fields, None)))
        else match r.integer(id.value) {
          case None => Failure(IdNotInteger)
          case Some(n) => if n < 0 then Failure(IdNegative) else Success(Some(Event(kind, fields, Some(n))))
        }
    }
  }

  /** A frame on its own: its lines, and its terminating blank line if it has one. */
  function Interpret(r: Readers, lines: seq<seq<byte>>, end: seq<seq<byte>>): Result<Option<Event>, Error> {
    if Fault(lines + end).Some? then Failure(Fault(lines + end).value)
    else Dispatch(r, Last(Values(lines, "event")), Last(Values(lines, "id")), Values(lines, "data"))
  }

  // ---- the whole input, cut into frames ----

  /** A blank line holds nothing but line-end bytes. */
  predicate IsBlank(raw: seq<byte>) {
    forall i | 0 <= i < |raw| :: raw[i] == 10 || raw[i] == 13
  }

  function FirstBlank(lines: seq<seq<byte>>): (n: nat)
    ensures n <= |lines|
  {
    if lines == [] || IsBlank(lines[0]) then 0 else 1 + FirstBlank(lines[1..])
  }

  function Before(events: seq<Event>, rest: Parsed): Parsed {
    rest.(events := events + rest.events)
  }

  function Listed(e: Option<Event>): seq<Event> {
    if e.None? then [] else [e.value]
  }

  /** Cut at the blank lines, read each frame alone, stop at the first error. */
  function ByFrames(r: Readers, lines: seq<seq<byte>>): Parsed
    decreases |lines|
  {
    var n := FirstBlank(lines);
    if n == |lines| then Followed(Interpret(r, lines, []), Parsed([], None))
    else Followed(Interpret(r, lines[..n], [lines[n]]), ByFrames(r, lines[n + 1..]))
  }

  /** One frame, and what the frames behind it come to. */
  function Followed(frame: Result<Option<Event>, Error>, rest: Parsed): Parsed {
    if frame.Failure? then Parsed([], Some(frame.error)) else Before(Listed(frame.value), rest)
  }

  // ---- the streaming parser ----

  lemma {:induction false} StripLineEndBlank(s: string)
    ensures StripLineEnd(s) == "" <==> forall i | 0 <= i < |s| :: s[i] == '\r' || s[i] == '\n'
  {
    if s != "" {
      StripLineEndBlank(s[..|s| - 1]);
    }
  }

  lemma {:induction false} LineEndBytes(s: string)
    ensures (forall i | 0 <= i < |s| :: s[i] == '\r' || s[i] == '\n') <==> IsBlank(Encode(s))
  {
    if s != "" {
      LineEndBytes(s[1..]);
      var head, tail := EncodeChar(s[0]), Encode(s[1..]);
      assert IsBlank(head + tail) <==> IsBlank(head) && IsBlank(tail) by {
        assert forall i | 0 <= i < |tail| :: (head + tail)[|head| + i] == tail[i];
        assert forall i | 0 <= i < |head| :: (head + tail)[i] == head[i];
      }
      assert s[0] == '\r' || s[0] == '\n' <==> IsBlank(head) by {
        assert head[0] == 10 || head[0] == 13 ==> s[0] as int == head[0];
      }
    }
  }

  lemma {:induction false} BlankBytesDecode(raw: seq<byte>)
    requires IsBlank(raw)
    ensures Decode(raw).Some?
  {
    if raw != [] {
      BlankBytesDecode(raw[1..]);
    }
  }

  /** A line strips to nothing exactly when it is blank. */
  lemma BlankLine(raw: seq<byte>)
    ensures Line(raw) == Some("") <==> IsBlank(raw)
  {
    if Decode(raw).Some? {
      var s := Decode(raw).value;
      EncodeInvertsDecode(raw);
      StripLineEndBlank(s);
      LineEndBytes(s);
    } else if IsBlank(raw) {
      BlankBytesDecode(raw);
    }
  }

  predicate NoBlank(lines: seq<seq<byte>>) {
    forall i | 0 <= i < |lines| :: !IsBlank(lines[i])
  }

  lemma {:induction false} FirstBlankBehind(frame: seq<seq<byte>>, rest: seq<seq<byte>>)
    requires NoBlank(frame)
    ensures FirstBlank(frame + rest) == |frame| + FirstBlank(rest)
  {
    if frame == [] {
      assert frame + rest == rest;
    } else {
      assert (frame + rest)[1..] == frame[1..] + rest;
      FirstBlankBehind(frame[1..], rest);
    }
  }

  /** A fault among the first lines of a frame is the frame's fault, wherever the frame ends. */
  lemma {:induction false} FaultStays(lines: seq<seq<byte>>, more: seq<seq<byte>>)
    requires Fault(lines).Some?
    ensures Fault(lines + more) == Fault(lines)
  {
    if more == [] {
      assert lines + more == lines;
    } else {
      var n := |more| - 1;
      FaultStays(lines, more[..n]);
      assert (lines + more)[..|lines + more| - 1] == lines + more[..n];
    }
  }

  lemma FaultEndsStream(r: Readers, frame: seq<seq<byte>>, rest: seq<seq<byte>>)
    requires frame != [] && NoBlank(frame[..|frame| - 1]) && Fault(frame).Some?
    ensures ByFrames(r, frame + rest) == Parsed([], Fault(frame))
  {
    hide IsBlank, Fault;
    var all := frame + rest;
    var body, last := frame[..|frame| - 1], frame[|frame| - 1];
    assert all == body + ([last] + rest);
    FirstBlankBehind(body, [last] + rest);
    var n := FirstBlank(all);
    if IsBlank(last) {
      assert all[..n] == body && all[n] == last;
      assert body + [last] == frame;
    } else {
      assert ([last] + rest)[1..] == rest;
      if n == |all| {
        FaultStays(frame, rest);
        assert all + [] == all;
      } else {
        FaultStays(frame, rest[..n - |frame|] + [all[n]]);
        assert all[..n] + [all[n]] == frame + (rest[..n - |frame|] + [all[n]]);
      }
    }
  }

  lemma Cut(r: Readers, frame: seq<seq<byte>>, blank: seq<byte>, rest: seq<seq<byte>>)
    requires NoBlank(frame) && IsBlank(blank)
    ensures ByFrames(r, frame + ([blank] + rest)) == Followed(Interpret(r, frame, [blank]), ByFrames(r, rest))
  {
    var all := frame + ([blank] + rest);
    FirstBlankBehind(frame, [blank] + rest);
    hide Interpret, Followed, NoBlank;
    assert all[..|frame|] == frame && all[|frame|] == blank && all[|frame| + 1..] == rest;
  }

  /** The parser's variables. */
  datatype Hand = Hand(name: Option<string>, id: Option<string>, data: seq<string>, bytes: nat)

  /** They hold exactly the fields of the unfinished frame. */
  ghost predicate InHand(frame: seq<seq<byte>>, h: Hand) {
    && NoBlank(frame) && Fault(frame).None?
    && h == Hand(Last(Values(frame, "event")), Last(Values(frame, "id")), Values(frame, "data"), Bytes(frame))
  }

  function Take(h: Hand, line: string, size: nat): Hand {
    var (field, value) := FieldOf(line);
    Hand(if field == "event" then Some(value) else h.name, if field == "id" then Some(value) else h.id,
         if field == "data" then h.data + [value] else h.data, h.bytes + size)
  }

  /** A line that is neither blank nor faulty joins the frame with its field. */
  lemma LineJoins(frame: seq<seq<byte>>, raw: seq<byte>, h: Hand)
    requires InHand(frame, h) && !IsBlank(raw) && Line(raw).Some? && h.bytes + |raw| <= MAX_SSE_FRAME_BYTES
    ensures InHand(frame + [raw], Take(h, Line(raw).value, |raw|))
  {
    assert (frame + [raw])[..|frame|] == frame;
  }

  lemma LineFaults(r: Readers, frame: seq<seq<byte>>, raw: seq<byte>, rest: seq<seq<byte>>)
    requires NoBlank(frame) && Fault(frame).None?
    requires Bytes(frame) + |raw| > MAX_SSE_FRAME_BYTES || Line(raw).None?
    ensures ByFrames(r, frame + ([raw] + rest)) ==
            Parsed([], Some(if Bytes(frame) + |raw| > MAX_SSE_FRAME_BYTES then FrameTooLarge else NotUtf8))
  {
    assert (frame + [raw])[..|frame|] == frame;
    assert frame + ([raw] + rest) == frame + [raw] + rest;
    FaultEndsStream(r, frame + [raw], rest);
  }

  /** A blank line closes the frame in hand. */
  lemma FrameCloses(r: Readers, frame: seq<seq<byte>>, raw: seq<byte>, rest: seq<seq<byte>>, h: Hand)
    requires InHand(frame, h) && IsBlank(raw) && h.bytes + |raw| <= MAX_SSE_FRAME_BYTES
    ensures ByFrames(r, frame + ([raw] + rest)) == Followed(Dispatch(r, h.name, h.id, h.data), ByFrames(r, rest))
  {
    Cut(r, frame, raw, rest);
    assert (frame + [raw])[..|frame|] == frame;
    BlankLine(raw);
  }

  /** The body of the loop: one line, taken into the frame in hand or closing it. */
  method ReadLine(r: Readers, h: Hand, raw: seq<byte>, ghost frame: seq<seq<byte>>, ghost rest: seq<seq<byte>>)
    returns (h': Hand, yielded: Option<Event>, error: Option<Error>, ghost frame': seq<seq<byte>>)
    requires InHand(frame, h)
    ensures error.None? ==> InHand(frame', h')
    ensures ByFrames(r, frame + ([raw] + rest))
         == if error.Some? then Parsed([], error) else Before(Listed(yielded), ByFrames(r, frame' + rest))
  {
    h', yielded, error, frame' := h, None, None, frame;
    BlankLine(raw);
    var bytes := h.bytes + |raw|;
    if bytes > MAX_SSE_FRAME_BYTES {
      LineFaults(r, frame, raw, rest);
      error := Some(FrameTooLarge);
      return;
    }
    var line := Line(raw);
    if line.None? {
      LineFaults(r, frame, raw, rest);
      error := Some(NotUtf8);
      return;
    }
    if line.value == "" {
      FrameCloses(r, frame, raw, rest, h);
      var framed := Dispatch(r, h.name, h.id, h.data);
      if framed.Failure? {
        error := Some(framed.error);
        return;
      }
      yielded := framed.value;
      h', frame' := Hand(None, None, [], 0), [];
      assert [] + rest == rest;
      return;
    }
    LineJoins(frame, raw, h);
    assert frame + ([raw] + rest) == frame + [raw] + rest;
    NothingBefore(ByFrames(r, frame + [raw] + rest));
    h', frame' := Take(h, line.value, |raw|), frame + [raw];
  }

  lemma NothingBefore(rest: Parsed)
    ensures Before([], rest) == rest
  {
    assert [] + rest.events == rest.events;
  }

  /** The parser as it streams, with only the current frame's fields in hand, yields what reading
      frame by frame yields, and fails with the same error after the same events. */
  method ParseSse(r: Readers, lines: seq<seq<byte>>) returns (parsed: Parsed)
    ensures parsed == ByFrames(r, lines)
  {
    hide ByFrames, Fault, Values, Bytes, IsBlank;
    var events: seq<Event> := [];
    var h := Hand(None, None, [], 0);
    NoFrameYet();
    ghost var frame: seq<seq<byte>>, rest := [], lines;
    NothingBefore(ByFrames(r, lines));
    assert frame + rest == lines;
    for i := 0 to |lines|
      invariant rest == lines[i..] && InHand(frame, h)
      invariant ByFrames(r, lines) == Before(events, ByFrames(r, frame + rest))
    {
      assert rest == [lines[i]] + lines[i + 1..];
      ghost var before := frame;
      rest := lines[i + 1..];
      var yielded, error;
      h, yielded, error, frame := ReadLine(r, h, lines[i], frame, rest);
      if error.Some? {
        return Parsed(events + [], error);
      }
      Stacked(events, Listed(yielded), ByFrames(r, frame + rest));
      events := events + Listed(yielded);
    }
    assert frame + rest == frame;
    LastFrame(r, frame);
    var unfinished := Dispatch(r, h.name, h.id, h.data);
    parsed := if unfinished.Failure? then Parsed(events + [], Some(unfinished.error))
              else Parsed(events + (Listed(unfinished.value) + []), None);
  }

  lemma NoFrameYet()
    ensures InHand([], Hand(None, None, [], 0))
  {
  }

  lemma LastFrame(r: Readers, frame: seq<seq<byte>>)
    requires NoBlank(frame)
    ensures ByFrames(r, frame) == Followed(Interpret(r, frame, []), Parsed([], None))
    ensures Fault(frame + []) == Fault(frame)
  {
    assert frame + [] == frame;
    FirstBlankBehind(frame, []);
  }

  lemma Stacked(events: seq<Event>, more: seq<Event>, rest: Parsed)
    ensures Before(events, Before(more, rest)) == Before(events + more, rest)
  {
    assert events + (more + rest.events) == events + more + rest.events;
  }

  // ---- frames do not touch each other ----

  /** Input cut behind a blank line parses piecewise: no name, id or data of the first part reaches the
      second. */
  lemma {:induction false} PiecewiseAtBlank(r: Readers, first: seq<seq<byte>>, second: seq<seq<byte>>)
    requires first == [] || IsBlank(first[|first| - 1])
    ensures ByFrames(r, first + second) == Then(ByFrames(r, first), ByFrames(r, second))
    decreases |first|
  {
    hide ByFrames, Interpret, FirstBlank, Followed, Then;
    var n := FirstBlank(first);
    if first == [] {
      NothingFirst(r, second);
    } else {
      FirstBlankIsBlank(first);
      var frame, rest := first[..n], first[n + 1..];
      assert first == frame + ([first[n]] + rest);
      assert first + second == frame + ([first[n]] + (rest + second));
      Cut(r, frame, first[n], rest);
      Cut(r, frame, first[n], rest + second);
      if rest != [] { assert rest[|rest| - 1] == first[|first| - 1]; }
      PiecewiseAtBlank(r, rest, second);
      FollowedTwice(Interpret(r, frame, [first[n]]), ByFrames(r, rest), ByFrames(r, second));
    }
  }

  lemma NothingFirst(r: Readers, second: seq<seq<byte>>)
    ensures ByFrames(r, [] + second) == Then(ByFrames(r, []), ByFrames(r, second))
  {
    assert [] + second == second;
    LastFrame(r, []);
    assert [] + ByFrames(r, second).events == ByFrames(r, second).events;
  }

  /** Two stretches of input, one behind the other. */
  function Then(first: Parsed, second: Parsed): Parsed {
    if first.error.Some? then first else Before(first.events, second)
  }

  lemma FollowedTwice(frame: Result<Option<Event>, Error>, rest: Parsed, second: Parsed)
    ensures Followed(frame, Then(rest, second)) == Then(Followed(frame, rest), second)
  {
    if frame.Success? {
      Stacked(Listed(frame.value), rest.events, second);
    }
  }

  lemma {:induction false} FirstBlankIsBlank(lines: seq<seq<byte>>)
    requires lines != [] && IsBlank(lines[|lines| - 1])
    ensures FirstBlank(lines) < |lines| && IsBlank(lines[FirstBlank(lines)]) && NoBlank(lines[..FirstBlank(lines)])
  {
    if !IsBlank(lines[0]) {
      FirstBlankIsBlank(lines[1..]);
      var n := FirstBlank(lines);
      assert lines[..n] == [lines[0]] + lines[1..][..n - 1];
    }
  }

  /** No event is ever made of a frame over the limit. */
  lemma OversizedFrameRaises(r: Readers, lines: seq<seq<byte>>, end: seq<seq<byte>>)
    requires Bytes(lines + end) > 1048576
    ensures Interpret(r, lines, end).Failure?
  {
    hide Fault;
    FaultIff(lines + end);
  }

  /** A frame is taken exactly when it is within the limit and each of its lines is text. */
  lemma {:induction false} FaultIff(lines: seq<seq<byte>>)
    ensures Fault(lines).None? <==> Bytes(lines) <= 1048576 && forall i | 0 <= i < |lines| :: Line(lines[i]).Some?
  {
    if lines != [] {
      var n := |lines| - 1;
      FaultIff(lines[..n]);
      assert Bytes(lines) == Bytes(lines[..n]) + |lines[n]|;
      assert forall i | 0 <= i < n :: lines[..n][i] == lines[i];
    }
  }

  // ---- what lines and frames mean ----

  predicate OnlyEnds(s: string) {
    forall i | 0 <= i < |s| :: s[i] == '\r' || s[i] == '\n'
  }

  /** All line ends behind a text are dropped, and nothing else. */
  lemma {:induction false} StripIs(text: string, ends: string)
    requires OnlyEnds(ends) && (text == "" || (text[|text| - 1] != '\r' && text[|text| - 1] != '\n'))
    ensures StripLineEnd(text + ends) == text
  {
    if ends == "" {
      assert text + ends == text;
    } else {
      var n := |ends| - 1;
      assert (text + ends)[..|text + ends| - 1] == text + ends[..n];
      StripIs(text, ends[..n]);
    }
  }

  /** A line without a colon is a field without a value. Behind the first colon stands the value, of which one
      blank in front is dropped; a line that begins with a colon is no field at all. */
  lemma FieldOfIs(name: string, value: string)
    requires ':' !in name
    ensures FieldOf(name) == (name, "")
    ensures FieldOf(name + ":" + value) == (name, value) <==> value == "" || value[0] != ' '
    ensures FieldOf(name + ": " + value) == (name, value)
  {
    NoColon(name);
    PartitionName(name, value);
    PartitionName(name, " " + value);
    assert name + ": " + value == name + ":" + (" " + value);
    assert (" " + value)[1..] == value;
    assert value != "" ==> |value[1..]| < |value|;
  }

  lemma {:induction false} NoColon(line: string)
    requires ':' !in line
    ensures Partition(line) == (line, None)
  {
    if line != "" {
      NoColon(line[1..]);
      assert line == [line[0]] + line[1..];
    }
  }

  predicate Gives(raw: seq<byte>, name: string, value: string) {
    Line(raw).Some? && FieldOf(Line(raw).value) == (name, value)
  }

  /** The values of a field are those of the lines that give it one, in the order of the lines. */
  ghost predicate ValuesOf(lines: seq<seq<byte>>, name: string, chosen: seq<nat>, values: seq<string>) {
    && |chosen| == |values|
    && (forall k | 0 <= k < |chosen| :: chosen[k] < |lines| && Gives(lines[chosen[k]], name, values[k]))
    && (forall k, l | 0 <= k < l < |chosen| :: chosen[k] < chosen[l])
    && forall i: nat, value | i < |lines| && Gives(lines[i], name, value) :: i in chosen
  }

  lemma {:induction false} ValuesAre(lines: seq<seq<byte>>, name: string) returns (chosen: seq<nat>)
    ensures ValuesOf(lines, name, chosen, Values(lines, name))
  {
    hide Line, FieldOf, ValuesOf, Gives;
    if lines == [] {
      chosen := [];
      NoValues(name);
    } else {
      var n := |lines| - 1;
      chosen := ValuesAre(lines[..n], name);
      LastGives(lines[n], name);
      var here := Line(lines[n]);
      if here.Some? && FieldOf(here.value).0 == name {
        MoreValues(lines, name, chosen, Values(lines[..n], name), FieldOf(here.value).1);
        chosen := chosen + [n];
      } else {
        assert Values(lines[..n], name) + [] == Values(lines[..n], name);
        SameValues(lines, lines[n], name, chosen, Values(lines[..n], name));
      }
    }
  }

  lemma NoValues(name: string)
    ensures ValuesOf([], name, [], Values([], name))
  {
  }

  lemma LastGives(raw: seq<byte>, name: string)
    ensures if Line(raw).Some? && FieldOf(Line(raw).value).0 == name then Gives(raw, name, FieldOf(Line(raw).value).1)
            else forall value :: !Gives(raw, name, value)
  {
    hide Line, FieldOf;
  }

  lemma SameValues(lines: seq<seq<byte>>, last: seq<byte>, name: string, chosen: seq<nat>, values: seq<string>)
    requires lines != [] && last == lines[|lines| - 1] && ValuesOf(lines[..|lines| - 1], name, chosen, values)
    requires forall value :: !Gives(last, name, value)
    ensures ValuesOf(lines, name, chosen, values)
  {
    hide Gives;
    forall i: nat, v | i < |lines| && Gives(lines[i], name, v) ensures i in chosen {
      assert lines[..|lines| - 1][i] == lines[i];
    }
  }

  lemma MoreValues(lines: seq<seq<byte>>, name: string, chosen: seq<nat>, values: seq<string>, value: string)
    requires lines != [] && ValuesOf(lines[..|lines| - 1], name, chosen, values)
    requires Gives(lines[|lines| - 1], name, value)
    ensures ValuesOf(lines, name, chosen + [|lines| - 1], values + [value])
  {
    hide Gives;
    var n, more := |lines| - 1, chosen + [|lines| - 1];
    assert more[|chosen|] == n;
    forall i: nat, v | i < |lines| && Gives(lines[i], name, v) ensures i in more {
      if i < n {
        assert lines[..n][i] == lines[i] && i in chosen;
      }
    }
  }

  /** What a frame's fields come to: nothing without data; an error where the data is no JSON object or the id
      no number from 0 on; and otherwise an event of the kind named last, `message` by default, with an id only
      where the frame gives one. */
  lemma DispatchIs(r: Readers, name: Option<string>, id: Option<string>, data: seq<string>)
    ensures var d, json := Dispatch(r, name, id, data), r.json(JoinLines(data));
            && (d == Success(None) <==> data == [])
            && (d == Failure(NotJson) <==> data != [] && json.Malformed?)
            && (d == Failure(NotObject) <==> data != [] && json.Scalar?)
            && (d == Failure(IdNotInteger) <==>
                  data != [] && json.Object? && id.Some? && r.integer(id.value).None?)
            && (d == Failure(IdNegative) <==>
                  data != [] && json.Object? && id.Some? && r.integer(id.value).Some? && r.integer(id.value).value < 0)
            && (d.Success? && d.value.Some? ==>
                  var e := d.value.value;
                  && json == Object(e.data)
                  && (if id.None? then e.id.None? else e.id == r.integer(id.value) && e.id.Some?)
                  && (if name.None? || name == Some("") then e.event == "message" else Some(e.event) == name))
  {
    hide JoinLines;
  }

  // ---- printing ----

  function PrintLine(name: string, value: string): seq<byte> {
    Encode(name + ": " + value + "\n")
  }

  /** One event as a server writes it. */
  function Print(e: Event): seq<seq<byte>> {
    (if e.id.None? then [] else [PrintLine("id", Integer(e.id.value))])
    + [PrintLine("event", e.event), PrintLine("data", Dump(JObj(e.data), COMPACT)), Encode("\n")]
  }

  function PrintAll(events: seq<Event>): seq<seq<byte>> {
    if events == [] then [] else Print(events[0]) + PrintAll(events[1..])
  }

  predicate OneLine(s: string) {
    forall i | 0 <= i < |s| :: s[i] != '\r' && s[i] != '\n'
  }

  /** The readers invert the writers on this event, and it fits a frame. */
  ghost predicate Printable(r: Readers, e: Event) {
    && e.event != "" && OneLine(e.event)
    && r.json(Dump(JObj(e.data), COMPACT)) == Object(e.data)
    && (e.id.Some? ==> e.id.value >= 0 && r.integer(Integer(e.id.value)) == Some(e.id.value))
    && Bytes(Print(e)) <= MAX_SSE_FRAME_BYTES
  }

  lemma StripOneLine(s: string)
    requires OneLine(s)
    ensures StripLineEnd(s + "\n") == s
  {
    assert (s + "\n")[..|s|] == s;
  }

  lemma {:induction false} PartitionName(name: string, value: string)
    requires forall i | 0 <= i < |name| :: name[i] != ':'
    ensures Partition(name + ":" + value) == (name, Some(value))
  {
    var line := name + ":" + value;
    if name == "" {
      assert line[1..] == value;
    } else {
      assert line[1..] == name[1..] + ":" + value;
      PartitionName(name[1..], value);
      assert name == [name[0]] + name[1..];
    }
  }

  /** A printed line is read back as its field. */
  lemma PrintedLine(name: string, value: string)
    requires OneLine(value) && OneLine(name) && forall i | 0 <= i < |name| :: name[i] != ':'
    ensures var raw := PrintLine(name, value);
            Line(raw).Some? && FieldOf(Line(raw).value) == (name, value) && !IsBlank(raw)
  {
    hide Encode, Decode, StripLineEnd, Partition;
    var text := name + ": " + value;
    assert OneLine(text) by {
      forall i | 0 <= i < |text| ensures text[i] != '\r' && text[i] != '\n' {
        if i >= |name| + 2 { assert text[i] == value[i - |name| - 2]; }
      }
    }
    DecodeInvertsEncode(text + "\n");
    StripOneLine(text);
    assert text == name + ":" + (" " + value);
    PartitionName(name, " " + value);
    assert (" " + value)[1..] == value;
    BlankLine(PrintLine(name, value));
    assert text[|name|] == ':';
  }

  lemma OneLineConcat(s: string, t: string)
    requires OneLine(s) && OneLine(t)
    ensures OneLine(s + t)
  {
  }

  lemma {:induction false} QuotedIsOneLine(s: string)
    ensures OneLine(QuoteBody(s, false)) && OneLine(Quote(s, false))
  {
    if s != "" {
      QuotedIsOneLine(s[1..]);
      OneLineConcat(QuoteChar(s[0], false), QuoteBody(s[1..], false));
    }
    OneLineConcat("\"", QuoteBody(s, false));
    OneLineConcat("\"" + QuoteBody(s, false), "\"");
  }

  lemma {:induction false} DecimalIsOneLine(n: nat)
    ensures OneLine(Decimal(n))
  {
    DecimalPlain(n);
  }

  /** `json.dumps` never writes a line end, so a value always stays on its `data:` line. */
  lemma {:induction false} DumpIsOneLine(j: Json)
    ensures OneLine(Dump(j, COMPACT))
    decreases j, 1
  {
    match j
    case JNull =>
    case JBool(_) =>
    case JInt(n) => DecimalIsOneLine(if n < 0 then -n else n);
    case JStr(s) => QuotedIsOneLine(s);
    case JArr(items) =>
      ItemsAreOneLine(items);
      OneLineConcat("[", DumpItems(items, COMPACT));
    case JObj(fields) =>
      FieldsAreOneLine(fields);
      OneLineConcat("{", DumpFields(fields, COMPACT));
  }

  lemma {:induction false} ItemsAreOneLine(items: seq<Json>)
    ensures OneLine(DumpItems(items, COMPACT))
    decreases items, 0
  {
    if items != [] {
      DumpIsOneLine(items[0]);
      if |items| > 1 {
        ItemsAreOneLine(items[1..]);
        OneLineConcat(",", DumpItems(items[1..], COMPACT));
      }
    }
  }

  lemma {:induction false} FieldsAreOneLine(fields: seq<Field>)
    ensures OneLine(DumpFields(fields, COMPACT))
    decreases fields, 0
  {
    if fields != [] {
      var name, value := Quote(fields[0].name, false), Dump(fields[0].value, COMPACT);
      QuotedIsOneLine(fields[0].name);
      DumpIsOneLine(fields[0].value);
      OneLineConcat(":", value);
      OneLineConcat(name, ":" + value);
      if |fields| > 1 {
        FieldsAreOneLine(fields[1..]);
        OneLineConcat(",", DumpFields(fields[1..], COMPACT));
        OneLineConcat(name + (":" + value), "," + DumpFields(fields[1..], COMPACT));
      }
    }
  }

  function IdLines(e: Event): seq<seq<byte>> {
    if e.id.None? then [] else [PrintLine("id", Integer(e.id.value))]
  }

  lemma ValuesBehind(frame: seq<seq<byte>>, raw: seq<byte>, name: string)
    requires Line(raw).Some?
    ensures Values(frame + [raw], name)
         == Values(frame, name) + if FieldOf(Line(raw).value).0 == name then [FieldOf(Line(raw).value).1] else []
  {
    assert (frame + [raw])[..|frame|] == frame;
  }

  /** The lines of a printed frame, without the blank one. */
  function Body(e: Event): seq<seq<byte>> {
    IdLines(e) + [PrintLine("event", e.event)] + [PrintLine("data", Dump(JObj(e.data), COMPACT))]
  }

  lemma PrintedLines(r: Readers, e: Event)
    requires Printable(r, e)
    ensures Print(e) == Body(e) + [Encode("\n")] && IsBlank(Encode("\n")) && Line(Encode("\n")).Some?
    ensures forall i | 0 <= i < |Body(e)| :: !IsBlank(Body(e)[i]) && Line(Body(e)[i]).Some?
  {
    hide Dump, PrintLine, Encode, Decimal, FieldOf;
    var text := Dump(JObj(e.data), COMPACT);
    assert Print(e) == Body(e) + [Encode("\n")];
    DumpIsOneLine(JObj(e.data));
    PrintedLine("event", e.event);
    PrintedLine("data", text);
    if e.id.Some? {
      DecimalIsOneLine(e.id.value);
      PrintedLine("id", Integer(e.id.value));
    }
    LineEndBytes("\n");
    BlankLine(Encode("\n"));
  }

  lemma PrintedValues(r: Readers, e: Event, name: string)
    requires Printable(r, e)
    ensures Values(Body(e), name) ==
              (if e.id.Some? && name == "id" then [Integer(e.id.value)] else [])
              + (if name == "event" then [e.event] else [])
              + (if name == "data" then [Dump(JObj(e.data), COMPACT)] else [])
  {
    hide Dump, PrintLine, Encode, Decimal;
    var text := Dump(JObj(e.data), COMPACT);
    DumpIsOneLine(JObj(e.data));
    PrintedLine("event", e.event);
    PrintedLine("data", text);
    if e.id.Some? {
      DecimalIsOneLine(e.id.value);
      PrintedLine("id", Integer(e.id.value));
      assert IdLines(e) == [] + [PrintLine("id", Integer(e.id.value))];
      ValuesBehind([], PrintLine("id", Integer(e.id.value)), name);
    }
    ValuesBehind(IdLines(e), PrintLine("event", e.event), name);
    ValuesBehind(IdLines(e) + [PrintLine("event", e.event)], PrintLine("data", text), name);
  }

  /** A printed frame is read back as the event it was printed from. */
  lemma PrintedFrame(r: Readers, e: Event)
    requires Printable(r, e)
    ensures NoBlank(Body(e)) && Interpret(r, Body(e), [Encode("\n")]) == Success(Some(e))
  {
    hide Body, Dump, Encode, Values, PrintLine, Decimal;
    PrintedLines(r, e);
    NamesApart();
    PrintedValues(r, e, "event");
    PrintedValues(r, e, "id");
    PrintedValues(r, e, "data");
    FaultIff(Body(e) + [Encode("\n")]);
    assert JoinLines([Dump(JObj(e.data), COMPACT)]) == Dump(JObj(e.data), COMPACT);
  }

  lemma NamesApart()
    ensures "event" != "id" && "event" != "data" && "id" != "data"
  {
    assert "event"[0] != "id"[0] && "event"[0] != "data"[0] && "id"[0] != "data"[0];
  }

  /** Printing events and parsing the print gives the events back, each with its own id or none. */
  lemma {:induction false} PrintThenParse(r: Readers, events: seq<Event>)
    requires forall i | 0 <= i < |events| :: Printable(r, events[i])
    ensures ByFrames(r, PrintAll(events)) == Parsed(events, None)
  {
    if events == [] {
      LastFrame(r, []);
    } else {
      PrintThenParse(r, events[1..]);
      PrintedFrame(r, events[0]);
      PrintedLines(r, events[0]);
      FrontFrame(r, events[0], PrintAll(events[1..]), events[1..]);
      assert events == [events[0]] + events[1..];
    }
  }

  lemma FrontFrame(r: Readers, e: Event, rest: seq<seq<byte>>, later: seq<Event>)
    requires NoBlank(Body(e)) && IsBlank(Encode("\n")) && Interpret(r, Body(e), [Encode("\n")]) == Success(Some(e))
    requires ByFrames(r, rest) == Parsed(later, None)
    ensures ByFrames(r, Body(e) + [Encode("\n")] + rest) == Parsed([e] + later, None)
  {
    hide Body, Interpret, Encode, ByFrames;
    assert Body(e) + [Encode("\n")] + rest == Body(e) + ([Encode("\n")] + rest);
    Cut(r, Body(e), Encode("\n"), rest);
  }
}
