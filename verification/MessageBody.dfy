/** Message bodies continued by byte offset: the inline body of a thread page and the chunks of
    `get_message_body`, over a message that others may change between any two calls. */
module MessageBody {
  import opened Wrappers
  import opened Utf8
  import opened Json
  import opened GmailText
  import opened Mime
  import opened Versions
  import Base64Url
  import opened Cursors

  const INLINE_BODY_BUDGET := 65536

  type Message = Versioned<Node>

  // ---- the two readers ----

  /** The body fields of `_message`. */
  datatype Inline = Inline(body: string, complete: bool, available: bool, next: Option<int>)

  function InlineBody(d: Decoders, payload: Node): Inline {
    var full := BodyText(d, payload);
    var body := DecodeIgnore(Prefix(Encode(full), INLINE_BODY_BUDGET));
    var available := InlineAvailable(d, payload);
    Inline(body, available && body == full, available,
           if available && body != full then Some(|Encode(body)|) else None)
  }

  /** What these fields say of a payload: the most whole characters of the body that 65536 bytes hold, whether
      they are all of it, and where to go on. */
  ghost predicate IsInline(d: Decoders, payload: Node, inline: Inline) {
    var full := BodyText(d, payload);
    && (exists k: nat | k <= |full| :: IsCut(full, k, 65536) && inline.body == full[..k])
    && (inline.available <==> InlineAvailable(d, payload))
    && (inline.complete <==> inline.available && inline.body == full)
    && inline.next == if inline.available && inline.body != full then Some(|Encode(inline.body)|) else None
  }

  lemma InlineBodyIs(d: Decoders, payload: Node)
    ensures IsInline(d, payload, InlineBody(d, payload))
  {
    hide Encode, DecodeIgnore, Prefix, BodyText, InlineAvailable, Fitting;
    var full := BodyText(d, payload);
    DecodePrefix(full, INLINE_BODY_BUDGET);
    FittingIsCut(full, INLINE_BODY_BUDGET);
    assert IsCut(full, Fitting(full, 65536), 65536);
  }

  lemma OneInline(d: Decoders, payload: Node, a: Inline, b: Inline)
    requires IsInline(d, payload, a) && IsInline(d, payload, b)
    ensures a == b
  {
    hide Encode, BodyText, InlineAvailable, IsCut;
    var full := BodyText(d, payload);
    var j: nat :| j <= |full| && IsCut(full, j, 65536) && a.body == full[..j];
    var k: nat :| k <= |full| && IsCut(full, k, 65536) && b.body == full[..k];
    OneCut(full, j, k, 65536);
  }

  datatype Page = Page(
    historyId: Option<string>, body: string, offset: int, next: Option<int>,
    complete: bool, changed: bool, available: bool)

  function PageJson(messageId: string, page: Page): Json {
    JObj(PageFields(messageId, page))
  }

  function PageFields(messageId: string, page: Page): seq<Field> {
    [Field("schema_version", JInt(1)), Field("message_id", JStr(messageId)),
     Field("history_id", Nullable(page.historyId)),
     Field("body", JStr(page.body)), Field("offset", JInt(page.offset)),
     Field("next_offset", if page.next.None? then JNull else JInt(page.next.value)),
     Field("complete", JBool(page.complete)), Field("source_changed", JBool(page.changed)),
     Field("body_available", JBool(page.available))]
  }

  /** `get_message_body`, given the message its one request finds. */
  function GetMessageBody(d: Decoders, messageId: string, message: Message, offset: int, maxBytes: int,
                          expected: Option<string>): Result<Page, Code> {
    var empty := Page(None, "", offset, None, false, false, false);
    if !RequiredText(messageId, 1024) then Failure(ArgumentsInvalid)
    else if !(0 <= offset <= UPSTREAM_MAXIMUM_BYTES) || !(1024 <= maxBytes <= 65536) then Failure(ArgumentsInvalid)
    else if expected.Some? && !(RequiredText(expected.value, 20) && IsHistoryId(expected.value)) then
      Failure(ArgumentsInvalid)
    else if expected.None? && offset != 0 then Failure(ArgumentsInvalid)
    else if message.Gone? then
      if expected.None? then Failure(ResourceNotFound) else Success(empty.(changed := true))
    else if !IsHistoryId(message.revision) then Failure(ProviderOutputInvalid)
    else
      var result := empty.(historyId := Some(message.revision));
      if expected.Some? && message.revision != expected.value then Success(result.(changed := true))
      else if !InlineAvailable(d, message.content) then Success(result)
      else
        var encoded := Encode(BodyText(d, message.content));
        if offset > |encoded| then Failure(ArgumentsInvalid)
        else if Decode(encoded[..offset]).None? then Failure(ArgumentsInvalid)
        else
          var chunk := DecodeIgnore(Prefix(encoded[offset..], maxBytes));
          var next := offset + |Encode(chunk)|;
          var page := result.(body := chunk, available := true, complete := next == |encoded|,
                              next := if next < |encoded| then Some(next) else None);
          if Size(PageJson(messageId, page), COMPACT) > OUTPUT_MAXIMUM_BYTES then Failure(ProviderOutputInvalid)
          else Success(page)
  }

  // ---- one call ----

  /** Everything a call in good order promises: the whole characters that fit after a boundary, the
      next boundary, and at least `maxBytes - 3` bytes of progress unless the body ends. */
  lemma ChunkInOrder(d: Decoders, messageId: string, message: Message, k: nat, maxBytes: int,
                     expected: Option<string>)
    requires RequiredText(messageId, 1024) && 1024 <= maxBytes <= 65536
    requires message.Present? && IsHistoryId(message.revision) && InlineAvailable(d, message.content)
    requires k <= |BodyText(d, message.content)|
    requires |Encode(BodyText(d, message.content)[..k])| <= UPSTREAM_MAXIMUM_BYTES
    requires expected == Some(message.revision) || (expected.None? && k == 0)
    ensures var full := BodyText(d, message.content);
            var offset := |Encode(full[..k])|;
            var more := Fitting(full[k..], maxBytes);
            var end := |Encode(full[..k + more])|;
            && k + more <= |full|
            && end <= |Encode(full)|
            && GetMessageBody(d, messageId, message, offset, maxBytes, expected) ==
               Success(Page(Some(message.revision), full[k..k + more], offset,
                            if end < |Encode(full)| then Some(end) else None,
                            end == |Encode(full)|, false, true))
            && (end < |Encode(full)| ==> end - offset >= maxBytes - 3)
            && end <= offset + maxBytes
            && (end == |Encode(full)| <==> k + more == |full|)
  {
    hide Encode, Decode, DecodeIgnore, Fitting, Prefix, Size, BodyText, InlineAvailable;
    var full := BodyText(d, message.content);
    CutAtBoundary(full, k, maxBytes);
    HistoryIdIsText(message.revision);
    var offset, end := |Encode(full[..k])|, |Encode(full[..k + Fitting(full[k..], maxBytes)])|;
    ChunkFits(messageId, Page(Some(message.revision), full[k..k + Fitting(full[k..], maxBytes)], offset,
                              if end < |Encode(full)| then Some(end) else None, end == |Encode(full)|, false, true));
  }

  /** Cutting an encoded string at a boundary and again after `room` bytes. */
  lemma CutAtBoundary(full: string, k: nat, room: nat)
    requires k <= |full|
    ensures var encoded, offset := Encode(full), |Encode(full[..k])|;
            var more := Fitting(full[k..], room);
            var chunk := full[k..k + more];
            && offset <= |encoded| && Decode(encoded[..offset]).Some?
            && DecodeIgnore(Prefix(encoded[offset..], room)) == chunk
            && |Encode(chunk)| <= room
            && offset + |Encode(chunk)| == |Encode(full[..k + more])| <= |encoded|
            && (k + more < |full| ==> |Encode(chunk)| >= room - 3)
            && (|Encode(full[..k + more])| == |encoded| <==> k + more == |full|)
  {
    hide Encode, Decode, DecodeIgnore, Fitting;
    var encoded, offset := Encode(full), |Encode(full[..k])|;
    assert full == full[..k] + full[k..];
    EncodeConcat(full[..k], full[k..]);
    assert encoded[..offset] == Encode(full[..k]) && encoded[offset..] == Encode(full[k..]);
    DecodeInvertsEncode(full[..k]);
    DecodePrefix(full[k..], room);
    FittingFills(full[k..], room);
    var more := Fitting(full[k..], room);
    assert full[k..][..more] == full[k..k + more];
    assert full[..k + more] == full[..k] + full[k..k + more];
    EncodeConcat(full[..k], full[k..k + more]);
    assert full[..|full|] == full;
    if k + more < |full| {
      PrefixLengthsIncrease(full, k + more, |full|);
    }
  }

  /** The closing size check can never fail: a chunk is far smaller than the output limit. */
  lemma ChunkFits(messageId: string, page: Page)
    requires |messageId| <= 1024 && |Encode(page.body)| <= 65536
    requires page.historyId.Some? && IsHistoryId(page.historyId.value)
    requires 0 <= page.offset <= UPSTREAM_MAXIMUM_BYTES
    requires page.next.Some? ==> 0 <= page.next.value <= UPSTREAM_MAXIMUM_BYTES + 65536
    ensures Size(PageJson(messageId, page), COMPACT) <= OUTPUT_MAXIMUM_BYTES
  {
    hide Size, FieldsBound, PieceBound, PageFields;
    BytesAtLeastCharacters(page.body);
    SmallNumber(1);
    SmallNumber(page.offset);
    if page.next.Some? { SmallNumber(page.next.value); }
    var f := PageFields(messageId, page);
    NamesAreShort(messageId, page);
    forall i | 0 <= i < 9 ensures f[i].value.JStr? ==> PieceBound(f[i].value) <= 6 * |f[i].value.text| + 2
                          ensures f[i].value.JNull? || f[i].value.JBool? ==> PieceBound(f[i].value) <= 5 {
      PieceAtMost(f[i].value);
    }
    ObjectSize(f);
    NineFields(f[0], f[1], f[2], f[3], f[4], f[5], f[6], f[7], f[8]);
  }

  lemma NamesAreShort(messageId: string, page: Page)
    ensures var f := PageFields(messageId, page);
            && |f| == 9 && (forall i | 0 <= i < 9 :: |f[i].name| <= 20)
            && f == [f[0], f[1], f[2], f[3], f[4], f[5], f[6], f[7], f[8]]
            && f[0].value == JInt(1) && f[1].value == JStr(messageId) && f[2].value == Nullable(page.historyId)
            && f[3].value == JStr(page.body) && f[4].value == JInt(page.offset)
            && f[5].value == (if page.next.None? then JNull else JInt(page.next.value))
            && f[6].value.JBool? && f[7].value.JBool? && f[8].value.JBool?
  {
  }

  lemma NineFields(a: Field, b: Field, c: Field, d: Field, e: Field, f: Field, g: Field, h: Field, i: Field)
    ensures FieldsBound([a, b, c, d, e, f, g, h, i]) ==
            6 * (|a.name| + |b.name| + |c.name| + |d.name| + |e.name| + |f.name| + |g.name| + |h.name| + |i.name|) + 36
            + PieceBound(a.value) + PieceBound(b.value) + PieceBound(c.value) + PieceBound(d.value)
            + PieceBound(e.value) + PieceBound(f.value) + PieceBound(g.value) + PieceBound(h.value)
            + PieceBound(i.value)
  {
    hide PieceBound;
    FieldsBoundFirst(a, [b, c, d, e, f, g, h, i]);
    FieldsBoundFirst(b, [c, d, e, f, g, h, i]);
    FieldsBoundFirst(c, [d, e, f, g, h, i]);
    FieldsBoundFirst(d, [e, f, g, h, i]);
    FieldsBoundFirst(e, [f, g, h, i]);
    FieldsBoundFirst(f, [g, h, i]);
    FieldsBoundFirst(g, [h, i]);
    FieldsBoundFirst(h, [i]);
    FieldsBoundFirst(i, []);
  }

  lemma SmallNumber(n: nat)
    requires n <= UPSTREAM_MAXIMUM_BYTES + 65536
    ensures PieceBound(JInt(n)) <= 7
  {
    assert |Decimal(8454144)| == 7;
    DecimalGrows(n, 8454144);
  }

  // ---- whole runs ----

  /** One continuation: the moment it reads the mailbox and the chunk size it asks for. */
  datatype Call = Call(time: nat, maxBytes: int)

  /** `pages` is what a client gets that continues from `start`, pinned to `revision`, taking each
      `next_offset` as the next offset while the mailbox goes through `states`. */
  ghost predicate Run(d: Decoders, messageId: string, states: seq<Message>, revision: string, start: int,
                      calls: seq<Call>, pages: seq<Page>) {
    && |calls| == |pages|
    && (pages != [] ==>
          var n := |pages| - 1;
          && Run(d, messageId, states, revision, start, calls[..n], pages[..n])
          && calls[n].time < |states| && 1024 <= calls[n].maxBytes <= 65536
          && (n > 0 ==> pages[n - 1].next.Some?)
          && GetMessageBody(d, messageId, states[calls[n].time], AskedNext(start, pages[..n]), calls[n].maxBytes,
                            Some(revision)) == Success(pages[n]))
  }

  function AskedNext(start: int, pages: seq<Page>): int {
    if pages != [] && pages[|pages| - 1].next.Some? then pages[|pages| - 1].next.value else start
  }

  function Bodies(pages: seq<Page>): string {
    if pages == [] then "" else Bodies(pages[..|pages| - 1]) + pages[|pages| - 1].body
  }

  /** One more chunk that reports no change: the characters from boundary `m` to boundary `m'`. */
  lemma RunStep(d: Decoders, messageId: string, states: seq<Message>, at: nat, m: nat, call: Call, page: Page)
    returns (m': nat)
    requires Pinned(d, messageId, states, at) && call.time < |states| && 1024 <= call.maxBytes <= 65536
    requires m <= |BodyText(d, states[at].content)| && !page.changed
    requires GetMessageBody(d, messageId, states[call.time], |Encode(BodyText(d, states[at].content)[..m])|,
                            call.maxBytes, Some(states[at].revision)) == Success(page)
    ensures var full := BodyText(d, states[at].content);
            && m <= m' <= |full| && page.body == full[m..m']
            && page.complete == (m' == |full|)
            && page.next == (if m' == |full| then None else Some(|Encode(full[..m'])|))
            && (m' < |full| ==> |Encode(full[..m])| + 1021 <= |Encode(full[..m'])|)
            && |Encode(full[..m])| <= UPSTREAM_MAXIMUM_BYTES
            && |Encode(full[..m'])| <= |Encode(full[..m])| + call.maxBytes
  {
    hide GetMessageBody, Encode, Fitting, BodyText, InlineAvailable;
    AcceptedOffset(d, messageId, states[call.time], |Encode(BodyText(d, states[at].content)[..m])|, call.maxBytes,
                   Some(states[at].revision));
    SamePinned(d, messageId, states, at, call.time, |Encode(BodyText(d, states[at].content)[..m])|, call.maxBytes,
               page);
    ChunkInOrder(d, messageId, states[at], m, call.maxBytes, Some(states[at].revision));
    m' := m + Fitting(BodyText(d, states[at].content)[m..], call.maxBytes);
  }

  /** The message a run is about: present, and inline. */
  ghost predicate Pinned(d: Decoders, messageId: string, states: seq<Message>, at: nat) {
    && Timeline(states) && at < |states| && states[at].Present? && IsHistoryId(states[at].revision)
    && InlineAvailable(d, states[at].content) && RequiredText(messageId, 1024)
  }

  lemma SlicesJoin(s: string, i: nat, j: nat, k: nat)
    requires i <= j <= k <= |s|
    ensures s[i..j] + s[j..k] == s[i..k]
  {
  }

  /** How far a run has come after any number of calls: it holds exactly the characters up to the
      boundary it would ask for next, and each call that left a remainder moved by 1021 bytes. */
  lemma {:induction false} RunProgress(d: Decoders, messageId: string, states: seq<Message>, at: nat, k: nat,
                                       calls: seq<Call>, pages: seq<Page>) returns (m: nat)
    requires Pinned(d, messageId, states, at) && k <= |BodyText(d, states[at].content)|
    requires Run(d, messageId, states, states[at].revision, |Encode(BodyText(d, states[at].content)[..k])|, calls,
                 pages)
    requires forall i | 0 <= i < |pages| :: !pages[i].changed
    ensures var full := BodyText(d, states[at].content);
            && k <= m <= |full| && Bodies(pages) == full[k..m]
            && (if pages == [] then m == k
                else var last := pages[|pages| - 1];
                     && last.complete == (m == |full|)
                     && last.next == (if m == |full| then None else Some(|Encode(full[..m])|)))
            && 1021 * (|pages| - (if m == |full| && pages != [] then 1 else 0)) <= |Encode(full[..m])|
  {
    hide GetMessageBody, Encode, BodyText, InlineAvailable;
    m := k;
    if pages != [] {
      var full := BodyText(d, states[at].content);
      var n := |pages| - 1;
      var j := RunProgress(d, messageId, states, at, k, calls[..n], pages[..n]);
      m := RunStep(d, messageId, states, at, j, calls[n], pages[n]);
      SlicesJoin(full, k, j, m);
      if j < m { PrefixLengthsIncrease(full, j, m); }
    }
  }

  /** A pinned call that does not report a change has read the very state the run is pinned to. */
  lemma SamePinned(d: Decoders, messageId: string, states: seq<Message>, at: nat, time: nat, offset: int,
                   maxBytes: int, page: Page)
    requires Timeline(states) && at < |states| && time < |states| && states[at].Present?
    requires IsHistoryId(states[at].revision)
    requires GetMessageBody(d, messageId, states[time], offset, maxBytes, Some(states[at].revision)) == Success(page)
    requires !page.changed
    ensures states[time] == states[at]
  {
    assert states[time].Present? && states[time].revision == states[at].revision;
    RevisionPins(states, time, at);
  }

  /** Body continuation rebuilds the message. The inline body a thread page gave at some revision,
      followed by the chunks of any continuation run that ends and reports no change, is the full
      body of that revision; the run takes at most one call per 1021 bytes, plus one. */
  lemma BodyRebuilt(d: Decoders, messageId: string, states: seq<Message>, at: nat, calls: seq<Call>, pages: seq<Page>)
    requires Pinned(d, messageId, states, at) && InlineBody(d, states[at].content).next.Some?
    requires Run(d, messageId, states, states[at].revision, InlineBody(d, states[at].content).next.value, calls, pages)
    requires pages != [] && pages[|pages| - 1].next.None?
    requires forall i | 0 <= i < |pages| :: !pages[i].changed
    ensures InlineBody(d, states[at].content).body + Bodies(pages) == BodyText(d, states[at].content)
    ensures pages[|pages| - 1].complete
    ensures 1021 * (|pages| - 1) <= |Encode(BodyText(d, states[at].content))|
  {
    hide Encode, DecodeIgnore, Fitting, GetMessageBody, BodyText, InlineAvailable;
    var full := BodyText(d, states[at].content);
    DecodePrefix(full, INLINE_BODY_BUDGET);
    var k := Fitting(full, INLINE_BODY_BUDGET);
    var m := RunProgress(d, messageId, states, at, k, calls, pages);
    assert full[..k] + full[k..m] == full[..m];
    assert full[..|full|] == full;
  }

  /** A body read from its start, without the thread page, is rebuilt the same way. */
  lemma BodyReadFromStart(d: Decoders, messageId: string, states: seq<Message>, at: nat, calls: seq<Call>,
                          pages: seq<Page>)
    requires Pinned(d, messageId, states, at)
    requires Run(d, messageId, states, states[at].revision, 0, calls, pages)
    requires pages != [] && pages[|pages| - 1].next.None?
    requires forall i | 0 <= i < |pages| :: !pages[i].changed
    ensures Bodies(pages) == BodyText(d, states[at].content)
  {
    var full := BodyText(d, states[at].content);
    assert full[..0] == "";
    var m := RunProgress(d, messageId, states, at, 0, calls, pages);
    assert full[0..m] == full;
  }

  /** A chunk whose message has moved on carries no text, so no run ever mixes two revisions. */
  lemma ChangedChunkIsEmpty(d: Decoders, messageId: string, message: Message, offset: int, maxBytes: int,
                            expected: string, page: Page)
    requires GetMessageBody(d, messageId, message, offset, maxBytes, Some(expected)) == Success(page)
    ensures page.changed <==> message.Gone? || message.revision != expected
    ensures page.changed ==> page.body == "" && page.next.None? && !page.complete
  {
  }

  /** A call that does not raise was asked for an offset within the bound. */
  lemma AcceptedOffset(d: Decoders, messageId: string, message: Message, offset: int, maxBytes: int,
                       expected: Option<string>)
    requires GetMessageBody(d, messageId, message, offset, maxBytes, expected).Success?
    ensures 0 <= offset <= UPSTREAM_MAXIMUM_BYTES && 1024 <= maxBytes <= 65536 && RequiredText(messageId, 1024)
  {
    hide BodyText, InlineAvailable, Size;
  }

  /** For a message that stands still, an offset is accepted exactly when it is a character boundary of the
      body and at most 8388608. */
  lemma OffsetAcceptedIff(d: Decoders, messageId: string, message: Message, offset: int, maxBytes: int)
    requires RequiredText(messageId, 1024) && 1024 <= maxBytes <= 65536
    requires message.Present? && IsHistoryId(message.revision) && InlineAvailable(d, message.content)
    ensures var full := BodyText(d, message.content);
            GetMessageBody(d, messageId, message, offset, maxBytes, Some(message.revision)).Success? <==>
            offset <= UPSTREAM_MAXIMUM_BYTES && exists k :: 0 <= k <= |full| && |Encode(full[..k])| == offset
  {
    hide BodyText, InlineAvailable, Size, Encode;
    var full := BodyText(d, message.content);
    if !(0 <= offset <= UPSTREAM_MAXIMUM_BYTES) {
      assert GetMessageBody(d, messageId, message, offset, maxBytes, Some(message.revision)).Failure?;
    } else if offset <= |Encode(full)| {
      BoundaryIff(full, offset);
      if Decode(Encode(full)[..offset]).Some? {
        var k :| 0 <= k <= |full| && |Encode(full[..k])| == offset;
        ChunkInOrder(d, messageId, message, k, maxBytes, Some(message.revision));
      }
    } else {
      forall k | 0 <= k <= |full| ensures |Encode(full[..k])| <= |Encode(full)| {
        assert full == full[..k] + full[k..];
        EncodeConcat(full[..k], full[k..]);
      }
    }
  }

  /** Every `next_offset` handed out is a boundary, so for a message that stands still it is accepted in turn
      exactly when it is at most 8388608. */
  lemma HandedOutIsAcceptedIff(d: Decoders, messageId: string, message: Message, k: nat, maxBytes: int, again: int)
    requires RequiredText(messageId, 1024) && 1024 <= maxBytes <= 65536 && 1024 <= again <= 65536
    requires message.Present? && IsHistoryId(message.revision) && InlineAvailable(d, message.content)
    requires k <= |BodyText(d, message.content)|
    requires |Encode(BodyText(d, message.content)[..k])| <= UPSTREAM_MAXIMUM_BYTES
    ensures var page := GetMessageBody(d, messageId, message, |Encode(BodyText(d, message.content)[..k])|, maxBytes,
                                       Some(message.revision));
            page.Success? &&
            (page.value.next.Some? ==>
               (GetMessageBody(d, messageId, message, page.value.next.value, again, Some(message.revision)).Success?
                <==> page.value.next.value <= UPSTREAM_MAXIMUM_BYTES))
  {
    hide BodyText, InlineAvailable, Size, Encode, GetMessageBody, Fitting;
    var full := BodyText(d, message.content);
    ChunkInOrder(d, messageId, message, k, maxBytes, Some(message.revision));
    var m := k + Fitting(full[k..], maxBytes);
    OffsetAcceptedIff(d, messageId, message, |Encode(full[..m])|, again);
  }

  /** So a body whose text takes more than 8388608 + 65536 bytes is never read to its end: no run that reports
      no change, at whatever chunk sizes, has a last chunk. */
  lemma LongBodyNeverEnds(d: Decoders, messageId: string, states: seq<Message>, at: nat, calls: seq<Call>,
                          pages: seq<Page>)
    requires Pinned(d, messageId, states, at)
    requires |Encode(BodyText(d, states[at].content))| > UPSTREAM_MAXIMUM_BYTES + 65536
    requires Run(d, messageId, states, states[at].revision, 0, calls, pages)
    requires forall i | 0 <= i < |pages| :: !pages[i].changed
    ensures pages != [] ==> pages[|pages| - 1].next.Some? && !pages[|pages| - 1].complete
  {
    hide GetMessageBody, Encode, BodyText, InlineAvailable;
    if pages != [] {
      var full := BodyText(d, states[at].content);
      var n := |pages| - 1;
      EncodeNothing();
      assert full[..0] == "";
      var j := RunProgress(d, messageId, states, at, 0, calls[..n], pages[..n]);
      var m := RunStep(d, messageId, states, at, j, calls[n], pages[n]);
      assert full[..|full|] == full;
    }
  }

  lemma EncodeNothing()
    ensures Encode("") == []
  {
  }

  // ---- a message of that kind ----

  /** `bytes.decode(errors="replace")`, for bytes each of which starts no well-formed sequence. */
  function DecodeReplace(b: seq<byte>): string {
    if b == [] then []
    else match Head(b) {
      case None => ['\U{FFFD}'] + DecodeReplace(b[1..])
      case Some((c, n)) => [c] + DecodeReplace(b[n..])
    }
  }

  /** `_decode_body` and the strict check, of well-formed base64. */
  function BodyDecoders(): Decoders {
    Decoders(
      text => match Base64Url.Decode(text) case None => "" case Some(b) => DecodeReplace(b),
      text => Base64Url.Decode(text).Some?,
      text => text)
  }

  function Undecodable(n: nat): seq<byte> {
    seq(n, i => 0xFF)
  }

  function TextMessage(n: nat): Node {
    Part(Some("text/plain"), NoName, Body(Encoded(Base64Url.Encode(Undecodable(n))), false, None), NoParts)
  }

  lemma {:induction false} UndecodableTriples(n: nat)
    ensures |DecodeReplace(Undecodable(n))| == n && |Encode(DecodeReplace(Undecodable(n)))| == 3 * n
  {
    if n > 0 {
      UndecodableTriples(n - 1);
      assert Undecodable(n)[1..] == Undecodable(n - 1);
      assert Head(Undecodable(n)).None?;
      var s := DecodeReplace(Undecodable(n));
      assert s[0] == '\U{FFFD}' && s[1..] == DecodeReplace(Undecodable(n - 1));
      assert Encode(s) == EncodeChar(s[0]) + Encode(s[1..]);
    }
  }

  /** The transport's bound does not keep such bodies away. A text part of 2900000 bytes that are no UTF-8, as
      any legacy encoding may hold, fits into a response of 8388608 bytes and counts as inline, and its text is
      too long ever to be read. */
  lemma LegacyTextIsTooLong()
    ensures var message := TextMessage(2900000);
            && |Base64Url.Encode(Undecodable(2900000))| < UPSTREAM_MAXIMUM_BYTES / 2
            && InlineAvailable(BodyDecoders(), message)
            && |Encode(BodyText(BodyDecoders(), message))| > UPSTREAM_MAXIMUM_BYTES + 65536
  {
    OneTextPart(2900000);
    Base64Url.EncodedLength(Undecodable(2900000));
    UndecodableTriples(2900000);
  }

  lemma OneTextPart(n: nat)
    requires n > 0
    ensures InlineAvailable(BodyDecoders(), TextMessage(n))
    ensures BodyText(BodyDecoders(), TextMessage(n)) == DecodeReplace(Undecodable(n))
  {
    hide DecodeReplace, Base64Url.Encode, Base64Url.Decode, Undecodable;
    var d, part := BodyDecoders(), TextMessage(n);
    TextIsThere(n);
    assert Preorder(part) == [part];
    assert [part][..0] == [];
    assert Mime.Plain(d, [part]) == Mime.Plain(d, [part][..0]) + [DecodedText(d, part)];
    assert Mime.Plain(d, [part]) == [DecodedText(d, part)];
  }

  lemma TextIsThere(n: nat)
    requires n > 0
    ensures Base64Url.Encode(Undecodable(n)) != "" && DecodeReplace(Undecodable(n)) != ""
    ensures Base64Url.Decode(Base64Url.Encode(Undecodable(n))) == Some(Undecodable(n))
  {
    Base64Url.RoundTrip(Undecodable(n));
    Base64Url.EncodedLength(Undecodable(n));
    UndecodableTriples(n);
  }

  // ---- the other answers ----

  /** The answers of a call that has no text to give. */
  lemma AnswersWithoutText(d: Decoders, messageId: string, message: Message, offset: int, maxBytes: int,
                           expected: Option<string>)
    ensures var r := GetMessageBody(d, messageId, message, offset, maxBytes, expected);
            if !RequiredText(messageId, 1024) || offset < 0 || offset > UPSTREAM_MAXIMUM_BYTES
               || maxBytes < 1024 || maxBytes > 65536 || (expected.Some? && !IsHistoryId(expected.value))
               || (expected.None? && offset != 0) then
              r == Failure(ArgumentsInvalid)
            else if message.Gone? then
              r == if expected.None? then Failure(ResourceNotFound)
                   else Success(Page(None, "", offset, None, false, true, false))
            else if !IsHistoryId(message.revision) then r == Failure(ProviderOutputInvalid)
            else if expected.Some? && expected.value != message.revision then
              r == Success(Page(Some(message.revision), "", offset, None, false, true, false))
            else
              && (!InlineAvailable(d, message.content) ==>
                    r == Success(Page(Some(message.revision), "", offset, None, false, false, false)))
              && (r.Success? ==> r.value.historyId == Some(message.revision) && !r.value.changed)
  {
    hide BodyText, InlineAvailable, Size, Encode, Decode, DecodeIgnore, IsHistoryId, RequiredText;
    if expected.Some? && IsHistoryId(expected.value) {
      HistoryIdIsText(expected.value);
    }
  }
}
