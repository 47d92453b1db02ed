/** `get_thread_page`: a thread read optimistically, page by page, while others write to it. */
module ThreadPages {
  import opened Wrappers
  import opened Utf8
  import opened Json
  import opened Characters
  import opened GmailText
  import opened Versions
  import opened JsonReader
  import opened Cursors
  import Mime
  import MessageBody

  /** One message as `GET /messages/{id}` returns it. `wellFormed` stands for the shape checks on its
      labels, dates and ids; `json` is the whole normalized message, of which the model fixes nothing. */
  datatype Raw = Raw(threadId: string, historyId: string, payload: Mime.Node, headersComplete: bool,
                     wellFormed: bool, json: Json)

  datatype Content = Content(ids: seq<string>, messages: map<string, Raw>)

  type Thread = Versioned<Content>

  /** A normalized message of the page. */
  datatype View = View(id: string, historyId: string, inline: MessageBody.Inline, headersComplete: bool, json: Json)

  datatype Page = Page(
    missing: bool, historyId: Option<string>, total: nat, returned: nat, messages: seq<View>,
    next: Option<string>, complete: bool, changed: bool)

  /** The moments at which one call reads: index, each message, index again. */
  datatype Reads = Reads(first: nat, fetches: seq<nat>, last: nat)

  predicate Distinct(ids: seq<string>) {
    forall i, j | 0 <= i < j < |ids| :: ids[i] != ids[j]
  }

  /** `_thread_index`, given the state it finds. */
  function ThreadIndex(thread: Thread): Result<(string, seq<string>), Code> {
    if thread.Gone? then Failure(ResourceNotFound)
    else if (exists i | 0 <= i < |thread.content.ids| :: !ProviderText(thread.content.ids[i], 1024)) then
      Failure(ProviderOutputInvalid)
    else if !Distinct(thread.content.ids) || !IsHistoryId(thread.revision) then Failure(ProviderOutputInvalid)
    else Success((thread.revision, thread.content.ids))
  }

  function ViewOf(d: Mime.Decoders, id: string, raw: Raw): View {
    View(id, raw.historyId, MessageBody.InlineBody(d, raw.payload), raw.headersComplete, raw.json)
  }

  /** One `fetch`: the request and `_message`. */
  function Fetch(d: Mime.Decoders, threadId: string, id: string, thread: Thread): Result<View, Code> {
    if thread.Gone? || id !in thread.content.messages then Failure(ResourceNotFound)
    else
      var raw := thread.content.messages[id];
      if raw.threadId != threadId || !raw.wellFormed || !IsHistoryId(raw.historyId) then
        Failure(ProviderOutputInvalid)
      else Success(ViewOf(d, id, raw))
  }

  /** `gather` over the page's ids, each read at its own moment. */
  function FetchAll(d: Mime.Decoders, threadId: string, ids: seq<string>, states: seq<Thread>, times: seq<nat>)
    : Result<seq<View>, Code>
    requires |ids| == |times| && forall i | 0 <= i < |times| :: times[i] < |states|
  {
    if ids == [] then Success([])
    else match Fetch(d, threadId, ids[0], states[times[0]]) {
      case Failure(code) => Failure(code)
      case Success(view) =>
        match FetchAll(d, threadId, ids[1..], states, times[1..]) {
          case Failure(code) => Failure(code)
          case Success(views) => Success([view] + views)
        }
    }
  }

  // ---- the byte limit ----

  function Messages(views: seq<View>): seq<Json> {
    seq(|views|, i requires 0 <= i < |views| => views[i].json)
  }

  function PageFields(threadId: string, page: Page): seq<Field> {
    [Field("schema_version", JInt(1)), Field("thread_id", JStr(threadId)),
     Field("history_id", Nullable(page.historyId)), Field("total_messages", JInt(page.total)),
     Field("returned_messages", JInt(page.returned)), Field("messages", JArr(Messages(page.messages))),
     Field("next_page_token", Nullable(page.next)), Field("complete", JBool(page.complete)),
     Field("source_changed", JBool(page.changed))]
  }

  function PageJson(threadId: string, page: Page): Json {
    JObj(PageFields(threadId, page))
  }

  predicate TrialFits(threadId: string, page: Page, views: seq<View>) {
    Size(PageJson(threadId, page.(messages := views)), SPACED) <= OUTPUT_MAXIMUM_BYTES - 8192
  }

  /** How many messages stay below the reserve, counted one by one from the front. */
  function Kept(threadId: string, page: Page, views: seq<View>, n: nat): (k: nat)
    requires n <= |views|
    ensures n <= k <= |views|
    decreases |views| - n
  {
    if n < |views| && TrialFits(threadId, page, views[..n + 1]) then Kept(threadId, page, views, n + 1) else n
  }

  /** The appending loop. */
  method KeepFitting(threadId: string, page: Page, views: seq<View>) returns (kept: seq<View>)
    ensures kept == views[..Kept(threadId, page, views, 0)]
  {
    kept := [];
    for n := 0 to |views|
      invariant kept == views[..n]
      invariant Kept(threadId, page, views, 0) == Kept(threadId, page, views, n)
    {
      assert kept + [views[n]] == views[..n + 1];
      if !TrialFits(threadId, page, kept + [views[n]]) {
        break;
      }
      kept := kept + [views[n]];
    }
  }

  lemma {:induction false} MessagesGrow(views: seq<View>, m: nat, n: nat)
    requires m <= n <= |views|
    ensures Size(JArr(Messages(views[..m])), SPACED) <= Size(JArr(Messages(views[..n])), SPACED)
  {
    hide Size;
    if m < n {
      MessagesGrow(views, m, n - 1);
      var less, more := Messages(views[..n - 1]), Messages(views[..n]);
      assert more == less + [views[n - 1].json];
      ItemsGrow(less, views[n - 1].json, SPACED);
      ArraySize(less, SPACED);
      ArraySize(more, SPACED);
    }
  }

  lemma TrialDownward(threadId: string, page: Page, views: seq<View>, m: nat, n: nat)
    requires m <= n <= |views| && TrialFits(threadId, page, views[..n])
    ensures TrialFits(threadId, page, views[..m])
  {
    hide Size;
    var low := PageFields(threadId, page.(messages := views[..m]));
    var high := PageFields(threadId, page.(messages := views[..n]));
    MessagesGrow(views, m, n);
    FieldsPointwise(low, high, SPACED);
    ObjectSizeOf(low, SPACED);
    ObjectSizeOf(high, SPACED);
  }

  lemma {:induction false} KeptFits(threadId: string, page: Page, views: seq<View>, from: nat)
    requires from <= |views|
    ensures var k := Kept(threadId, page, views, from);
            && (k > from ==> TrialFits(threadId, page, views[..k]))
            && (k < |views| ==> !TrialFits(threadId, page, views[..k + 1]))
    decreases |views| - from
  {
    hide TrialFits;
    if from < |views| && TrialFits(threadId, page, views[..from + 1]) {
      KeptFits(threadId, page, views, from + 1);
    }
  }

  /** The page leaves 8192 of its 1048576 bytes for the fields still to come. */
  predicate BelowReserve(threadId: string, page: Page) {
    Size(PageJson(threadId, page), SPACED) <= 1048576 - 8192
  }

  lemma ReserveIs(threadId: string, page: Page, views: seq<View>)
    ensures TrialFits(threadId, page, views) <==> BelowReserve(threadId, page.(messages := views))
  {
  }

  /** The messages kept are the most that stay below the reserve. */
  lemma KeptIsLongest(threadId: string, page: Page, views: seq<View>, n: nat)
    requires 1 <= n <= |views|
    ensures n <= Kept(threadId, page, views, 0) <==> BelowReserve(threadId, page.(messages := views[..n]))
  {
    ReserveIs(threadId, page, views[..n]);
    hide TrialFits, BelowReserve;
    var k := Kept(threadId, page, views, 0);
    KeptFits(threadId, page, views, 0);
    if n <= k {
      TrialDownward(threadId, page, views, n, k);
    } else if TrialFits(threadId, page, views[..n]) {
      TrialDownward(threadId, page, views, k + 1, n);
    }
  }

  // ---- one call ----

  predicate Orderly(states: seq<Thread>, moments: Reads, fetched: nat) {
    && moments.first <= moments.last < |states|
    && |moments.fetches| == fetched
    && forall i | 0 <= i < fetched :: moments.first <= moments.fetches[i] <= moments.last
  }

  function Window(ids: seq<string>, offset: int, limit: int): (w: seq<string>)
    requires 0 <= offset <= |ids| && 0 <= limit
    ensures |w| <= |ids|
  {
    if offset + limit <= |ids| then ids[offset..offset + limit] else ids[offset..]
  }

  function EmptyPage(revision: string, total: nat): Page {
    Page(false, Some(revision), total, 0, [], None, false, false)
  }

  /** The closing part of a call, once its messages are known to belong to `revision`. */
  function Assemble(account: Option<string>, threadId: string, revision: string, ids: seq<string>, offset: nat,
                    views: seq<View>): Result<Page, Code> {
    var empty := EmptyPage(revision, |ids|);
    var kept := views[..Kept(threadId, empty, views, 0)];
    if views != [] && kept == [] then Failure(ProviderOutputInvalid)
    else
      var end := offset + |kept|;
      var page := empty.(
        messages := kept, returned := |kept|,
        complete := end == |ids| && forall i | 0 <= i < |kept| :: kept[i].inline.complete && kept[i].headersComplete,
        next := if end < |ids| then Some(PageToken(account, threadId, revision, end)) else None);
      if Size(PageJson(threadId, page), COMPACT) > OUTPUT_MAXIMUM_BYTES then Failure(ProviderOutputInvalid)
      else Success(page)
  }

  lemma PageSlack(threadId: string, trial: Page, page: Page)
    requires page.historyId == trial.historyId && page.total == trial.total && page.messages == trial.messages
    requires trial.returned == 0 && page.returned <= 10 && trial.next.None? && !trial.complete
    requires page.changed == trial.changed && (page.next.Some? ==> Plain(page.next.value))
    ensures Size(PageJson(threadId, page), COMPACT)
         <= Size(PageJson(threadId, trial), SPACED) + (if page.next.Some? then |page.next.value| else 0) + 8
  {
    hide Size;
    var f, g := PageFields(threadId, page), PageFields(threadId, trial);
    var extra := if page.next.Some? then |page.next.value| else 0;
    var slack: seq<nat> := [0, 0, 0, 0, 2, 0, extra, 2, 0];
    SmallSizes(page.returned, page.next, page.complete);
    forall i | 0 <= i < 9
      ensures f[i].name == g[i].name && Size(f[i].value, SPACED) <= Size(g[i].value, SPACED) + slack[i] {
    }
    FieldsWithin(f, g, slack, SPACED);
    NineSlack(extra);
    ObjectSizeOf(f, SPACED);
    ObjectSizeOf(g, SPACED);
    CompactIsSmaller(JObj(f));
  }

  lemma NineSlack(extra: nat)
    ensures Sum([0, 0, 0, 0, 2, 0, extra, 2, 0]) == extra + 4
  {
    SumFirst(0, []);
    SumFirst(2, [0]);
    SumFirst(extra, [2, 0]);
    SumFirst(0, [extra, 2, 0]);
    SumFirst(2, [0, extra, 2, 0]);
    SumFirst(0, [2, 0, extra, 2, 0]);
    SumFirst(0, [0, 2, 0, extra, 2, 0]);
    SumFirst(0, [0, 0, 2, 0, extra, 2, 0]);
    SumFirst(0, [0, 0, 0, 2, 0, extra, 2, 0]);
  }

  lemma SumFirst(n: nat, rest: seq<nat>)
    ensures Sum([n] + rest) == n + Sum(rest)
  {
    assert ([n] + rest)[1..] == rest;
  }

  lemma SmallSizes(n: nat, token: Option<string>, flag: bool)
    requires n <= 10 && (token.Some? ==> Plain(token.value))
    ensures Size(JInt(n), SPACED) <= Size(JInt(0), SPACED) + 2
    ensures Size(JBool(flag), SPACED) <= Size(JBool(false), SPACED) + 2
    ensures Size(Nullable(token), SPACED) <= Size(JNull, SPACED) + if token.Some? then |token.value| else 0
  {
    DigitsAtMost(n);
    PieceSize(JInt(n), SPACED);
    PieceSize(JBool(flag), SPACED);
    AsciiBytes("false");
    AsciiBytes("null");
    if token.Some? {
      PieceSize(JStr(token.value), SPACED);
    }
  }

  /** The reserve does its work: with a token that fits into it, a call over a non-empty window fails
      exactly when its first message alone reaches into the reserve; the closing size check never fails. */
  lemma ReserveSuffices(account: Option<string>, threadId: string, revision: string, ids: seq<string>, offset: nat,
                        views: seq<View>)
    requires views != [] && |views| <= 10
    requires forall end | offset < end <= offset + |views| :: |PageToken(account, threadId, revision, end)| <= 8000
    ensures Assemble(account, threadId, revision, ids, offset, views).Failure? <==>
            !BelowReserve(threadId, Page(false, Some(revision), |ids|, 0, views[..1], None, false, false))
  {
    hide Assemble, PageToken, BelowReserve, Kept;
    FailsAtNone(account, threadId, revision, ids, offset, views);
    KeptIsLongest(threadId, EmptyPage(revision, |ids|), views, 1);
  }

  lemma FailsAtNone(account: Option<string>, threadId: string, revision: string, ids: seq<string>, offset: nat,
                    views: seq<View>)
    requires views != [] && |views| <= 10
    requires forall end | offset < end <= offset + |views| :: |PageToken(account, threadId, revision, end)| <= 8000
    ensures Assemble(account, threadId, revision, ids, offset, views).Failure? <==>
            Kept(threadId, EmptyPage(revision, |ids|), views, 0) == 0
  {
    hide Size, PageJson, Write, TrialFits, PageToken, Kept;
    var empty := EmptyPage(revision, |ids|);
    var k := Kept(threadId, empty, views, 0);
    KeptFits(threadId, empty, views, 0);
    if k > 0 {
      var end := offset + k;
      var page := empty.(
        messages := views[..k], returned := k,
        complete := end == |ids| && forall i | 0 <= i < k ::
                      views[..k][i].inline.complete && views[..k][i].headersComplete,
        next := if end < |ids| then Some(PageToken(account, threadId, revision, end)) else None);
      TokenIsPlain(account, threadId, revision, end);
      PageSlack(threadId, empty.(messages := views[..k]), page);
      FittingTrial(threadId, empty, views[..k]);
    }
  }

  lemma FittingTrial(threadId: string, page: Page, views: seq<View>)
    requires TrialFits(threadId, page, views)
    ensures Size(PageJson(threadId, page.(messages := views)), SPACED) <= OUTPUT_MAXIMUM_BYTES - 8192
  {
  }

  lemma TokenIsPlain(account: Option<string>, threadId: string, revision: string, offset: int)
    ensures Plain(PageToken(account, threadId, revision, offset))
  {
    WrittenRowIsPlain(ThreadRow(account, threadId, revision, offset), COMPACT_ASCII);
  }

  /** The optimistic part: read the window's messages, then look at the revision again. */
  function ReadWindow(d: Mime.Decoders, account: Option<string>, threadId: string, revision: string,
                      ids: seq<string>, offset: nat, limit: nat, states: seq<Thread>, moments: Reads)
    : Result<Page, Code>
    requires offset <= |ids| && Orderly(states, moments, |Window(ids, offset, limit)|)
  {
    var fetched := FetchAll(d, threadId, Window(ids, offset, limit), states, moments.fetches);
    var latest := ThreadIndex(states[moments.last]);
    if fetched.Failure? then Failure(fetched.error)
    else if latest.Failure? then Failure(latest.error)
    else if latest.value.0 != revision || NewerThan(fetched.value, revision) then
      Success(EmptyPage(latest.value.0, |ids|).(changed := true))
    else Assemble(account, threadId, revision, ids, offset, fetched.value)
  }

  predicate NewerThan(views: seq<View>, revision: string) {
    exists i | 0 <= i < |views| :: DigitsValue(views[i].historyId) > DigitsValue(revision)
  }

  /** The whole call. `moments.fetches` names a moment for every id of the window; a call that is
      not `Orderly` ran into the timeout. */
  function ThreadPage(d: Mime.Decoders, loads: Loads, account: Option<string>, threadId: string, maxMessages: int,
                      token: Option<string>, states: seq<Thread>, moments: Reads): Result<Page, Code>
    requires moments.first < |states|
  {
    if !RequiredText(threadId, 1024) || !(1 <= maxMessages <= 10) then Failure(ArgumentsInvalid)
    else if token.Some? && PagePosition(loads, account, token.value, threadId).Failure? then Failure(ArgumentsInvalid)
    else
      var index := ThreadIndex(states[moments.first]);
      if index == Failure(ResourceNotFound) then Success(Page(true, None, 0, 0, [], None, false, false))
      else if index.Failure? then Failure(index.error)
      else
        var (revision, ids) := index.value;
        var position := if token.Some? then PagePosition(loads, account, token.value, threadId).value
                        else (revision, 0);
        if position.0 != revision then Success(EmptyPage(revision, |ids|).(changed := true))
        else if !(0 <= position.1 <= |ids|) then Failure(ArgumentsInvalid)
        else if !Orderly(states, moments, |Window(ids, position.1, maxMessages)|) then Failure(ProviderUnavailable)
        else ReadWindow(d, account, threadId, revision, ids, position.1, maxMessages, states, moments)
  }

  /** Where a call starts reading. */
  function StartOf(loads: Loads, account: Option<string>, threadId: string, token: Option<string>): int {
    if token.Some? && PagePosition(loads, account, token.value, threadId).Success? then
      PagePosition(loads, account, token.value, threadId).value.1
    else 0
  }

  /** What a page says of a message: its own id, and of its record the revision, the inline body, the header
      verdict and the rest. */
  ghost predicate Shows(d: Mime.Decoders, id: string, raw: Raw, view: View) {
    && view.id == id && view.historyId == raw.historyId && view.headersComplete == raw.headersComplete
    && MessageBody.IsInline(d, raw.payload, view.inline) && view.json == raw.json
  }

  /** The messages with these ids, as they stood in one state of the thread. */
  ghost predicate ShowsAll(d: Mime.Decoders, content: Content, ids: seq<string>, views: seq<View>) {
    && |views| == |ids|
    && forall i | 0 <= i < |ids| :: ids[i] in content.messages && Shows(d, ids[i], content.messages[ids[i]], views[i])
  }

  lemma {:induction false} FetchedFromOneState(d: Mime.Decoders, threadId: string, ids: seq<string>,
                                               states: seq<Thread>, times: seq<nat>, at: nat)
    requires |ids| == |times| && at < |states| && states[at].Present?
    requires forall i | 0 <= i < |times| :: times[i] < |states| && states[times[i]] == states[at]
    requires FetchAll(d, threadId, ids, states, times).Success?
    ensures ShowsAll(d, states[at].content, ids, FetchAll(d, threadId, ids, states, times).value)
  {
    hide Shows, MessageBody.IsInline;
    if ids != [] {
      FetchedFromOneState(d, threadId, ids[1..], states, times[1..], at);
      assert states[times[0]] == states[at];
      FetchedShows(d, threadId, ids[0], states[at]);
    }
  }

  lemma FetchedShows(d: Mime.Decoders, threadId: string, id: string, thread: Thread)
    requires Fetch(d, threadId, id, thread).Success?
    ensures thread.Present? && id in thread.content.messages
    ensures Shows(d, id, thread.content.messages[id], Fetch(d, threadId, id, thread).value)
  {
    hide MessageBody.IsInline, MessageBody.InlineBody;
    MessageBody.InlineBodyIs(d, thread.content.messages[id].payload);
  }

  /** The messages from `offset` on are those of one state, and `next` starts right behind them. */
  ghost predicate HoldsSlice(d: Mime.Decoders, account: Option<string>, threadId: string, state: Thread, offset: int,
                             views: seq<View>, next: Option<string>) {
    && state.Present? && IsHistoryId(state.revision)
    && var content := state.content;
       && Distinct(content.ids)
       && 0 <= offset <= offset + |views| <= |content.ids|
       && ShowsAll(d, content, content.ids[offset..offset + |views|], views)
       && next == (if offset + |views| == |content.ids| then None
                   else Some(PageToken(account, threadId, state.revision, offset + |views|)))
  }

  /** What a page says of itself: how much the thread holds, how much of it is here, and whether this is all,
      each message whole. */
  predicate Counts(page: Page, offset: int, total: int) {
    && page.total == total && page.returned == |page.messages|
    && (page.complete <==>
          offset + |page.messages| == total
          && forall i | 0 <= i < |page.messages| ::
               page.messages[i].inline.complete && page.messages[i].headersComplete)
  }

  /** A window read without a change was read from one state. */
  lemma WindowIsRead(d: Mime.Decoders, account: Option<string>, threadId: string, offset: nat, limit: nat,
                     states: seq<Thread>, moments: Reads) returns (views: seq<View>)
    requires Timeline(states) && moments.first <= moments.last < |states| && limit > 0
    requires ThreadIndex(states[moments.first]).Success?
    requires offset <= |states[moments.first].content.ids|
    requires Orderly(states, moments, |Window(states[moments.first].content.ids, offset, limit)|)
    requires var page := ReadWindow(d, account, threadId, states[moments.first].revision,
                                    states[moments.first].content.ids, offset, limit, states, moments);
             page.Success? && !page.value.changed
    ensures var content := states[moments.first].content;
            && ShowsAll(d, content, Window(content.ids, offset, limit), views)
            && Assemble(account, threadId, states[moments.first].revision, content.ids, offset, views)
            == ReadWindow(d, account, threadId, states[moments.first].revision, content.ids, offset, limit, states,
                          moments)
  {
    hide Fetch, FetchAll, TrialFits, Kept, PageToken, Assemble, Shows;
    var state := states[moments.first];
    var window := Window(state.content.ids, offset, limit);
    assert states[moments.last].Present? && states[moments.last].revision == state.revision;
    forall i | 0 <= i < |window| ensures states[moments.fetches[i]] == state {
      NothingBetween(states, moments.first, moments.fetches[i], moments.last);
    }
    FetchedFromOneState(d, threadId, window, states, moments.fetches, moments.first);
    views := FetchAll(d, threadId, window, states, moments.fetches).value;
  }

  lemma IndexIs(thread: Thread)
    requires ThreadIndex(thread).Success?
    ensures thread.Present? && IsHistoryId(thread.revision) && Distinct(thread.content.ids)
    ensures ThreadIndex(thread).value == (thread.revision, thread.content.ids)
  {
  }

  lemma WindowIsSnapshot(d: Mime.Decoders, account: Option<string>, threadId: string, offset: nat, limit: nat,
                         state: Thread, views: seq<View>, page: Page)
    requires state.Present? && IsHistoryId(state.revision) && Distinct(state.content.ids)
    requires offset <= |state.content.ids| && limit > 0
    requires ShowsAll(d, state.content, Window(state.content.ids, offset, limit), views)
    requires Assemble(account, threadId, state.revision, state.content.ids, offset, views) == Success(page)
    ensures page.historyId == Some(state.revision) && Counts(page, offset, |state.content.ids|)
    ensures HoldsSlice(d, account, threadId, state, offset, page.messages, page.next)
    ensures offset < |state.content.ids| ==> page.messages != []
  {
    hide Kept, PageToken, Assemble, ShowsAll, Counts, Distinct, IsHistoryId, Window;
    SliceOfWindow(d, state.content, offset, limit, views, 0);
    var k := AssembledIs(account, threadId, state.revision, state.content.ids, offset, views);
    SliceOfWindow(d, state.content, offset, limit, views, k);
  }

  lemma SliceOfWindow(d: Mime.Decoders, content: Content, offset: nat, limit: nat, views: seq<View>, k: nat)
    requires offset <= |content.ids| && k <= |views| && ShowsAll(d, content, Window(content.ids, offset, limit), views)
    ensures offset + |views| <= |content.ids| && |views| <= limit
    ensures views == [] ==> limit == 0 || offset == |content.ids|
    ensures ShowsAll(d, content, content.ids[offset..offset + k], views[..k])
  {
    hide Shows;
    var window := Window(content.ids, offset, limit);
    assert window[..k] == content.ids[offset..offset + k];
    ShowsSome(d, content, window, views, k);
  }

  lemma AssembledIs(account: Option<string>, threadId: string, revision: string, ids: seq<string>, offset: nat,
                    views: seq<View>) returns (k: nat)
    requires Assemble(account, threadId, revision, ids, offset, views).Success? && offset + |views| <= |ids|
    ensures var page := Assemble(account, threadId, revision, ids, offset, views).value;
            && k == Kept(threadId, EmptyPage(revision, |ids|), views, 0)
            && k <= |views| && page.messages == views[..k] && (views != [] ==> k > 0)
            && page.historyId == Some(revision) && !page.missing && Counts(page, offset, |ids|) && !page.changed
            && page.next == if offset + k == |ids| then None
                            else Some(PageToken(account, threadId, revision, offset + k))
  {
    hide Kept, PageToken, Size, PageJson;
    k := Kept(threadId, EmptyPage(revision, |ids|), views, 0);
  }

  lemma ShowsSome(d: Mime.Decoders, content: Content, ids: seq<string>, views: seq<View>, k: nat)
    requires ShowsAll(d, content, ids, views) && k <= |ids|
    ensures ShowsAll(d, content, ids[..k], views[..k])
  {
    hide Shows;
  }

  /** A page that reports no change was assembled from a window of one state. */
  lemma PageIsWindow(d: Mime.Decoders, loads: Loads, account: Option<string>, threadId: string, maxMessages: int,
                     token: Option<string>, states: seq<Thread>, moments: Reads, page: Page) returns (views: seq<View>)
    requires Timeline(states) && moments.first <= moments.last < |states|
    requires ThreadPage(d, loads, account, threadId, maxMessages, token, states, moments) == Success(page)
    requires !page.changed && !page.missing
    ensures var state, offset := states[moments.first], StartOf(loads, account, threadId, token);
            && 1 <= maxMessages <= 10
            && state.Present? && IsHistoryId(state.revision) && Distinct(state.content.ids)
            && 0 <= offset <= |state.content.ids|
            && ShowsAll(d, state.content, Window(state.content.ids, offset, maxMessages), views)
            && Assemble(account, threadId, state.revision, state.content.ids, offset, views) == Success(page)
            && (token.Some? ==>
                  PagePosition(loads, account, token.value, threadId) == Success((state.revision, offset)))
  {
    hide ReadWindow, Assemble, ShowsAll, PagePosition, Timeline, Distinct;
    if ThreadIndex(states[moments.first]).Success? {
      IndexIs(states[moments.first]);
    }
    var offset := StartOf(loads, account, threadId, token);
    views := WindowIsRead(d, account, threadId, offset, maxMessages, states, moments);
  }

  /** A page that reports no change holds consecutive messages of one state of the thread, all read in
      it; at least one of them when any was left; its token, if any, starts right behind them; and it is
      complete exactly when it ends the thread and holds each message whole. */
  lemma PageIsSnapshot(d: Mime.Decoders, loads: Loads, account: Option<string>, threadId: string, maxMessages: int,
                       token: Option<string>, states: seq<Thread>, moments: Reads, page: Page)
    requires Timeline(states) && moments.first <= moments.last < |states|
    requires ThreadPage(d, loads, account, threadId, maxMessages, token, states, moments) == Success(page)
    requires !page.changed && !page.missing
    ensures var state, offset := states[moments.first], StartOf(loads, account, threadId, token);
            && page.historyId == Some(state.revision) && Counts(page, offset, |state.content.ids|)
            && HoldsSlice(d, account, threadId, state, offset, page.messages, page.next)
            && (offset < |state.content.ids| ==> page.messages != [])
            && (token.Some? ==>
                  PagePosition(loads, account, token.value, threadId) == Success((state.revision, offset)))
  {
    hide ThreadPage, Assemble, HoldsSlice, ShowsAll, Counts, Timeline, Window, Distinct, StartOf, PagePosition;
    var views := PageIsWindow(d, loads, account, threadId, maxMessages, token, states, moments, page);
    WindowIsSnapshot(d, account, threadId, StartOf(loads, account, threadId, token), maxMessages,
                     states[moments.first], views, page);
  }

  /** And it holds the most of the messages asked for that stay below the reserve. */
  lemma PageIsLongest(d: Mime.Decoders, loads: Loads, account: Option<string>, threadId: string, maxMessages: int,
                      token: Option<string>, states: seq<Thread>, moments: Reads, page: Page, views: seq<View>)
    requires Timeline(states) && moments.first <= moments.last < |states|
    requires ThreadPage(d, loads, account, threadId, maxMessages, token, states, moments) == Success(page)
    requires !page.changed && !page.missing
    requires var ids, offset := states[moments.first].content.ids, StartOf(loads, account, threadId, token);
             && 1 <= |views| <= maxMessages && 0 <= offset <= offset + |views| <= |ids|
             && ShowsAll(d, states[moments.first].content, ids[offset..offset + |views|], views)
    ensures var state := states[moments.first];
            && |page.messages| <= maxMessages
            && (|views| <= |page.messages| <==>
                BelowReserve(threadId, Page(false, Some(state.revision), |state.content.ids|, 0, views, None, false,
                                            false)))
  {
    hide ThreadPage, Assemble, ShowsAll, BelowReserve, Timeline, Window, Distinct, StartOf, PagePosition;
    var read := PageIsWindow(d, loads, account, threadId, maxMessages, token, states, moments, page);
    LongestOfWindow(d, account, threadId, states[moments.first], StartOf(loads, account, threadId, token), maxMessages,
                    read, page, views);
  }

  lemma LongestOfWindow(d: Mime.Decoders, account: Option<string>, threadId: string, state: Thread, offset: nat,
                        limit: nat, read: seq<View>, page: Page, views: seq<View>)
    requires state.Present? && 1 <= |views| <= limit && offset + |views| <= |state.content.ids|
    requires ShowsAll(d, state.content, Window(state.content.ids, offset, limit), read)
    requires ShowsAll(d, state.content, state.content.ids[offset..offset + |views|], views)
    requires Assemble(account, threadId, state.revision, state.content.ids, offset, read) == Success(page)
    ensures |page.messages| <= limit
    ensures |views| <= |page.messages| <==>
            BelowReserve(threadId, Page(false, Some(state.revision), |state.content.ids|, 0, views, None, false, false))
  {
    hide Assemble, PageToken, ShowsAll, BelowReserve, Kept, Window, Counts;
    FirstOfWindow(d, state.content, offset, limit, read, views);
    SliceOfWindow(d, state.content, offset, limit, read, 0);
    var k := AssembledIs(account, threadId, state.revision, state.content.ids, offset, read);
    KeptIsLongest(threadId, EmptyPage(state.revision, |state.content.ids|), read, |views|);
  }

  lemma FirstOfWindow(d: Mime.Decoders, content: Content, offset: nat, limit: nat, read: seq<View>, views: seq<View>)
    requires |views| <= limit && offset + |views| <= |content.ids|
    requires ShowsAll(d, content, Window(content.ids, offset, limit), read)
    requires ShowsAll(d, content, content.ids[offset..offset + |views|], views)
    ensures |views| <= |read| <= limit && read[..|views|] == views
  {
    assert |views| <= |Window(content.ids, offset, limit)| == |read|;
    hide Shows, Window, ShowsAll;
    var n := |views|;
    SliceOfWindow(d, content, offset, limit, read, n);
    ShownAlike(d, content, content.ids[offset..offset + n], read[..n], views);
  }

  // ---- whole runs ----

  datatype Call = Call(maxMessages: int, moments: Reads)

  /** What a client gets that starts without a token and follows each page's token, while the thread
      goes through `states`. The order of the calls in time plays no part. */
  ghost predicate Run(d: Mime.Decoders, loads: Loads, account: Option<string>, threadId: string,
                      states: seq<Thread>, calls: seq<Call>, pages: seq<Page>) {
    && |calls| == |pages|
    && (pages != [] ==>
          var n := |pages| - 1;
          && Run(d, loads, account, threadId, states, calls[..n], pages[..n])
          && (n > 0 ==> pages[n - 1].next.Some?)
          && calls[n].moments.first <= calls[n].moments.last < |states|
          && ThreadPage(d, loads, account, threadId, calls[n].maxMessages, if n == 0 then None else pages[n - 1].next,
                        states, calls[n].moments) == Success(pages[n]))
  }

  function AllMessages(pages: seq<Page>): seq<View> {
    if pages == [] then [] else AllMessages(pages[..|pages| - 1]) + pages[|pages| - 1].messages
  }

  /** No page of the run reports a change. */
  predicate Steady(pages: seq<Page>) {
    pages == [] || (var last := pages[|pages| - 1];
                    !last.changed && !last.missing && Steady(pages[..|pages| - 1]))
  }

  /** Every page of the run names this revision. */
  predicate AllAt(pages: seq<Page>, revision: string) {
    pages == [] || (pages[|pages| - 1].historyId == Some(revision) && AllAt(pages[..|pages| - 1], revision))
  }

  /** The transport's bound on a response keeps every thread index within what a cursor may name. */
  predicate Deliverable(states: seq<Thread>) {
    forall i | 0 <= i < |states| && states[i].Present? :: |states[i].content.ids| <= UPSTREAM_MAXIMUM_BYTES
  }

  /** After any number of pages without a change, the client holds the first messages of one revision. */
  lemma {:induction false} RunIsPrefix(d: Mime.Decoders, loads: Loads, account: Option<string>, threadId: string,
                                       states: seq<Thread>, calls: seq<Call>, pages: seq<Page>) returns (at: nat)
    requires Timeline(states) && ReadsBack(loads) && Deliverable(states)
    requires Run(d, loads, account, threadId, states, calls, pages) && pages != [] && Steady(pages)
    ensures at < |states|
    ensures HoldsSlice(d, account, threadId, states[at], 0, AllMessages(pages), pages[|pages| - 1].next)
    ensures AllAt(pages, states[at].revision)
    ensures |pages| <= |AllMessages(pages)| + 1
  {
    var n := |pages| - 1;
    if n == 0 {
      at := calls[0].moments.first;
      FirstPage(d, loads, account, threadId, states, calls[0], pages[0]);
      assert AllMessages(pages) == [] + pages[0].messages == pages[0].messages;
    } else {
      var before := pages[..n];
      at := RunIsPrefix(d, loads, account, threadId, states, calls[..n], before);
      assert before[|before| - 1] == pages[n - 1];
      NextPageExtends(d, loads, account, threadId, states, at, AllMessages(before), pages[n - 1].next,
                      calls[n], pages[n]);
    }
  }

  lemma FirstPage(d: Mime.Decoders, loads: Loads, account: Option<string>, threadId: string,
                  states: seq<Thread>, call: Call, page: Page)
    requires Timeline(states) && call.moments.first <= call.moments.last < |states| && !page.changed && !page.missing
    requires ThreadPage(d, loads, account, threadId, call.maxMessages, None, states, call.moments) == Success(page)
    ensures page.historyId == Some(states[call.moments.first].revision)
    ensures HoldsSlice(d, account, threadId, states[call.moments.first], 0, page.messages, page.next)
  {
    PageIsSnapshot(d, loads, account, threadId, call.maxMessages, None, states, call.moments, page);
  }

  /** A page asked for with the token behind `got` adds the next messages of the same state. */
  lemma NextPageExtends(d: Mime.Decoders, loads: Loads, account: Option<string>, threadId: string,
                        states: seq<Thread>, at: nat, got: seq<View>, token: Option<string>, call: Call, page: Page)
    requires Timeline(states) && ReadsBack(loads) && Deliverable(states) && at < |states|
    requires token.Some? && HoldsSlice(d, account, threadId, states[at], 0, got, token)
    requires call.moments.first <= call.moments.last < |states| && !page.changed && !page.missing
    requires ThreadPage(d, loads, account, threadId, call.maxMessages, token, states, call.moments) == Success(page)
    ensures page.historyId == Some(states[at].revision) && page.messages != []
    ensures HoldsSlice(d, account, threadId, states[at], 0, got + page.messages, page.next)
  {
    hide ThreadPage, PagePosition, PageToken, ShowsAll, Distinct, Size;
    ThreadCursorRoundTrip(loads, account, threadId, states[at].revision, |got|);
    PageIsSnapshot(d, loads, account, threadId, call.maxMessages, token, states, call.moments, page);
    assert StartOf(loads, account, threadId, token) == |got|;
    RevisionPins(states, at, call.moments.first);
    Extends(d, states[at].content, got, page.messages);
  }

  lemma Extends(d: Mime.Decoders, content: Content, got: seq<View>, more: seq<View>)
    requires |got| + |more| <= |content.ids|
    requires ShowsAll(d, content, content.ids[0..|got|], got)
    requires ShowsAll(d, content, content.ids[|got|..|got| + |more|], more)
    ensures ShowsAll(d, content, content.ids[0..|got + more|], got + more)
  {
    hide Shows;
    var ids, m := content.ids, |got|;
    assert ids[0..m + |more|] == ids[0..m] + ids[m..m + |more|];
  }

  /** Thread pages are one snapshot. Following the tokens from the first page to the end without any
      `source_changed` gives exactly the message ids of one revision, in order and once each, every
      body as it stood in that revision; it takes at most one page per message, plus one. */
  lemma PagesAreOneSnapshot(d: Mime.Decoders, loads: Loads, account: Option<string>, threadId: string,
                            states: seq<Thread>, calls: seq<Call>, pages: seq<Page>) returns (at: nat)
    requires Timeline(states) && ReadsBack(loads) && Deliverable(states)
    requires Run(d, loads, account, threadId, states, calls, pages) && pages != [] && Steady(pages)
    requires pages[|pages| - 1].next.None?
    ensures at < |states| && states[at].Present?
    ensures var content := states[at].content;
            && Distinct(content.ids)
            && ShowsAll(d, content, content.ids, AllMessages(pages))
            && |pages| <= |content.ids| + 1
    ensures AllAt(pages, states[at].revision)
  {
    at := RunIsPrefix(d, loads, account, threadId, states, calls, pages);
    var ids := states[at].content.ids;
    assert ids[0..|ids|] == ids;
  }

  /** The other half: a page whose thread was written between the two index moments, or since the token
      was minted, always says so and carries no message. */
  lemma WrittenThreadIsReported(d: Mime.Decoders, loads: Loads, account: Option<string>, threadId: string,
                                maxMessages: int, token: Option<string>, states: seq<Thread>, moments: Reads)
    requires Timeline(states) && moments.first <= moments.last < |states|
    requires states[moments.first] != states[moments.last]
    requires ThreadPage(d, loads, account, threadId, maxMessages, token, states, moments).Success?
    ensures var page := ThreadPage(d, loads, account, threadId, maxMessages, token, states, moments).value;
            (page.changed || page.missing) && page.messages == [] && page.next.None? && !page.complete
  {
    hide FetchAll, Assemble, NewerThan, PagePosition, Distinct, Window;
    if states[moments.first].Present? && states[moments.last].Present?
       && states[moments.first].revision == states[moments.last].revision {
      RevisionPins(states, moments.first, moments.last);
    }
  }

  // ---- when a call delivers ----

  /** An index that a call accepts: texts, all distinct, at a well-formed revision. */
  predicate GoodIndex(thread: Thread) {
    && thread.Present? && IsHistoryId(thread.revision) && Distinct(thread.content.ids)
    && forall i | 0 <= i < |thread.content.ids| :: ProviderText(thread.content.ids[i], 1024)
  }

  /** A message that a call can read: this thread's, and well-formed. */
  predicate Readable(threadId: string, thread: Thread, id: string) {
    && thread.Present? && id in thread.content.messages
    && var raw := thread.content.messages[id];
       raw.threadId == threadId && raw.wellFormed && IsHistoryId(raw.historyId)
  }

  predicate NotNewer(thread: Thread, id: string, revision: string)
    requires thread.Present? && id in thread.content.messages
  {
    DigitsValue(thread.content.messages[id].historyId) <= DigitsValue(revision)
  }

  /** The first message that is not as it should be, and what is wrong with it. */
  ghost predicate Fails(threadId: string, ids: seq<string>, states: seq<Thread>, times: seq<nat>, code: Code)
    requires |ids| == |times| && forall i | 0 <= i < |times| :: times[i] < |states|
  {
    exists i | 0 <= i < |ids| ::
      && !Readable(threadId, states[times[i]], ids[i])
      && (forall j | 0 <= j < i :: Readable(threadId, states[times[j]], ids[j]))
      && code == if states[times[i]].Gone? || ids[i] !in states[times[i]].content.messages then ResourceNotFound
                 else ProviderOutputInvalid
  }

  ghost predicate NoneNewer(ids: seq<string>, states: seq<Thread>, times: seq<nat>, threadId: string, revision: string)
    requires |ids| == |times| && forall i | 0 <= i < |times| :: times[i] < |states|
  {
    forall i | 0 <= i < |ids| && Readable(threadId, states[times[i]], ids[i]) ::
      NotNewer(states[times[i]], ids[i], revision)
  }

  /** The messages are fetched exactly when each can be read at its moment. */
  lemma {:induction false} FetchedIff(d: Mime.Decoders, threadId: string, ids: seq<string>, states: seq<Thread>,
                                      times: seq<nat>, revision: string)
    requires |ids| == |times| && forall i | 0 <= i < |times| :: times[i] < |states|
    ensures var fetched := FetchAll(d, threadId, ids, states, times);
            && (fetched.Success? <==> forall i | 0 <= i < |ids| :: Readable(threadId, states[times[i]], ids[i]))
            && (fetched.Success? ==> |fetched.value| == |ids|
                                     && (NewerThan(fetched.value, revision)
                                         <==> !NoneNewer(ids, states, times, threadId, revision)))
            && (fetched.Failure? ==> Fails(threadId, ids, states, times, fetched.error))
  {
    hide DigitsValue, MessageBody.InlineBody, IsHistoryId;
    if ids != [] {
      FetchedIff(d, threadId, ids[1..], states, times[1..], revision);
      var first := Fetch(d, threadId, ids[0], states[times[0]]);
      var rest := FetchAll(d, threadId, ids[1..], states, times[1..]);
      if first.Success? && rest.Success? {
        assert FetchAll(d, threadId, ids, states, times).value == [first.value] + rest.value;
        NewerFirst(d, threadId, ids, states, times, first.value, rest.value, revision);
      }
      if first.Success? && rest.Failure? {
        FailsLater(threadId, ids, states, times, rest.error);
      }
    }
  }

  lemma FailsLater(threadId: string, ids: seq<string>, states: seq<Thread>, times: seq<nat>, code: Code)
    requires |ids| == |times| && ids != [] && forall i | 0 <= i < |times| :: times[i] < |states|
    requires Readable(threadId, states[times[0]], ids[0]) && Fails(threadId, ids[1..], states, times[1..], code)
    ensures Fails(threadId, ids, states, times, code)
  {
    hide Readable;
    var i :| 0 <= i < |ids[1..]|
             && !Readable(threadId, states[times[1..][i]], ids[1..][i])
             && (forall j | 0 <= j < i :: Readable(threadId, states[times[1..][j]], ids[1..][j]))
             && code == if states[times[1..][i]].Gone? || ids[1..][i] !in states[times[1..][i]].content.messages
                        then ResourceNotFound else ProviderOutputInvalid;
    forall j | 0 <= j < i + 1 ensures Readable(threadId, states[times[j]], ids[j]) {
      assert j > 0 ==> ids[1..][j - 1] == ids[j] && times[1..][j - 1] == times[j];
    }
    assert !Readable(threadId, states[times[i + 1]], ids[i + 1]);
  }

  lemma NewerFirst(d: Mime.Decoders, threadId: string, ids: seq<string>, states: seq<Thread>, times: seq<nat>,
                   first: View, rest: seq<View>, revision: string)
    requires |ids| == |times| == |rest| + 1 && forall i | 0 <= i < |times| :: times[i] < |states|
    requires Fetch(d, threadId, ids[0], states[times[0]]) == Success(first)
    requires NewerThan(rest, revision) <==> !NoneNewer(ids[1..], states, times[1..], threadId, revision)
    ensures NewerThan([first] + rest, revision) <==> !NoneNewer(ids, states, times, threadId, revision)
  {
    hide DigitsValue, MessageBody.InlineBody, IsHistoryId, NewerThan, NoneNewer;
    NewerBehind(first, rest, revision);
    NoneNewerBehind(ids, states, times, threadId, revision);
  }

  lemma NewerBehind(first: View, rest: seq<View>, revision: string)
    ensures NewerThan([first] + rest, revision)
       <==> DigitsValue(first.historyId) > DigitsValue(revision) || NewerThan(rest, revision)
  {
    hide DigitsValue;
    var all := [first] + rest;
    forall i | 0 <= i < |rest| ensures all[i + 1] == rest[i] {
    }
    assert all[0] == first;
  }

  lemma NoneNewerBehind(ids: seq<string>, states: seq<Thread>, times: seq<nat>, threadId: string, revision: string)
    requires |ids| == |times| && ids != [] && forall i | 0 <= i < |times| :: times[i] < |states|
    ensures NoneNewer(ids, states, times, threadId, revision)
       <==> (Readable(threadId, states[times[0]], ids[0]) ==> NotNewer(states[times[0]], ids[0], revision))
            && NoneNewer(ids[1..], states, times[1..], threadId, revision)
  {
    hide DigitsValue, IsHistoryId;
    forall i | 0 <= i < |ids| - 1 ensures ids[1..][i] == ids[i + 1] && times[1..][i] == times[i + 1] {
    }
    if NoneNewer(ids[1..], states, times[1..], threadId, revision) {
      forall i | 0 < i < |ids| && Readable(threadId, states[times[i]], ids[i])
        ensures NotNewer(states[times[i]], ids[i], revision) {
        assert Readable(threadId, states[times[1..][i - 1]], ids[1..][i - 1]);
      }
    }
  }

  /** The answers of a call that gets to read messages, short of how many it delivers. */
  lemma AnswersWithMessages(d: Mime.Decoders, loads: Loads, account: Option<string>, threadId: string,
                            maxMessages: int, token: Option<string>, states: seq<Thread>, moments: Reads, offset: nat,
                            asked: seq<string>)
    requires RequiredText(threadId, 1024) && 1 <= maxMessages <= 10 && moments.first < |states|
    requires GoodIndex(states[moments.first])
    requires var state := states[moments.first];
             && offset <= |state.content.ids|
             && (if token.None? then offset == 0
                 else PagePosition(loads, account, token.value, threadId) == Success((state.revision, offset)))
             && offset + |asked| <= |state.content.ids| && asked == state.content.ids[offset..offset + |asked|]
             && |asked| <= maxMessages && (|asked| < maxMessages ==> offset + |asked| == |state.content.ids|)
    ensures var r := ThreadPage(d, loads, account, threadId, maxMessages, token, states, moments);
            var revision, total := states[moments.first].revision, |states[moments.first].content.ids|;
            if !Orderly(states, moments, |asked|) then r == Failure(ProviderUnavailable)
            else
              var last := states[moments.last];
              if exists i | 0 <= i < |asked| :: !Readable(threadId, states[moments.fetches[i]], asked[i]) then
                r.Failure? && Fails(threadId, asked, states, moments.fetches, r.error)
              else if last.Gone? then r == Failure(ResourceNotFound)
              else if !GoodIndex(last) then r == Failure(ProviderOutputInvalid)
              else if last.revision != revision
                   || (exists i | 0 <= i < |asked| :: !NotNewer(states[moments.fetches[i]], asked[i], revision)) then
                r == Success(Page(false, Some(last.revision), total, 0, [], None, false, true))
              else if r.Success? then !r.value.changed && !r.value.missing
              else r.error == ProviderOutputInvalid
  {
    hide FetchAll, Readable, PageToken, PagePosition, TrialFits, NewerThan, NotNewer, Distinct, Size, PageJson, Kept,
         Fails, RequiredText, IsHistoryId, ProviderText;
    assert asked == Window(states[moments.first].content.ids, offset, maxMessages);
    if Orderly(states, moments, |asked|) {
      FetchedIff(d, threadId, asked, states, moments.fetches, states[moments.first].revision);
    }
  }

  /** A thread that nobody writes to is delivered: while it stays in one good state, a call over messages that
      are left never says that it changed, and fails exactly when the first of them alone is over the limit. */
  lemma QuietThreadIsDelivered(d: Mime.Decoders, loads: Loads, account: Option<string>, threadId: string,
                               maxMessages: int, token: Option<string>, states: seq<Thread>, moments: Reads,
                               offset: nat, views: seq<View>)
    requires RequiredText(threadId, 1024) && 1 <= maxMessages <= 10 && moments.first < |states|
    requires GoodIndex(states[moments.first]) && offset < |states[moments.first].content.ids|
    requires var state := states[moments.first];
             var window := Window(state.content.ids, offset, maxMessages);
             && (if token.None? then offset == 0
                 else PagePosition(loads, account, token.value, threadId) == Success((state.revision, offset)))
             && Orderly(states, moments, |window|) && states[moments.last] == state
             && (forall i | 0 <= i < |window| ::
                   && states[moments.fetches[i]] == state && Readable(threadId, state, window[i])
                   && NotNewer(state, window[i], state.revision))
             && ShowsAll(d, state.content, window[..1], views)
             && forall end | offset < end <= offset + |window| ::
                  |PageToken(account, threadId, state.revision, end)| <= 8000
    ensures var r := ThreadPage(d, loads, account, threadId, maxMessages, token, states, moments);
            var state := states[moments.first];
            && (r.Success? ==> !r.value.changed && !r.value.missing)
            && (r.Failure? ==> r.error == ProviderOutputInvalid)
            && (r.Success? <==>
                BelowReserve(threadId, Page(false, Some(state.revision), |state.content.ids|, 0, views, None, false,
                                            false)))
  {
    hide FetchAll, Readable, NotNewer, PageToken, PagePosition, TrialFits, ShowsAll, NewerThan, Distinct, Size,
         PageJson, BelowReserve;
    var state := states[moments.first];
    var window := Window(state.content.ids, offset, maxMessages);
    FetchedIff(d, threadId, window, states, moments.fetches, state.revision);
    var fetched := FetchAll(d, threadId, window, states, moments.fetches).value;
    FetchedFromOneState(d, threadId, window, states, moments.fetches, moments.first);
    ShowsSome(d, state.content, window, fetched, 1);
    ShownAlike(d, state.content, window[..1], fetched[..1], views);
    ReserveSuffices(account, threadId, state.revision, state.content.ids, offset, fetched);
  }

  lemma ShownAlike(d: Mime.Decoders, content: Content, ids: seq<string>, a: seq<View>, b: seq<View>)
    requires ShowsAll(d, content, ids, a) && ShowsAll(d, content, ids, b)
    ensures a == b
  {
    hide MessageBody.IsInline;
    forall i | 0 <= i < |ids| ensures a[i] == b[i] {
      assert Shows(d, ids[i], content.messages[ids[i]], a[i]) && Shows(d, ids[i], content.messages[ids[i]], b[i]);
      MessageBody.OneInline(d, content.messages[ids[i]].payload, a[i].inline, b[i].inline);
    }
  }

  /** The answers of a call that reads no message. */
  lemma AnswersWithoutMessages(d: Mime.Decoders, loads: Loads, account: Option<string>, threadId: string,
                               maxMessages: int, token: Option<string>, states: seq<Thread>, moments: Reads)
    requires moments.first < |states|
    ensures var r := ThreadPage(d, loads, account, threadId, maxMessages, token, states, moments);
            var thread := states[moments.first];
            var position := if token.Some? then PagePosition(loads, account, token.value, threadId)
                            else Success((if thread.Present? then thread.revision else "", 0));
            if !RequiredText(threadId, 1024) || maxMessages < 1 || maxMessages > 10 || position.Failure? then
              r == Failure(ArgumentsInvalid)
            else if thread.Gone? then
              r == Success(Page(true, None, 0, 0, [], None, false, false))
            else if !GoodIndex(thread) then r == Failure(ProviderOutputInvalid)
            else if position.value.0 != thread.revision then
              r == Success(Page(false, Some(thread.revision), |thread.content.ids|, 0, [], None, false, true))
            else position.value.1 < 0 || position.value.1 > |thread.content.ids| ==> r == Failure(ArgumentsInvalid)
  {
    hide PagePosition, RequiredText, ReadWindow, Distinct;
  }
}
