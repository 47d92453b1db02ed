/** `sync_changes` as a whole, and runs of it that follow `next_page_token`. */
module HistorySync {
  import opened Wrappers
  import opened Json
  import opened Characters
  import opened GmailText
  import opened Cursors
  import opened HistoryPages

  /** The provider, asked for one start id: `maxResults` and `pageToken` to an answer. */
  type Provider = (int, Option<string>) -> Response

  datatype Setting = Setting(account: Option<string>, digest: Digest, loads: Loads, start: string)

  const RESYNC := Synced(true, None, None, [])

  function CutAt(s: Setting, at: HistoryPosition, p: Provided): Cut
    requires at.offset >= 0
  {
    Cut(s.account, s.start, at.page, at.limit, at.offset, s.digest(p.changes, p.next), p)
  }

  /** Everything after the provider's answer has been flattened. */
  function Deliver(s: Setting, at: HistoryPosition, maxResults: int, p: Provided): Result<Batch, Code>
    requires at.offset >= 0 && maxResults >= 1 && (at.fingerprint.None? ==> at.offset == 0)
  {
    if at.fingerprint.Some? && (at.fingerprint.value != s.digest(p.changes, p.next) || at.offset >= |p.changes|) then
      Success(RESYNC)
    else match CutPage(CutAt(s, at, p), maxResults) {
      case None => Failure(ProviderOutputInvalid)
      case Some(batch) => Success(batch)
    }
  }

  function SyncChanges(s: Setting, provider: Provider, maxResults: int, token: Option<string>): Result<Batch, Code> {
    if !RequiredText(s.start, 20) || !IsHistoryId(s.start) || !(1 <= maxResults <= 100) then Failure(ArgumentsInvalid)
    else match ReadHistoryPosition(s.loads, s.account, token, s.start, maxResults) {
      case Failure(code) => Failure(code)
      case Success(at) =>
        match provider(at.limit, at.page) {
          case Absent => Success(RESYNC)
          case Refused(code) => Failure(code)
          case Answer(fields) =>
            match Normalize(fields, at.limit) {
              case None => Failure(ProviderOutputInvalid)
              case Some(p) => Deliver(s, at, maxResults, p)
            }
        }
    }
  }

  /** The transport reads at most `UPSTREAM_MAXIMUM_BYTES`, and every change takes some of them. */
  ghost predicate Deliverable(provider: Provider) {
    forall limit, page | provider(limit, page).Answer? ::
      var p := Normalize(provider(limit, page).fields, limit); p.Some? ==> |p.value.changes| <= UPSTREAM_MAXIMUM_BYTES
  }

  ghost predicate Lawful(s: Setting) {
    ReadsBack(s.loads) && HexDigest(s.digest) && (s.account.Some? ==> |s.account.value| <= 32)
  }

  lemma CutIsValid(s: Setting, provider: Provider, maxResults: int, token: Option<string>, at: HistoryPosition,
                   p: Provided)
    requires Lawful(s) && Deliverable(provider) && IsHistoryId(s.start) && 1 <= maxResults <= 100
    requires ReadHistoryPosition(s.loads, s.account, token, s.start, maxResults) == Success(at)
    requires provider(at.limit, at.page).Answer?
    requires Normalize(provider(at.limit, at.page).fields, at.limit) == Some(p)
    ensures at.offset >= 0 && (at.fingerprint.None? ==> at.offset == 0)
    ensures at.offset <= |p.changes| ==> ValidCut(CutAt(s, at, p))
  {
  }

  /** The call with its loops: the nested flattening, then the binary search. */
  method SyncChangesLoop(s: Setting, provider: Provider, maxResults: int, token: Option<string>)
    returns (r: Result<Batch, Code>)
    requires Lawful(s) && Deliverable(provider)
    ensures r == SyncChanges(s, provider, maxResults, token)
  {
    if !RequiredText(s.start, 20) || !IsHistoryId(s.start) || !(1 <= maxResults <= 100) {
      return Failure(ArgumentsInvalid);
    }
    var position := ReadHistoryPosition(s.loads, s.account, token, s.start, maxResults);
    if position.Failure? {
      return Failure(position.error);
    }
    var at := position.value;
    var response := provider(at.limit, at.page);
    if response.Absent? {
      return Success(RESYNC);
    }
    if response.Refused? {
      return Failure(response.code);
    }
    var fields := response.fields;
    var historyId, records := HistoryIdAt(fields, "historyId"), ListAt(fields, "history");
    if historyId.None? {
      return Failure(ProviderOutputInvalid);
    }
    var next := TextAt(fields, "nextPageToken", 4096);
    if Get(fields, "nextPageToken").Some? && next.None? {
      return Failure(ProviderOutputInvalid);
    }
    if records.None? || |records.value| > at.limit {
      return Failure(ProviderOutputInvalid);
    }
    var changes := FlattenLoop(records.value);
    if changes.None? {
      return Failure(ProviderOutputInvalid);
    }
    var p := Provided(historyId.value, next, changes.value);
    assert Normalize(fields, at.limit) == Some(p);
    CutIsValid(s, provider, maxResults, token, at, p);
    var fingerprint := s.digest(p.changes, p.next);
    if at.fingerprint.Some? && (at.fingerprint.value != fingerprint || at.offset >= |p.changes|) {
      return Success(RESYNC);
    }
    var batch := CutPageLoop(CutAt(s, at, p), maxResults);
    r := if batch.None? then Failure(ProviderOutputInvalid) else Success(batch.value);
  }

  /** What a call delivers, whatever the limit: the next changes of the page at its position, at least
      one while any is left, and a token that stands right behind them. */
  lemma DeliversSlice(s: Setting, provider: Provider, maxResults: int, token: Option<string>, at: HistoryPosition,
                      p: Provided, batch: Batch) returns (end: nat)
    requires Lawful(s) && Deliverable(provider)
    requires ReadHistoryPosition(s.loads, s.account, token, s.start, maxResults) == Success(at)
    requires provider(at.limit, at.page).Answer?
    requires Normalize(provider(at.limit, at.page).fields, at.limit) == Some(p)
    requires SyncChanges(s, provider, maxResults, token) == Success(batch) && !batch.resync
    ensures 0 <= at.offset <= end <= |p.changes| && (at.offset < |p.changes| ==> at.offset < end)
    ensures batch.changes == p.changes[at.offset..end]
    ensures batch.next == Behind(s, at.page, at.limit, p, end)
  {
    hide Normalize, CutPage, HistoryToken, ReadHistoryPosition, ValidCut;
    CutIsValid(s, provider, maxResults, token, at, p);
    var c := CutAt(s, at, p);
    var n := CutIsPage(c, maxResults);
    end := at.offset + n;
  }

  /** The token that stands behind the first `end` changes of a provider page. */
  function Behind(s: Setting, page: Option<string>, limit: int, p: Provided, end: nat): Option<string> {
    if end < |p.changes| then Some(HistoryToken(s.account, s.start, page, limit, end, s.digest(p.changes, p.next)))
    else p.next
  }

  /** Which answer a call gives. It asks for a new synchronization exactly where the provider no longer knows the
      start, or where the page a cursor was cut from is another one now; it passes the provider's own refusals
      on; and it fails where the answer, or the position, does not read or the page cannot be cut. */
  lemma AnswerIs(s: Setting, provider: Provider, maxResults: int, token: Option<string>)
    requires Lawful(s) && Deliverable(provider)
    ensures var r := SyncChanges(s, provider, maxResults, token);
            var position := ReadHistoryPosition(s.loads, s.account, token, s.start, maxResults);
            if !IsHistoryId(s.start) || maxResults < 1 || maxResults > 100 || position.Failure? then
              r == Failure(ArgumentsInvalid)
            else
              var at := position.value;
              match provider(at.limit, at.page)
              case Absent => r == Success(Synced(true, None, None, []))
              case Refused(code) => r == Failure(code)
              case Answer(fields) =>
                if Normalize(fields, at.limit).None? then r == Failure(ProviderOutputInvalid)
                else
                  var p := Normalize(fields, at.limit).value;
                  var moved := at.fingerprint.Some?
                               && (at.fingerprint.value != s.digest(p.changes, p.next) || at.offset >= |p.changes|);
                  if moved then r == Success(Synced(true, None, None, []))
                  else
                    && (r.Success? ==> !r.value.resync && r.value.historyId == Some(p.historyId))
                    && (r.Failure? <==> r == Failure(ProviderOutputInvalid))
                    && (r.Failure? <==> at.offset < |p.changes| && !Fits(CutAt(s, at, p), 1)
                                        && !Fits(CutAt(s, at, p), Asked(maxResults, |p.changes| - at.offset)))
  {
    hide Normalize, Fits, Mintable, ReadHistoryPosition, LargestFit;
    if IsHistoryId(s.start) {
      HistoryIdIsText(s.start);
    }
    if IsHistoryId(s.start) && 1 <= maxResults <= 100 {
      HistoryPositionIs(s.loads, s.account, token, s.start, maxResults);
      var position := ReadHistoryPosition(s.loads, s.account, token, s.start, maxResults);
      if position.Success? && provider(position.value.limit, position.value.page).Answer? {
        var at := position.value;
        var answer := Normalize(provider(at.limit, at.page).fields, at.limit);
        if answer.Some? && at.offset <= |answer.value.changes| {
          CutIsValid(s, provider, maxResults, token, at, answer.value);
          CutIsLongest(CutAt(s, at, answer.value), maxResults);
        }
      }
    }
  }

  function Asked(limit: int, left: nat): nat
    requires limit >= 1
  {
    if limit <= left then limit else left
  }

  // ---- a provider page that changes while it is partly delivered ----

  /** A continuation delivers exactly when the provider still shows the page it was cut from: any other
      page whose digest does not collide gives no changes and asks for a new synchronization. */
  lemma ContinuationPinsPage(s: Setting, provider: Provider, maxResults: int, page: Option<string>, limit: int,
                             offset: nat, was: Provided, now: Provided)
    requires Lawful(s) && Deliverable(provider) && IsHistoryId(s.start) && 1 <= maxResults <= 100
    requires 1 <= limit <= 100 && (page.Some? ==> RequiredText(page.value, 4096))
    requires 1 <= offset < |was.changes| <= UPSTREAM_MAXIMUM_BYTES
    requires provider(limit, page).Answer? && Normalize(provider(limit, page).fields, limit) == Some(now)
    requires s.digest(was.changes, was.next) == s.digest(now.changes, now.next)
             ==> was.changes == now.changes && was.next == now.next
    ensures var r := SyncChanges(s, provider, maxResults, Behind(s, page, limit, was, offset));
            if was.changes == now.changes && was.next == now.next then
              r.Success? ==> !r.value.resync && r.value.changes != []
            else r == Success(RESYNC)
  {
    var fingerprint := s.digest(was.changes, was.next);
    var token := Behind(s, page, limit, was, offset);
    HistoryIdIsText(s.start);
    HistoryCursorRoundTrip(s.loads, s.account, s.start, page, limit, offset, fingerprint, maxResults);
    var at := HistoryPosition(page, limit, offset, Some(fingerprint));
    if was.changes == now.changes && was.next == now.next {
      CutIsValid(s, provider, maxResults, token, at, now);
      CutIsLongest(CutAt(s, at, now), maxResults);
    }
  }

  // ---- runs against a provider that stays the same ----

  /** One provider page a run reads from, with the `maxResults` in force when it was first asked for. */
  datatype Visit = Visit(page: Option<string>, limit: int, provided: Provided)

  predicate Answers(provider: Provider, v: Visit) {
    && provider(v.limit, v.page).Answer?
    && Normalize(provider(v.limit, v.page).fields, v.limit) == Some(v.provided)
    && 1 <= v.limit <= 100
    && (v.page.Some? ==> RequiredText(v.page.value, 4096))
  }

  /** The provider's own pages: the first asked for without a token, each later one with the token the
      page before it named. */
  predicate Chain(provider: Provider, visits: seq<Visit>) {
    visits != [] ==>
      var n := |visits| - 1;
      && Answers(provider, visits[n])
      && Chain(provider, visits[..n])
      && visits[n].page == Named(visits[..n])
      && (n > 0 ==> visits[n].page.Some?)
  }

  /** The token the provider has named so far. */
  function Named(visits: seq<Visit>): Option<string> {
    if visits == [] then None else visits[|visits| - 1].provided.next
  }

  function Pages(visits: seq<Visit>): seq<Change> {
    if visits == [] then [] else Pages(visits[..|visits| - 1]) + visits[|visits| - 1].provided.changes
  }

  /** One call per change, and one for a page without changes. */
  function Weight(visits: seq<Visit>): nat {
    if visits == [] then 0
    else
      var here := |visits[|visits| - 1].provided.changes|;
      Weight(visits[..|visits| - 1]) + if here == 0 then 1 else here
  }

  /** A client that starts without a token and follows each `next_page_token`, asking for any
      `max_results` it likes each time. */
  ghost predicate Run(s: Setting, provider: Provider, limits: seq<int>, batches: seq<Batch>) {
    && |limits| == |batches|
    && (batches != [] ==>
          var n := |batches| - 1;
          && Run(s, provider, limits[..n], batches[..n])
          && (n > 0 ==> batches[n - 1].next.Some?)
          && SyncChanges(s, provider, limits[n], Followed(batches[..n])) == Success(batches[n])
          && !batches[n].resync)
  }

  function Followed(batches: seq<Batch>): Option<string> {
    if batches == [] then None else batches[|batches| - 1].next
  }

  function Delivered(batches: seq<Batch>): seq<Change> {
    if batches == [] then [] else Delivered(batches[..|batches| - 1]) + batches[|batches| - 1].changes
  }

  /** The provider's tokens are never taken for local cursors. */
  ghost predicate Unmarked(provider: Provider) {
    forall v | Answers(provider, v) ::
      v.provided.next.Some? ==> !(HISTORY_CURSOR_PREFIX <= v.provided.next.value)
  }

  /** What holds between two calls: `got` is everything before position `end` of the page last visited,
      and `next` leads to exactly that position. */
  ghost predicate Stands(s: Setting, provider: Provider, visits: seq<Visit>, end: nat, got: seq<Change>,
                         next: Option<string>, calls: nat) {
    && visits != [] && Chain(provider, visits)
    && var v := visits[|visits| - 1];
       && end <= |v.provided.changes| && (v.provided.changes != [] ==> end > 0)
       && got + v.provided.changes[end..] == Pages(visits)
       && next == Behind(s, v.page, v.limit, v.provided, end)
       && calls + (|v.provided.changes| - end) <= Weight(visits)
  }

  /** A call that opens a provider page delivers its first changes. */
  lemma OpensPage(s: Setting, provider: Provider, before: seq<Visit>, maxResults: int, batch: Batch,
                  got: seq<Change>, calls: nat) returns (visits: seq<Visit>, end: nat)
    requires Lawful(s) && Deliverable(provider) && Chain(provider, before)
    requires before != [] ==> Named(before).Some? && !(HISTORY_CURSOR_PREFIX <= Named(before).value)
    requires got == Pages(before) && calls <= Weight(before)
    requires SyncChanges(s, provider, maxResults, Named(before)) == Success(batch) && !batch.resync
    ensures Stands(s, provider, visits, end, got + batch.changes, batch.next, calls + 1)
  {
    hide Deliver, Normalize, CutPage, HistoryToken;
    var page := Named(before);
    var at := HistoryPosition(page, maxResults, 0, None);
    assert ReadHistoryPosition(s.loads, s.account, page, s.start, maxResults) == Success(at);
    var p := Normalize(provider(maxResults, page).fields, maxResults).value;
    end := DeliversSlice(s, provider, maxResults, page, at, p, batch);
    visits := before + [Visit(page, maxResults, p)];
    assert visits[..|visits| - 1] == before;
    assert got + p.changes[..end] + p.changes[end..] == got + p.changes;
  }

  /** A call that continues one delivers the changes that come next. */
  lemma ContinuesPage(s: Setting, provider: Provider, visits: seq<Visit>, end: nat, maxResults: int,
                      token: Option<string>, batch: Batch, got: seq<Change>, calls: nat) returns (end': nat)
    requires Lawful(s) && Deliverable(provider) && Stands(s, provider, visits, end, got, token, calls)
    requires end < |visits[|visits| - 1].provided.changes|
    requires SyncChanges(s, provider, maxResults, token) == Success(batch) && !batch.resync
    ensures Stands(s, provider, visits, end', got + batch.changes, batch.next, calls + 1)
  {
    hide Deliver, Normalize, HistoryToken, ReadHistoryPosition;
    var v := visits[|visits| - 1];
    var p := v.provided;
    var fingerprint := s.digest(p.changes, p.next);
    HistoryCursorRoundTrip(s.loads, s.account, s.start, v.page, v.limit, end, fingerprint, maxResults);
    var at := HistoryPosition(v.page, v.limit, end, Some(fingerprint));
    end' := DeliversSlice(s, provider, maxResults, token, at, p, batch);
    assert got + p.changes[end..end'] + p.changes[end'..] == got + p.changes[end..];
  }

  /** After any number of calls the client stands at one exact position of the provider's pages. */
  lemma {:induction false} RunStands(s: Setting, provider: Provider, limits: seq<int>, batches: seq<Batch>)
    returns (visits: seq<Visit>, end: nat)
    requires Lawful(s) && Deliverable(provider) && Unmarked(provider)
    requires Run(s, provider, limits, batches) && batches != []
    ensures Stands(s, provider, visits, end, Delivered(batches), Followed(batches), |batches|)
  {
    var n := |batches| - 1;
    var before := batches[..n];
    if n == 0 {
      assert Delivered(before) == [];
      visits, end := OpensPage(s, provider, [], limits[0], batches[0], [], 0);
    } else {
      visits, end := RunStands(s, provider, limits[..n], before);
      visits, end := NextCall(s, provider, visits, end, limits[n], Followed(before), batches[n], Delivered(before), n);
    }
  }

  lemma NextCall(s: Setting, provider: Provider, visits: seq<Visit>, end: nat, maxResults: int,
                 token: Option<string>, batch: Batch, got: seq<Change>, calls: nat)
    returns (visits': seq<Visit>, end': nat)
    requires Lawful(s) && Deliverable(provider) && Unmarked(provider)
    requires Stands(s, provider, visits, end, got, token, calls) && token.Some?
    requires SyncChanges(s, provider, maxResults, token) == Success(batch) && !batch.resync
    ensures Stands(s, provider, visits', end', got + batch.changes, batch.next, calls + 1)
  {
    var v := visits[|visits| - 1];
    if end < |v.provided.changes| {
      visits' := visits;
      end' := ContinuesPage(s, provider, visits, end, maxResults, token, batch, got, calls);
    } else {
      assert got + v.provided.changes[end..] == got;
      assert Answers(provider, v);
      visits', end' := OpensPage(s, provider, visits, maxResults, batch, got, calls);
    }
  }

  /** History runs are exact. Against a provider that answers the same throughout, following the tokens
      to the end with any limits delivers the provider's flattened pages one after the other, without
      a gap or a repeat; and it takes at most one call per change, plus one per page without changes. */
  lemma RunIsExact(s: Setting, provider: Provider, limits: seq<int>, batches: seq<Batch>) returns (visits: seq<Visit>)
    requires Lawful(s) && Deliverable(provider) && Unmarked(provider)
    requires Run(s, provider, limits, batches) && batches != [] && Followed(batches).None?
    ensures visits != [] && Chain(provider, visits) && Named(visits).None?
    ensures Delivered(batches) == Pages(visits)
    ensures |batches| <= Weight(visits)
  {
    var end: nat;
    visits, end := RunStands(s, provider, limits, batches);
    assert Delivered(batches) + [] == Delivered(batches);
  }

  /** Every local cursor is accepted, so a run stops early only where the provider refuses, changes or
      names a token that is nothing but blanks, or where a change alone is over the limit. */
  lemma TokenIsAccepted(s: Setting, provider: Provider, visits: seq<Visit>, end: nat, got: seq<Change>, calls: nat,
                        token: Option<string>, maxResults: int)
    requires Lawful(s) && Deliverable(provider) && Unmarked(provider) && IsHistoryId(s.start)
    requires Stands(s, provider, visits, end, got, token, calls) && token.Some?
    ensures var v := visits[|visits| - 1];
            ReadHistoryPosition(s.loads, s.account, token, s.start, maxResults).Success? <==>
              end < |v.provided.changes| || !Blank(token.value)
  {
    var v := visits[|visits| - 1];
    if end < |v.provided.changes| {
      HistoryCursorRoundTrip(s.loads, s.account, s.start, v.page, v.limit, end,
                             s.digest(v.provided.changes, v.provided.next), maxResults);
    } else {
      assert Answers(provider, v);
    }
  }

  /** Settings that keep the laws above exist. */
  function PlainSetting(): Setting {
    Setting(None, (changes, next) => seq(64, _ => '0'), RowLoads, "1")
  }

  lemma PlainSettingIsLawful()
    ensures Lawful(PlainSetting())
  {
    hide RowLoads;
    RowsReadBack();
  }

  /** A provider without changes whose continuation token is one blank. */
  function BlankAnswer(): seq<Field> {
    [Field("historyId", JStr("1")), Field("nextPageToken", JStr(" "))]
  }

  function BlankProvider(): Provider {
    (limit, page) => Answer(BlankAnswer())
  }

  lemma BlankAnswerIsNormal(limit: int)
    requires limit >= 0
    ensures Normalize(BlankAnswer(), limit) == Some(Provided("1", Some(" "), []))
  {
    var fields := BlankAnswer();
    assert fields[..1] == [Field("historyId", JStr("1"))] && fields[..1][..0] == [];
    assert Get(fields[..1], "nextPageToken").None? && Get(fields[..1], "history").None?;
    assert Get(fields, "historyId") == Get(fields[..1], "historyId") == Some(JStr("1"));
    assert Get(fields, "history").None?;
  }

  /** The departure on one input: a call hands the blank token out, and the next call refuses it. */
  lemma BlankTokenIsRefused(maxResults: int)
    requires 1 <= maxResults <= 100
    ensures var s, provider := PlainSetting(), BlankProvider();
            && Lawful(s) && Deliverable(provider) && Unmarked(provider)
            && var first := SyncChanges(s, provider, maxResults, None);
               && first.Success? && !first.value.resync && first.value.next == Some(" ")
               && SyncChanges(s, provider, maxResults, first.value.next) == Failure(ArgumentsInvalid)
  {
    hide BlankAnswer, Normalize, RowLoads, CutPage;
    var s, provider := PlainSetting(), BlankProvider();
    PlainSettingIsLawful();
    forall limit | limit >= 0 ensures Normalize(BlankAnswer(), limit) == Some(Provided("1", Some(" "), [])) {
      BlankAnswerIsNormal(limit);
    }
    NegativeLimit();
    var at := HistoryPosition(None, maxResults, 0, None);
    HistoryIdIsText("1");
    var p := Provided("1", Some(" "), []);
    CutIsValid(s, provider, maxResults, None, at, p);
    CutIsLongest(CutAt(s, at, p), maxResults);
    var n := CutIsPage(CutAt(s, at, p), maxResults);
    assert Blank(" ");
  }

  lemma NegativeLimit()
    ensures forall limit: int | limit < 0 :: Normalize(BlankAnswer(), limit).None?
  {
    hide BlankAnswer, Flatten;
  }
}

/** A history page on which cutting to the byte limit departs from "fails when one change cannot fit": one
    change does not fit, because a local cursor must follow it, and two do, because the provider's own
    continuation, here none, follows the last change. */
module CutDeparture {
  import opened Wrappers
  import opened Utf8
  import opened Json
  import opened Characters
  import opened GmailText
  import opened JsonReader
  import opened Cursors
  import opened HistoryPages

  // ---- sizes of objects between two bounds ----

  function ValuesSize(f: seq<Field>): nat {
    if f == [] then 0 else Size(f[0].value, COMPACT) + ValuesSize(f[1..])
  }

  function NamesRoom(f: seq<Field>): nat {
    if f == [] then 0 else 6 * |f[0].name| + 4 + NamesRoom(f[1..])
  }

  lemma {:induction false} FieldsBetween(f: seq<Field>)
    ensures ValuesSize(f) <= FieldsSizeOf(f, COMPACT) <= ValuesSize(f) + NamesRoom(f)
  {
    hide Size, Quote;
    if f != [] {
      FieldsBetween(f[1..]);
      SplitFields(f, COMPACT);
      PieceSize(JStr(f[0].name), COMPACT);
      PieceAtMost(JStr(f[0].name));
      Separators();
      assert Dump(JStr(f[0].name), COMPACT) == Quote(f[0].name, false);
    } else {
      NothingWritten();
    }
  }

  lemma NothingWritten()
    ensures FieldsSizeOf([], COMPACT) == 0
  {
  }

  lemma PlainSize(s: string)
    requires Plain(s)
    ensures Size(JStr(s), COMPACT) == |s| + 2
  {
    PlainText(s, false);
    Bytes("\"", QuoteBody(s, false));
    Bytes("\"" + QuoteBody(s, false), "\"");
    AsciiBytes("\"");
  }

  // ---- the page ----

  function Copies(c: char, n: nat): string {
    seq(n, _ => c)
  }

  const LABELS := 1043

  function Label(): string {
    Copies('a', 1000)
  }

  function Big(): Change {
    Change("1", "message_added", "m", "t", seq(LABELS, _ => Label()))
  }

  function Small(): Change {
    Change("1", "message_added", "m", "t", [])
  }

  function ThePage(): Cut {
    Cut(None, "1", Some(Copies('p', 4096)), 100, 0, Copies('0', 64), Provided("1", None, [Big(), Small()]))
  }

  function LabelItems(n: nat): seq<Json> {
    seq(n, _ => JStr(Label()))
  }

  lemma {:induction false} LabelsSize(n: nat)
    requires n > 0
    ensures ItemsSize(LabelItems(n), COMPACT) == 1003 * n - 1
  {
    hide Size, Label;
    PlainLabel();
    if n == 1 {
      assert LabelItems(1) == [JStr(Label())];
      OneItem(JStr(Label()));
    } else {
      assert LabelItems(n)[1..] == LabelItems(n - 1);
      LabelsSize(n - 1);
      SplitItems(LabelItems(n), COMPACT);
      Separators();
    }
  }

  lemma PlainLabel()
    ensures Size(JStr(Label()), COMPACT) == 1002
  {
    PlainSize(Label());
  }

  lemma OneItem(j: Json)
    ensures ItemsSize([j], COMPACT) == Size(j, COMPACT)
  {
  }

  lemma NoItem()
    ensures ItemsSize([], COMPACT) == 0
  {
  }

  function LabelsJson(change: Change): Json {
    JArr(seq(|change.labels|, i requires 0 <= i < |change.labels| => JStr(change.labels[i])))
  }

  /** Five fields take their values' room and at most six bytes for a character of a name. */
  lemma FiveBetween(a: Field, b: Field, c: Field, d: Field, e: Field)
    ensures var values := Size(a.value, COMPACT) + Size(b.value, COMPACT) + Size(c.value, COMPACT)
                          + Size(d.value, COMPACT) + Size(e.value, COMPACT);
            var names := |a.name| + |b.name| + |c.name| + |d.name| + |e.name|;
            values <= Size(JObj([a, b, c, d, e]), COMPACT) <= values + 6 * names + 22
  {
    hide Size, ValuesSize, NamesRoom;
    ObjectSizeOf([a, b, c, d, e], COMPACT);
    FieldsBetween([a, b, c, d, e]);
    FiveSizes(a, b, c, d, e);
  }

  lemma FiveSizes(a: Field, b: Field, c: Field, d: Field, e: Field)
    ensures ValuesSize([a, b, c, d, e]) == Size(a.value, COMPACT) + Size(b.value, COMPACT) + Size(c.value, COMPACT)
                                           + Size(d.value, COMPACT) + Size(e.value, COMPACT)
    ensures NamesRoom([a, b, c, d, e]) == 6 * (|a.name| + |b.name| + |c.name| + |d.name| + |e.name|) + 20
  {
    hide Size;
    SizesFirst(a, [b, c, d, e]);
    SizesFirst(b, [c, d, e]);
    SizesFirst(c, [d, e]);
    SizesFirst(d, [e]);
    SizesFirst(e, []);
  }

  lemma SizesFirst(f: Field, rest: seq<Field>)
    ensures ValuesSize([f] + rest) == Size(f.value, COMPACT) + ValuesSize(rest)
    ensures NamesRoom([f] + rest) == 6 * |f.name| + 4 + NamesRoom(rest)
  {
    hide Size;
    assert ([f] + rest)[1..] == rest;
  }

  function ShortChange(labels: Json): seq<Field> {
    [Field("history_id", JStr("1")), Field("kind", JStr("message_added")), Field("message_id", JStr("m")),
     Field("thread_id", JStr("t")), Field("label_ids", labels)]
  }

  lemma ShortNames(labels: Json)
    ensures var f := ShortChange(labels);
            && |f[0].name| + |f[1].name| + |f[2].name| + |f[3].name| + |f[4].name| == 42
            && f[0].value == JStr("1") && f[1].value == JStr("message_added") && f[2].value == JStr("m")
            && f[3].value == JStr("t") && f[4].value == labels
            && f == [f[0], f[1], f[2], f[3], f[4]]
  {
  }

  lemma ShortTexts()
    ensures Size(JStr("1"), COMPACT) == 3 && Size(JStr("message_added"), COMPACT) == 15
    ensures Size(JStr("m"), COMPACT) == 3 && Size(JStr("t"), COMPACT) == 3
  {
    hide Size;
    PlainSize("1");
    PlainSize("message_added");
    PlainSize("m");
    PlainSize("t");
  }

  /** A change with short ids takes at most 400 bytes more than its labels. */
  lemma ShortBetween(labels: Json)
    ensures Size(labels, COMPACT) <= Size(JObj(ShortChange(labels)), COMPACT) <= Size(labels, COMPACT) + 400
  {
    hide Size, ShortChange;
    var f := ShortChange(labels);
    ShortNames(labels);
    FiveBetween(f[0], f[1], f[2], f[3], f[4]);
    ShortTexts();
  }

  predicate IsShort(change: Change) {
    && change.historyId == "1" && change.kind == "message_added"
    && change.messageId == "m" && change.threadId == "t"
  }

  lemma ChangeBetween(change: Change)
    requires IsShort(change)
    ensures Size(LabelsJson(change), COMPACT) <= Size(ChangeJson(change), COMPACT)
         <= Size(LabelsJson(change), COMPACT) + 400
  {
    hide Size;
    assert ChangeJson(change) == JObj(ShortChange(LabelsJson(change)));
    ShortBetween(LabelsJson(change));
  }

  lemma LabelSizes()
    ensures Size(LabelsJson(Big()), COMPACT) == 1003 * LABELS + 1
    ensures Size(LabelsJson(Small()), COMPACT) == 2
  {
    hide Size, Label;
    LabelsSize(LABELS);
    assert LabelsJson(Big()) == JArr(LabelItems(LABELS));
    ArraySize(LabelItems(LABELS), COMPACT);
    NoItem();
    assert LabelsJson(Small()) == JArr([]);
    ArraySize([], COMPACT);
  }

  lemma NamesOf(r: Batch)
    ensures var f := ResultFields(r);
            |f[0].name| + |f[1].name| + |f[2].name| + |f[3].name| + |f[4].name| == 61
  {
    hide ChangesJson;
  }

  lemma SmallValues()
    ensures Size(JInt(1), COMPACT) <= 7 && Size(JBool(false), COMPACT) <= 5 && Size(JStr("1"), COMPACT) == 3
  {
    hide Size, PieceBound;
    PieceSizes(JInt(1));
    PieceOfOne();
    PieceSizes(JBool(false));
    PieceAtMost(JBool(false));
    ShortTexts();
  }

  lemma PieceSizes(j: Json)
    requires Bounded(j, COMPACT)
    ensures Size(j, COMPACT) <= PieceBound(j)
  {
    PieceSize(j, COMPACT);
  }

  /** The other fields of a page take little room. */
  lemma PageBetween(r: Batch)
    requires r.historyId == Some("1") && !r.resync
    ensures var changes, next := Size(JArr(ChangesJson(r.changes)), COMPACT), Size(Nullable(r.next), COMPACT);
            changes + next <= Size(JObj(ResultFields(r)), COMPACT) <= changes + next + 520
  {
    hide Size, ChangesJson, ResultFields;
    var f := ResultFields(r);
    NamesAreShort(r);
    FiveBetween(f[0], f[1], f[2], f[3], f[4]);
    NamesOf(r);
    SmallValues();
  }

  lemma BothFit()
    ensures Fits(ThePage(), 2)
  {
    hide Size, ResultFields, ChangeJson, Label, Big, Small;
    var r := PageOf(ThePage(), 2);
    assert r.changes == [Big(), Small()];
    assert ChangesJson(r.changes) == [ChangeJson(Big()), ChangeJson(Small())];
    PageBetween(r);
    TwoChanges();
    NullSize();
  }

  lemma NullSize()
    ensures Size(JNull, COMPACT) == 4
  {
    AsciiBytes("null");
  }

  lemma TwoChanges()
    ensures Size(JArr([ChangeJson(Big()), ChangeJson(Small())]), COMPACT) <= 1003 * LABELS + 820
  {
    hide Size, ChangeJson, Label;
    var items := [ChangeJson(Big()), ChangeJson(Small())];
    ChangeBetween(Big());
    ChangeBetween(Small());
    LabelSizes();
    SplitItems(items, COMPACT);
    assert items[1..] == [ChangeJson(Small())];
    OneItem(ChangeJson(Small()));
    Separators();
    ArraySize(items, COMPACT);
  }

  lemma OneDoesNot()
    ensures !Fits(ThePage(), 1)
  {
    hide Size, ResultFields, ChangeJson, Label, HistoryToken, Big, Small, Copies;
    var c := ThePage();
    var r := PageOf(c, 1);
    var token := HistoryToken(c.account, c.start, c.page, c.limit, 1, c.fingerprint);
    assert r.changes == [Big()] && r.next == Some(token);
    assert ChangesJson(r.changes) == [ChangeJson(Big())];
    PageBetween(r);
    OneChange();
    TokenIsLong();
  }

  lemma OneChange()
    ensures Size(JArr([ChangeJson(Big())]), COMPACT) >= 1003 * LABELS
  {
    hide Size, ChangeJson, Label;
    ChangeBetween(Big());
    LabelSizes();
    OneItem(ChangeJson(Big()));
    ArraySize([ChangeJson(Big())], COMPACT);
  }

  /** The cursor repeats the provider's own token, here one of 4096 characters. */
  lemma TokenIsLong()
    ensures var c := ThePage();
            Size(JStr(HistoryToken(c.account, c.start, c.page, c.limit, 1, c.fingerprint)), COMPACT) >= 5000
  {
    hide Size, Label, Copies, Big, Small, Mintable, HistoryRow;
    var c := ThePage();
    RowShape(c);
    var row := HistoryRow(c.account, c.start, c.page, c.limit, 1, c.fingerprint);
    TokenSize(row);
    RowIsLong(row);
  }

  lemma RowShape(c: Cut)
    ensures var row := HistoryRow(c.account, c.start, c.page, c.limit, 1, c.fingerprint);
            && IsRow(row) && |row| == 7 && row[3] == Nullable(c.page)
  {
  }

  lemma RowIsLong(row: seq<Json>)
    requires |row| == 7 && row[3] == JStr(Copies('p', 4096))
    ensures Size(JArr(row), COMPACT) >= 4096
  {
    hide Size, Dump, Copies;
    ItemWithin(row, 3, COMPACT);
    RowIsLonger(row);
    LongPage();
  }

  lemma RowIsLonger(row: seq<Json>)
    ensures Size(JArr(row), COMPACT) >= |DumpItems(row, COMPACT)|
  {
    BytesAtLeastCharacters(DumpItems(row, COMPACT));
    ArraySize(row, COMPACT);
  }

  lemma LongPage()
    ensures |Dump(JStr(Copies('p', 4096)), COMPACT)| >= 4096
  {
    PlainText(Copies('p', 4096), false);
  }

  lemma PageIsValid()
    ensures ValidCut(ThePage())
  {
    hide Label, Big, Small;
    assert Copies('p', 4096)[0] == 'p';
    assert !IsSpace(Copies('p', 4096)[0]);
  }

  /** Both happen on one page: asked for one change the call fails, asked for two it delivers both. */
  lemma OneFailsTwoSucceed()
    ensures var c := ThePage();
            && ValidCut(c) && |c.provided.changes| == 2 && !Fits(c, 1) && Fits(c, 2)
            && CutPage(c, 1).None? && CutPage(c, 2) == Some(PageOf(c, 2))
  {
    hide Fits, Label, Big, Small, Copies;
    PageIsValid();
    OneDoesNot();
    BothFit();
  }
}
