/** The two opaque cursors of `src/gmail_mcp/sync.py`: minted as unpadded base64url over a JSON
    list and checked field by field on the way back in. */
module Cursors {
  import opened Wrappers
  import opened Utf8
  import opened Json
  import opened Characters
  import opened GmailText
  import opened JsonReader
  import Base64Url

  const HISTORY_CURSOR_PREFIX := "veetbot-history-v1:"

  /** `json.loads` over bytes; None where it raises. */
  type Loads = seq<byte> -> Option<Json>

  /** The one law asked of `json.loads`: it reads back a list of numbers, strings and nulls written in
      either of the two styles that cursors are written in. */
  ghost predicate ReadsBack(loads: Loads) {
    forall items, style | IsRow(items) && CursorStyle(style) ::
      loads(Encode(Dump(JArr(items), style))) == Some(JArr(items))
  }

  /** A reader that obeys it. */
  function RowLoads(bytes: seq<byte>): Option<Json> {
    match Decode(bytes)
    case None => None
    case Some(text) => ReadRow(text)
  }

  /** The law is one that a reader can meet: no two rows, in either style, are written alike. */
  lemma RowsReadBack()
    ensures ReadsBack(RowLoads)
  {
    hide Dump, ReadRow, IsRow;
    forall items, style | IsRow(items) && CursorStyle(style)
      ensures RowLoads(Encode(Dump(JArr(items), style))) == Some(JArr(items)) {
      DecodeInvertsEncode(Dump(JArr(items), style));
      RowBack(items, style);
    }
  }

  function Nullable(s: Option<string>): Json {
    match s
    case None => JNull
    case Some(t) => JStr(t)
  }

  function Write(items: seq<Json>, style: Style): string {
    Base64Url.Encode(Encode(Dump(JArr(items), style)))
  }

  function Read(loads: Loads, text: string): Option<Json> {
    match Base64Url.Decode(text)
    case None => None
    case Some(bytes) => loads(bytes)
  }

  /** Python's `value == 1`: the boolean `True` passes as well. */
  predicate EqualsOne(j: Json) {
    j == JInt(1) || j == JBool(true)
  }

  predicate IntegerIn(j: Json, minimum: int, maximum: int) {
    j.JInt? && minimum <= j.number <= maximum
  }

  // ---- history cursors ----

  datatype HistoryPosition = HistoryPosition(page: Option<string>, limit: int, offset: int, fingerprint: Option<string>)

  function HistoryRow(account: Option<string>, start: string, page: Option<string>, limit: int, offset: int,
                      fingerprint: string): seq<Json> {
    [JInt(1), Nullable(account), JStr(start), Nullable(page), JInt(limit), JInt(offset), JStr(fingerprint)]
  }

  function HistoryToken(account: Option<string>, start: string, page: Option<string>, limit: int, offset: int,
                        fingerprint: string): string {
    HISTORY_CURSOR_PREFIX + Write(HistoryRow(account, start, page, limit, offset, fingerprint), COMPACT)
  }

  function ReadHistoryPosition(loads: Loads, account: Option<string>, token: Option<string>, start: string,
                               limit: int): Result<HistoryPosition, Code> {
    if token.None? then Success(HistoryPosition(None, limit, 0, None))
    else if !RequiredText(token.value, 65536) then Failure(ArgumentsInvalid)
    else if !(HISTORY_CURSOR_PREFIX <= token.value) then
      if RequiredText(token.value, 4096) then Success(HistoryPosition(token, limit, 0, None))
      else Failure(ArgumentsInvalid)
    else match Read(loads, token.value[|HISTORY_CURSOR_PREFIX|..]) {
      case Some(JArr(v)) =>
        if |v| != 7 || !EqualsOne(v[0]) || v[1] != Nullable(account) || v[2] != JStr(start) then
          Failure(ArgumentsInvalid)
        else if !v[6].JStr? || !IsDigest(v[6].text) then Failure(ArgumentsInvalid)
        else if !v[3].JNull? && !(v[3].JStr? && RequiredText(v[3].text, 4096)) then Failure(ArgumentsInvalid)
        else if !IntegerIn(v[4], 1, 100) || !IntegerIn(v[5], 1, UPSTREAM_MAXIMUM_BYTES) then
          Failure(ArgumentsInvalid)
        else
          var page := if v[3].JNull? then None else Some(v[3].text);
          Success(HistoryPosition(page, v[4].number, v[5].number, Some(v[6].text)))
      case _ => Failure(ArgumentsInvalid)
    }
  }

  /** What the minting code holds when it mints: everything was checked before. */
  predicate Mintable(account: Option<string>, start: string, page: Option<string>, limit: int, offset: int,
                     fingerprint: string) {
    && (account.Some? ==> |account.value| <= 32)
    && IsHistoryId(start)
    && (page.Some? ==> RequiredText(page.value, 4096))
    && 1 <= limit <= 100 && 1 <= offset <= UPSTREAM_MAXIMUM_BYTES
    && IsDigest(fingerprint)
  }

  // ---- thread cursors ----

  function ThreadRow(account: Option<string>, thread: string, history: string, offset: int): seq<Json> {
    [JInt(1), Nullable(account), JStr(thread), JStr(history), JInt(offset)]
  }

  function PageToken(account: Option<string>, thread: string, history: string, offset: int): string {
    Write(ThreadRow(account, thread, history, offset), COMPACT_ASCII)
  }

  function PagePosition(loads: Loads, account: Option<string>, token: string, thread: string)
    : Result<(string, int), Code>
  {
    if !RequiredText(token, 4096) then Failure(ArgumentsInvalid)
    else match Read(loads, token) {
      case Some(JArr(v)) =>
        if |v| != 5 || !EqualsOne(v[0]) || v[1] != Nullable(account) || v[2] != JStr(thread) then
          Failure(ArgumentsInvalid)
        else if !v[3].JStr? || !RequiredText(v[3].text, 20) || !IsHistoryId(v[3].text) then
          Failure(ArgumentsInvalid)
        else if !IntegerIn(v[4], 0, UPSTREAM_MAXIMUM_BYTES) then Failure(ArgumentsInvalid)
        else Success((v[3].text, v[4].number))
      case _ => Failure(ArgumentsInvalid)
    }
  }

  // ---- proofs ----

  lemma Alphabet(text: string)
    requires forall c | c in text :: Base64Url.Digit(c).Some?
    requires text != ""
    ensures !Blank(text) && '\0' !in text && Plain(text)
  {
    forall i | 0 <= i < |text| ensures !IsSpace(text[i]) && text[i] != '\0' {
      assert text[i] in text;
    }
    assert !IsSpace(text[0]);
    forall i | 0 <= i < |text|
      ensures 0x20 <= text[i] as int <= 0x7E && text[i] != '"' && text[i] != '\\'
    {
      assert text[i] in text;
    }
  }

  lemma WrittenRowIsPlain(items: seq<Json>, style: Style)
    requires IsRow(items)
    ensures var text := Write(items, style);
            |text| == (4 * Size(JArr(items), style) + 2) / 3 && !Blank(text) && '\0' !in text && Plain(text)
  {
    var bytes := Encode(Dump(JArr(items), style));
    Base64Url.EncodedLength(bytes);
    Base64Url.EncodedAlphabet(bytes);
    assert Dump(JArr(items), style)[0] == '[';
    assert bytes != [];
    Alphabet(Write(items, style));
  }

  /** A written row is plain, non-blank text of a length fixed by its byte count, and reads back. */
  lemma WrittenRow(loads: Loads, items: seq<Json>, style: Style)
    requires ReadsBack(loads) && IsRow(items) && CursorStyle(style)
    ensures var text := Write(items, style);
            && Read(loads, text) == Some(JArr(items))
            && |text| == (4 * Size(JArr(items), style) + 2) / 3
            && !Blank(text) && '\0' !in text && Plain(text)
  {
    Base64Url.RoundTrip(Encode(Dump(JArr(items), style)));
    WrittenRowIsPlain(items, style);
  }

  lemma RowBoundOfSeven(a: Json, b: Json, c: Json, d: Json, e: Json, f: Json, g: Json)
    ensures RowBound([a, b, c, d, e, f, g]) ==
            PieceBound(a) + PieceBound(b) + PieceBound(c) + PieceBound(d) + PieceBound(e) + PieceBound(f)
            + PieceBound(g) + 7
  {
    RowBoundFirst(a, [b, c, d, e, f, g]);
    RowBoundFirst(b, [c, d, e, f, g]);
    RowBoundFirst(c, [d, e, f, g]);
    RowBoundFirst(d, [e, f, g]);
    RowBoundFirst(e, [f, g]);
    RowBoundFirst(f, [g]);
    RowBoundFirst(g, []);
  }

  lemma DigitsAtMost(n: nat)
    ensures n <= 100 ==> |Decimal(n)| <= 3
    ensures n <= UPSTREAM_MAXIMUM_BYTES ==> |Decimal(n)| <= 7
  {
    assert |Decimal(100)| == 3;
    assert |Decimal(8388608)| == 7;
    if n <= 100 { DecimalGrows(n, 100); }
    if n <= UPSTREAM_MAXIMUM_BYTES { DecimalGrows(n, 8388608); }
  }

  lemma HistoryRowSize(account: Option<string>, start: string, page: Option<string>, limit: int, offset: int,
                       fingerprint: string)
    requires Mintable(account, start, page, limit, offset, fingerprint)
    ensures Size(JArr(HistoryRow(account, start, page, limit, offset, fingerprint)), COMPACT) <= 26000
  {
    hide Size, RowBound;
    ListSize(HistoryRow(account, start, page, limit, offset, fingerprint), COMPACT);
    RowBoundOfSeven(JInt(1), Nullable(account), JStr(start), Nullable(page), JInt(limit), JInt(offset),
                    JStr(fingerprint));
    DigitsAtMost(1);
    DigitsAtMost(limit);
    DigitsAtMost(offset);
  }

  /** Every history cursor the code mints fits the checks on the way in and gives back its fields,
      whatever `max_results` accompanies it. */
  lemma HistoryCursorRoundTrip(loads: Loads, account: Option<string>, start: string, page: Option<string>,
                               limit: int, offset: int, fingerprint: string, asked: int)
    requires ReadsBack(loads)
    requires Mintable(account, start, page, limit, offset, fingerprint)
    ensures var token := HistoryToken(account, start, page, limit, offset, fingerprint);
            ReadHistoryPosition(loads, account, Some(token), start, asked)
            == Success(HistoryPosition(page, limit, offset, Some(fingerprint)))
  {
    hide Write, Read, Size;
    var row := HistoryRow(account, start, page, limit, offset, fingerprint);
    var text := Write(row, COMPACT);
    var token := HISTORY_CURSOR_PREFIX + text;
    WrittenRow(loads, row, COMPACT);
    HistoryRowSize(account, start, page, limit, offset, fingerprint);
    assert token[|HISTORY_CURSOR_PREFIX|..] == text;
    assert !IsSpace(token[0]);
  }

  /** ... and is refused under any other account or start id. */
  lemma HistoryCursorConfined(loads: Loads, account: Option<string>, start: string, page: Option<string>,
                              limit: int, offset: int, fingerprint: string,
                              account': Option<string>, start': string, asked: int)
    requires ReadsBack(loads)
    requires account' != account || start' != start
    ensures var token := HistoryToken(account, start, page, limit, offset, fingerprint);
            ReadHistoryPosition(loads, account', Some(token), start', asked) == Failure(ArgumentsInvalid)
  {
    var row := HistoryRow(account, start, page, limit, offset, fingerprint);
    WrittenRow(loads, row, COMPACT);
    var token := HistoryToken(account, start, page, limit, offset, fingerprint);
    assert token[|HISTORY_CURSOR_PREFIX|..] == Write(row, COMPACT);
  }

  /** A minted thread cursor is accepted later, with its fields, exactly when its JSON list takes at
      most 3072 bytes: a longer one is handed out all the same and refused on return. */
  lemma ThreadCursorRoundTrip(loads: Loads, account: Option<string>, thread: string, history: string, offset: int)
    requires ReadsBack(loads)
    requires IsHistoryId(history) && 0 <= offset <= UPSTREAM_MAXIMUM_BYTES
    ensures var token := PageToken(account, thread, history, offset);
            var row := JArr(ThreadRow(account, thread, history, offset));
            PagePosition(loads, account, token, thread) ==
              if Size(row, COMPACT_ASCII) <= 3072 then Success((history, offset)) else Failure(ArgumentsInvalid)
  {
    WrittenRow(loads, ThreadRow(account, thread, history, offset), COMPACT_ASCII);
    HistoryIdIsText(history);
  }

  lemma SmallPieces(account: Option<string>, thread: string, history: string, offset: nat)
    requires (account.Some? ==> Plain(account.value)) && Plain(thread) && IsHistoryId(history)
    requires offset <= UPSTREAM_MAXIMUM_BYTES
    ensures PieceBound(Nullable(account)) <= (if account.Some? then |account.value| else 2) + 2
    ensures PieceBound(JStr(thread)) == |thread| + 2 && PieceBound(JStr(history)) == |history| + 2
    ensures PieceBound(JInt(1)) <= 3 && PieceBound(JInt(offset)) <= 7
  {
    DigitsAtMost(1);
    DigitsAtMost(offset);
  }

  /** Plain thread ids, the only kind Gmail issues, always come back. */
  lemma PlainThreadCursorReturns(loads: Loads, account: Option<string>, thread: string, history: string, offset: int)
    requires ReadsBack(loads)
    requires account.Some? ==> Plain(account.value) && |account.value| <= 32
    requires Plain(thread) && |thread| <= 1024
    requires IsHistoryId(history) && 0 <= offset <= UPSTREAM_MAXIMUM_BYTES
    ensures PagePosition(loads, account, PageToken(account, thread, history, offset), thread)
            == Success((history, offset))
  {
    hide PagePosition, PageToken, Size, PieceBound;
    var row := ThreadRow(account, thread, history, offset);
    ListSize(row, COMPACT_ASCII);
    RowBoundFirst(JInt(1), [Nullable(account), JStr(thread), JStr(history), JInt(offset)]);
    RowBoundFirst(Nullable(account), [JStr(thread), JStr(history), JInt(offset)]);
    RowBoundFirst(JStr(thread), [JStr(history), JInt(offset)]);
    RowBoundFirst(JStr(history), [JInt(offset)]);
    RowBoundFirst(JInt(offset), []);
    SmallPieces(account, thread, history, offset);
    ThreadCursorRoundTrip(loads, account, thread, history, offset);
  }

  /** The failing family: from 512 characters on, a thread id outside ASCII passes the check on
      `thread_id` and yields cursors that the same tool then refuses. */
  lemma LongForeignThreadCursorRefused(loads: Loads, account: Option<string>, thread: string, history: string,
                                       offset: int)
    requires ReadsBack(loads)
    requires 512 <= |thread| <= 1024 && forall i | 0 <= i < |thread| :: thread[i] as int > 0x7E && !IsSpace(thread[i])
    requires IsHistoryId(history) && 0 <= offset <= UPSTREAM_MAXIMUM_BYTES
    ensures RequiredText(thread, 1024)
    ensures PagePosition(loads, account, PageToken(account, thread, history, offset), thread)
            == Failure(ArgumentsInvalid)
  {
    var row := ThreadRow(account, thread, history, offset);
    ItemWithin(row, 2, COMPACT_ASCII);
    EscapedLength(thread);
    BytesAtLeastCharacters(Dump(JArr(row), COMPACT_ASCII));
    ThreadCursorRoundTrip(loads, account, thread, history, offset);
    assert !IsSpace(thread[0]);
  }

  lemma {:induction false} ItemWithin(items: seq<Json>, i: nat, style: Style)
    requires i < |items|
    ensures |DumpItems(items, style)| >= |Dump(items[i], style)|
  {
    if i > 0 {
      ItemWithin(items[1..], i - 1, style);
    }
  }

  lemma {:induction false} EscapedLength(s: string)
    requires forall i | 0 <= i < |s| :: s[i] as int > 0x7E
    ensures |QuoteBody(s, true)| >= 6 * |s|
  {
    if s != "" {
      EscapedLength(s[1..]);
    }
  }

  lemma ThreadCursorConfined(loads: Loads, account: Option<string>, thread: string, history: string, offset: int,
                             account': Option<string>, thread': string)
    requires ReadsBack(loads)
    requires account' != account || thread' != thread
    ensures PagePosition(loads, account', PageToken(account, thread, history, offset), thread')
            == Failure(ArgumentsInvalid)
  {
    WrittenRow(loads, ThreadRow(account, thread, history, offset), COMPACT_ASCII);
  }

  // ---- what is accepted at all ----

  /** A position read from any token, forged ones included, is within the limits; and a provider's own token,
      or none, is taken as it is. */
  lemma HistoryPositionIs(loads: Loads, account: Option<string>, token: Option<string>, start: string, limit: int)
    requires 1 <= limit <= 100
    ensures var r := ReadHistoryPosition(loads, account, token, start, limit);
            && (token.None? ==> r == Success(HistoryPosition(None, limit, 0, None)))
            && (token.Some? && !(HISTORY_CURSOR_PREFIX <= token.value) ==>
                  r == if RequiredText(token.value, 4096) then Success(HistoryPosition(token, limit, 0, None))
                       else Failure(ArgumentsInvalid))
            && (r.Success? && token.Some? ==> |token.value| <= 65536 && '\0' !in token.value)
            && (r.Success? ==>
                  && 1 <= r.value.limit <= 100 && 0 <= r.value.offset <= UPSTREAM_MAXIMUM_BYTES
                  && (r.value.page.Some? ==> RequiredText(r.value.page.value, 4096))
                  && (r.value.fingerprint.Some? ==> IsDigest(r.value.fingerprint.value) && r.value.offset > 0)
                  && (r.value.fingerprint.None? ==> r.value.offset == 0))
            && (r.Failure? ==> r.error == ArgumentsInvalid)
  {
    hide Read, IsDigest;
  }

  /** A local cursor is accepted exactly when it reads as a list of a version, this account, this start, a page, a
      limit, an offset and a fingerprint, each within its bounds; and the position is the one it names. */
  lemma LocalPositionIff(loads: Loads, account: Option<string>, token: string, start: string, limit: int,
                         at: HistoryPosition)
    requires HISTORY_CURSOR_PREFIX <= token
    ensures ReadHistoryPosition(loads, account, Some(token), start, limit) == Success(at) <==>
            && RequiredText(token, 65536) && at.fingerprint.Some? && IsDigest(at.fingerprint.value)
            && 1 <= at.limit <= 100 && 1 <= at.offset <= 8388608
            && (at.page.Some? ==> RequiredText(at.page.value, 4096))
            && exists version | version in {JInt(1), JBool(true)} ::
                 Read(loads, token[|HISTORY_CURSOR_PREFIX|..])
                 == Some(JArr([version] + HistoryRow(account, start, at.page, at.limit, at.offset,
                                                     at.fingerprint.value)[1..]))
  {
    hide Read, RequiredText, IsDigest;
    match Read(loads, token[|HISTORY_CURSOR_PREFIX|..])
    case Some(JArr(v)) =>
      if |v| == 7 {
        assert v == [v[0]] + v[1..];
        assert v[1..] == [v[1], v[2], v[3], v[4], v[5], v[6]];
      }
    case _ =>
  }

  lemma ThreadPositionIff(loads: Loads, account: Option<string>, token: string, thread: string, history: string,
                          offset: int)
    ensures PagePosition(loads, account, token, thread) == Success((history, offset)) <==>
            && RequiredText(token, 4096) && RequiredText(history, 20) && IsHistoryId(history)
            && 0 <= offset <= 8388608
            && exists version | version in {JInt(1), JBool(true)} ::
                 Read(loads, token) == Some(JArr([version] + ThreadRow(account, thread, history, offset)[1..]))
  {
    hide Read, RequiredText, IsHistoryId;
    match Read(loads, token)
    case Some(JArr(v)) =>
      if |v| == 5 {
        assert v == [v[0]] + v[1..];
        assert v[1..] == [v[1], v[2], v[3], v[4]];
      }
    case _ =>
  }

  lemma ThreadPositionIs(loads: Loads, account: Option<string>, token: string, thread: string)
    ensures var r := PagePosition(loads, account, token, thread);
            if r.Success? then
              IsHistoryId(r.value.0) && 0 <= r.value.1 <= UPSTREAM_MAXIMUM_BYTES && |token| <= 4096 && '\0' !in token
            else r.error == ArgumentsInvalid
  {
    hide Read, IsHistoryId;
  }
}
