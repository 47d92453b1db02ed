/** `sync_changes`: provider history pages re-cut to a byte limit and resumed through local cursors
    that pin the provider page they were cut from. */
module HistoryPages {
  import opened Wrappers
  import opened Utf8
  import opened Json
  import opened GmailText
  import opened JsonReader
  import opened Cursors

  datatype Change = Change(historyId: string, kind: string, messageId: string, threadId: string, labels: seq<string>)

  /** What a provider answers to one history request. */
  datatype Response = Absent | Refused(code: Code) | Answer(fields: seq<Field>)

  /** A provider page once its nested change lists are flattened. */
  datatype Provided = Provided(historyId: string, next: Option<string>, changes: seq<Change>)

  datatype Batch = Synced(resync: bool, historyId: Option<string>, next: Option<string>, changes: seq<Change>)

  /** `hashlib.sha256` over the flattened page, as a function of what is hashed. */
  type Digest = (seq<Change>, Option<string>) -> string

  ghost predicate HexDigest(digest: Digest) {
    forall changes, next :: IsDigest(digest(changes, next))
  }

  // ---- flattening one provider answer ----

  /** `dict.get`: the last field of that name. */
  function Get(fields: seq<Field>, name: string): Option<Json> {
    if fields == [] then None
    else
      var last := fields[|fields| - 1];
      if last.name == name then Some(last.value) else Get(fields[..|fields| - 1], name)
  }

  function TextAt(fields: seq<Field>, name: string, maximum: nat): Option<string> {
    match Get(fields, name)
    case Some(JStr(s)) => if ProviderText(s, maximum) then Some(s) else None
    case _ => None
  }

  function HistoryIdAt(fields: seq<Field>, name: string): Option<string> {
    match TextAt(fields, name, 20)
    case Some(s) => if IsHistoryId(s) then Some(s) else None
    case None => None
  }

  /** A list-valued field that may be left out; None when it is not a list. */
  function ListAt(fields: seq<Field>, name: string): Option<seq<Json>> {
    match Get(fields, name)
    case None => Some([])
    case Some(JArr(items)) => Some(items)
    case _ => None
  }

  function Labels(items: seq<Json>): Option<seq<string>> {
    if items == [] then Some([])
    else
      var last := items[|items| - 1];
      match Labels(items[..|items| - 1])
      case None => None
      case Some(labels) =>
        if last.JStr? && ProviderText(last.text, 1024) then Some(labels + [last.text]) else None
  }

  function OneChange(change: Json, kind: string, revision: string): Option<Change> {
    if !change.JObj? then None
    else match Get(change.fields, "message") {
      case Some(JObj(message)) =>
        var id, thread := TextAt(message, "id", 1024), TextAt(message, "threadId", 1024);
        var labels := if Get(change.fields, "labelIds").Some? then ListAt(change.fields, "labelIds")
                      else ListAt(message, "labelIds");
        if id.None? || thread.None? || labels.None? || Labels(labels.value).None? then None
        else Some(Change(revision, kind, id.value, thread.value, Labels(labels.value).value))
      case _ => None
    }
  }

  function ChangesOf(changes: seq<Json>, kind: string, revision: string): Option<seq<Change>> {
    if changes == [] then Some([])
    else match (ChangesOf(changes[..|changes| - 1], kind, revision),
                OneChange(changes[|changes| - 1], kind, revision)) {
      case (Some(before), Some(last)) => Some(before + [last])
      case _ => None
    }
  }

  const KINDS := [("messagesAdded", "message_added"), ("messagesDeleted", "message_deleted"),
                  ("labelsAdded", "labels_added"), ("labelsRemoved", "labels_removed")]

  /** The changes of one history record's first `k` kinds. */
  function RecordUpTo(record: seq<Field>, revision: string, k: nat): Option<seq<Change>>
    requires k <= |KINDS|
  {
    if k == 0 then Some([])
    else match (RecordUpTo(record, revision, k - 1), ListAt(record, KINDS[k - 1].0)) {
      case (Some(before), Some(items)) =>
        var here := ChangesOf(items, KINDS[k - 1].1, revision);
        if here.None? then None else Some(before + here.value)
      case _ => None
    }
  }

  function OneRecord(record: Json): Option<seq<Change>> {
    if !record.JObj? || HistoryIdAt(record.fields, "id").None? then None
    else RecordUpTo(record.fields, HistoryIdAt(record.fields, "id").value, |KINDS|)
  }

  function Flatten(records: seq<Json>): Option<seq<Change>> {
    if records == [] then Some([])
    else match (Flatten(records[..|records| - 1]), OneRecord(records[|records| - 1])) {
      case (Some(before), Some(last)) => Some(before + last)
      case _ => None
    }
  }

  /** Once a prefix fails, the whole fails. */
  lemma {:induction false} FlattenFails(records: seq<Json>, i: nat)
    requires i <= |records| && Flatten(records[..i]).None?
    ensures Flatten(records).None?
    decreases |records|
  {
    if i < |records| {
      assert records[..|records| - 1][..i] == records[..i];
      FlattenFails(records[..|records| - 1], i);
    } else {
      assert records[..i] == records;
    }
  }

  lemma {:induction false} ChangesFail(changes: seq<Json>, kind: string, revision: string, i: nat)
    requires i <= |changes| && ChangesOf(changes[..i], kind, revision).None?
    ensures ChangesOf(changes, kind, revision).None?
    decreases |changes|
  {
    if i < |changes| {
      assert changes[..|changes| - 1][..i] == changes[..i];
      ChangesFail(changes[..|changes| - 1], kind, revision, i);
    } else {
      assert changes[..i] == changes;
    }
  }

  lemma {:induction false} KindsFail(record: seq<Field>, revision: string, k: nat, n: nat)
    requires k <= n <= |KINDS| && RecordUpTo(record, revision, k).None?
    ensures RecordUpTo(record, revision, n).None?
  {
    if k < n {
      KindsFail(record, revision, k, n - 1);
    }
  }

  /** The three nested loops, one method each; None where they raise. */
  method FlattenLoop(records: seq<Json>) returns (r: Option<seq<Change>>)
    ensures r == Flatten(records)
  {
    var changes: seq<Change> := [];
    for i := 0 to |records|
      invariant Flatten(records[..i]) == Some(changes)
    {
      assert records[..i + 1][..i] == records[..i];
      var here := RecordLoop(records[i]);
      if here.None? {
        FlattenFails(records, i + 1);
        return None;
      }
      changes := changes + here.value;
    }
    assert records[..|records|] == records;
    r := Some(changes);
  }

  method RecordLoop(record: Json) returns (r: Option<seq<Change>>)
    ensures r == OneRecord(record)
  {
    if !record.JObj? || HistoryIdAt(record.fields, "id").None? {
      return None;
    }
    var revision := HistoryIdAt(record.fields, "id").value;
    var changes: seq<Change> := [];
    for k := 0 to |KINDS|
      invariant RecordUpTo(record.fields, revision, k) == Some(changes)
    {
      var items := ListAt(record.fields, KINDS[k].0);
      if items.None? {
        KindsFail(record.fields, revision, k + 1, |KINDS|);
        return None;
      }
      var here := ChangesLoop(items.value, KINDS[k].1, revision);
      if here.None? {
        KindsFail(record.fields, revision, k + 1, |KINDS|);
        return None;
      }
      changes := changes + here.value;
    }
    r := Some(changes);
  }

  method ChangesLoop(items: seq<Json>, kind: string, revision: string) returns (r: Option<seq<Change>>)
    ensures r == ChangesOf(items, kind, revision)
  {
    var changes: seq<Change> := [];
    for j := 0 to |items|
      invariant ChangesOf(items[..j], kind, revision) == Some(changes)
    {
      assert items[..j + 1][..j] == items[..j];
      var change := OneChange(items[j], kind, revision);
      if change.None? {
        ChangesFail(items, kind, revision, j + 1);
        return None;
      }
      changes := changes + [change.value];
    }
    assert items[..|items|] == items;
    r := Some(changes);
  }

  /** Everything the call checks about a provider answer before it re-cuts it. */
  function Normalize(fields: seq<Field>, limit: int): Option<Provided> {
    var records := ListAt(fields, "history");
    if HistoryIdAt(fields, "historyId").None? then None
    else if Get(fields, "nextPageToken").Some? && TextAt(fields, "nextPageToken", 4096).None? then None
    else if records.None? || |records.value| > limit || Flatten(records.value).None? then None
    else Some(Provided(HistoryIdAt(fields, "historyId").value, TextAt(fields, "nextPageToken", 4096),
                       Flatten(records.value).value))
  }

  // ---- cutting a page to the byte limit ----

  /** What is fixed while one call looks for its page. */
  datatype Cut = Cut(account: Option<string>, start: string, page: Option<string>, limit: int, offset: nat,
                     fingerprint: string, provided: Provided)

  predicate ValidCut(c: Cut) {
    && Mintable(c.account, c.start, c.page, c.limit, 1, c.fingerprint)
    && c.offset <= |c.provided.changes| <= UPSTREAM_MAXIMUM_BYTES
    && IsHistoryId(c.provided.historyId)
    && (c.provided.next.Some? ==> ProviderText(c.provided.next.value, 4096))
  }

  /** The inner function `page(count)`. */
  function PageOf(c: Cut, count: nat): Batch
    requires c.offset + count <= |c.provided.changes|
  {
    var end := c.offset + count;
    Synced(false, Some(c.provided.historyId),
           if end < |c.provided.changes| then
             Some(HistoryToken(c.account, c.start, c.page, c.limit, end, c.fingerprint))
           else c.provided.next,
           c.provided.changes[c.offset..end])
  }

  function ChangeJson(change: Change): Json {
    JObj([Field("history_id", JStr(change.historyId)), Field("kind", JStr(change.kind)),
          Field("message_id", JStr(change.messageId)), Field("thread_id", JStr(change.threadId)),
          Field("label_ids",
                JArr(seq(|change.labels|, i requires 0 <= i < |change.labels| => JStr(change.labels[i]))))])
  }

  function ChangesJson(changes: seq<Change>): seq<Json> {
    seq(|changes|, i requires 0 <= i < |changes| => ChangeJson(changes[i]))
  }

  function ResultFields(r: Batch): seq<Field> {
    [Field("schema_version", JInt(1)), Field("resync_required", JBool(r.resync)),
     Field("history_id", Nullable(r.historyId)), Field("next_page_token", Nullable(r.next)),
     Field("changes", JArr(ChangesJson(r.changes)))]
  }

  predicate Fits(c: Cut, count: nat)
    requires c.offset + count <= |c.provided.changes|
  {
    Size(JObj(ResultFields(PageOf(c, count))), COMPACT) <= OUTPUT_MAXIMUM_BYTES
  }

  /** The plain reading of "as many changes as fit": try the largest count first. */
  function LargestFit(c: Cut, n: nat): (r: Option<nat>)
    requires c.offset + n <= |c.provided.changes|
    ensures r.Some? ==> 1 <= r.value <= n && Fits(c, r.value)
    ensures forall m | 1 <= m <= n && Fits(c, m) :: r.Some? && m <= r.value
  {
    if n == 0 then None else if Fits(c, n) then Some(n) else LargestFit(c, n - 1)
  }

  lemma NumberGrows(m: nat, n: nat)
    requires m <= n
    ensures Size(JInt(m), COMPACT) <= Size(JInt(n), COMPACT)
  {
    hide Decimal;
    DecimalGrows(m, n);
    DecimalPlain(m);
    DecimalPlain(n);
    PlainText(Decimal(m), false);
    PlainText(Decimal(n), false);
  }

  lemma CursorGrows(c: Cut, m: nat, n: nat)
    requires ValidCut(c) && 1 <= m <= n <= UPSTREAM_MAXIMUM_BYTES
    ensures Size(JStr(HistoryToken(c.account, c.start, c.page, c.limit, m, c.fingerprint)), COMPACT)
         <= Size(JStr(HistoryToken(c.account, c.start, c.page, c.limit, n, c.fingerprint)), COMPACT)
  {
    hide Write, Size;
    var low := HistoryRow(c.account, c.start, c.page, c.limit, m, c.fingerprint);
    var high := HistoryRow(c.account, c.start, c.page, c.limit, n, c.fingerprint);
    NumberGrows(m, n);
    forall i | 0 <= i < 7 ensures Size(low[i], COMPACT) <= Size(high[i], COMPACT) {
    }
    ItemsPointwise(low, high, COMPACT);
    ArraySize(low, COMPACT);
    ArraySize(high, COMPACT);
    TokenSize(low);
    TokenSize(high);
  }

  lemma TokenSize(row: seq<Json>)
    requires IsRow(row)
    ensures Size(JStr(HISTORY_CURSOR_PREFIX + Write(row, COMPACT)), COMPACT)
         == |HISTORY_CURSOR_PREFIX| + (4 * Size(JArr(row), COMPACT) + 2) / 3 + 2
  {
    WrittenRowIsPlain(row, COMPACT);
    var token := HISTORY_CURSOR_PREFIX + Write(row, COMPACT);
    assert Plain(token);
    PlainText(token, false);
    Bytes("\"", token);
    Bytes("\"" + token, "\"");
    AsciiBytes("\"");
  }

  lemma {:induction false} ChangesJsonGrow(changes: seq<Change>, from: nat, m: nat, n: nat)
    requires from <= m <= n <= |changes|
    ensures Size(JArr(ChangesJson(changes[from..m])), COMPACT) <= Size(JArr(ChangesJson(changes[from..n])), COMPACT)
  {
    if m < n {
      ChangesJsonGrow(changes, from, m, n - 1);
      var less, more := ChangesJson(changes[from..n - 1]), ChangesJson(changes[from..n]);
      assert more == less + [ChangeJson(changes[n - 1])];
      ItemsGrow(less, ChangeJson(changes[n - 1]), COMPACT);
      ArraySize(less, COMPACT);
      ArraySize(more, COMPACT);
    }
  }

  /** Short of the last change, a page that fits has only smaller pages that fit. At the last change
      the continuation changes form, and this may fail. */
  lemma FitsDownward(c: Cut, m: nat, n: nat)
    requires ValidCut(c) && 1 <= m <= n && c.offset + n < |c.provided.changes|
    requires Fits(c, n)
    ensures Fits(c, m)
  {
    hide Size, HistoryToken, ChangesJson;
    var low, high := ResultFields(PageOf(c, m)), ResultFields(PageOf(c, n));
    CursorGrows(c, c.offset + m, c.offset + n);
    ChangesJsonGrow(c.provided.changes, c.offset, c.offset + m, c.offset + n);
    FieldsPointwise(low, high, COMPACT);
    ObjectSizeOf(low, COMPACT);
    ObjectSizeOf(high, COMPACT);
  }

  /** The whole count was measured and rejected; the binary search below it finds the largest page
      that fits, which is what trying every count would find. */
  method SearchLargest(c: Cut, count: nat) returns (r: Option<nat>)
    requires ValidCut(c) && c.offset + count <= |c.provided.changes| && !Fits(c, count)
    ensures r == LargestFit(c, count)
  {
    hide Fits, ValidCut;
    var low, high := 0, count;
    while low < high
      invariant 0 <= low <= high <= count
      invariant low > 0 ==> Fits(c, low)
      invariant forall m | high < m <= count :: !Fits(c, m)
    {
      var middle := (low + high + 1) / 2;
      if Fits(c, middle) {
        low := middle;
      } else {
        forall m | middle <= m <= count ensures !Fits(c, m) {
          if m < count && Fits(c, m) {
            FitsDownward(c, middle, m);
          }
        }
        high := middle - 1;
      }
    }
    r := if low == 0 then None else Some(low);
  }

  /** The cutting half of the call; None where it raises. */
  function CutPage(c: Cut, limit: nat): Option<Batch>
    requires c.offset <= |c.provided.changes|
  {
    var rest := |c.provided.changes| - c.offset;
    var count := if limit <= rest then limit else rest;
    if Fits(c, count) then Some(PageOf(c, count))
    else match LargestFit(c, count) {
      case None => None
      case Some(n) => Some(PageOf(c, n))
    }
  }

  method CutPageLoop(c: Cut, limit: nat) returns (r: Option<Batch>)
    requires ValidCut(c)
    ensures r == CutPage(c, limit)
  {
    hide Size, PageOf, LargestFit;
    var rest := |c.provided.changes| - c.offset;
    var count := if limit <= rest then limit else rest;
    var candidate := PageOf(c, count);
    if Size(JObj(ResultFields(candidate)), COMPACT) > OUTPUT_MAXIMUM_BYTES {
      var found := SearchLargest(c, count);
      if found.None? {
        return None;
      }
      candidate := PageOf(c, found.value);
    }
    if Size(JObj(ResultFields(candidate)), COMPACT) > OUTPUT_MAXIMUM_BYTES {
      return None;
    }
    r := Some(candidate);
  }

  lemma NamesAreShort(r: Batch)
    ensures var f := ResultFields(r);
            && |f| == 5 && f == [f[0], f[1], f[2], f[3], f[4]] && (forall i | 0 <= i < 5 :: |f[i].name| <= 20)
            && f[0].value == JInt(1) && f[1].value == JBool(r.resync) && f[2].value == Nullable(r.historyId)
            && f[3].value == Nullable(r.next) && f[4].value == JArr(ChangesJson(r.changes))
  {
  }

  lemma FiveFields(a: Field, b: Field, c: Field, d: Field, e: Field)
    ensures FieldsBound([a, b, c, d, e]) ==
            6 * (|a.name| + |b.name| + |c.name| + |d.name| + |e.name|) + 20
            + PieceBound(a.value) + PieceBound(b.value) + PieceBound(c.value) + PieceBound(d.value)
            + PieceBound(e.value)
  {
    hide PieceBound;
    FieldsBoundFirst(a, [b, c, d, e]);
    FieldsBoundFirst(b, [c, d, e]);
    FieldsBoundFirst(c, [d, e]);
    FieldsBoundFirst(d, [e]);
    FieldsBoundFirst(e, []);
  }

  lemma PieceOfOne()
    ensures PieceBound(JInt(1)) <= 7
  {
    DigitsAtMost(1);
  }

  lemma EmptyPageFits(c: Cut)
    requires ValidCut(c) && c.offset == |c.provided.changes|
    ensures Fits(c, 0)
  {
    hide Size, PieceBound, FieldsBound, ResultFields;
    var f := ResultFields(PageOf(c, 0));
    NamesAreShort(PageOf(c, 0));
    FiveFields(f[0], f[1], f[2], f[3], f[4]);
    forall i | 1 <= i < 5 ensures PieceBound(f[i].value) <= 6 * 4096 + 2 {
      PieceAtMost(f[i].value);
    }
    PieceOfOne();
    ObjectSize(f);
  }

  /** `r` is the page of some count up to `count` that fits, and no larger count fits. */
  ghost predicate IsLongestPage(c: Cut, count: nat, r: Batch)
    requires c.offset + count <= |c.provided.changes|
  {
    exists n | 0 <= n <= count ::
      && r == PageOf(c, n) && Fits(c, n)
      && forall m | n < m <= count :: !Fits(c, m)
  }

  /** The byte-limited page is the longest one that fits, and never empty while changes are left: the
      call fails exactly when neither a single change nor the whole remainder fits. */
  lemma CutIsLongest(c: Cut, limit: nat)
    requires ValidCut(c) && limit >= 1
    ensures var rest := |c.provided.changes| - c.offset;
            var count := if limit <= rest then limit else rest;
            var cut := CutPage(c, limit);
            && (cut.Some? ==> IsLongestPage(c, count, cut.value) && (rest > 0 ==> cut.value.changes != []))
            && (cut.None? <==> rest > 0 && !Fits(c, 1) && !Fits(c, count))
  {
    hide Fits, Mintable, HistoryToken;
    var rest := |c.provided.changes| - c.offset;
    var count := if limit <= rest then limit else rest;
    if rest == 0 {
      EmptyPageFits(c);
    } else if !Fits(c, count) {
      forall m | 1 <= m < count && Fits(c, m) ensures Fits(c, 1) {
        FitsDownward(c, 1, m);
      }
    }
    var n := if Fits(c, count) then count else if LargestFit(c, count).Some? then LargestFit(c, count).value else 0;
    assert CutPage(c, limit).Some? ==> CutPage(c, limit).value == PageOf(c, n) && Fits(c, n);
  }

  lemma CutIsPage(c: Cut, limit: nat) returns (n: nat)
    requires ValidCut(c) && limit >= 1 && CutPage(c, limit).Some?
    ensures c.offset + n <= |c.provided.changes| && CutPage(c, limit).value == PageOf(c, n)
    ensures c.offset < |c.provided.changes| ==> n > 0
  {
    hide Fits, PageOf, Mintable;
    var rest := |c.provided.changes| - c.offset;
    var count := if limit <= rest then limit else rest;
    n := if Fits(c, count) then count else LargestFit(c, count).value;
  }
}
