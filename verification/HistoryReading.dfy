/** What flattening a provider answer gives, read off the JSON itself: which entry of which list of which
    record each change comes from, what it says, and when the answer is refused. */
module HistoryReading {
  import opened Wrappers
  import opened Json
  import opened GmailText
  import opened HistoryPages

  // ---- fields of an object ----

  /** The last field of this name has this value. */
  predicate Holds(fields: seq<Field>, name: string, value: Json) {
    exists i | 0 <= i < |fields| ::
      && fields[i].name == name && fields[i].value == value
      && forall j | i < j < |fields| :: fields[j].name != name
  }

  predicate Lacks(fields: seq<Field>, name: string) {
    forall i | 0 <= i < |fields| :: fields[i].name != name
  }

  lemma {:induction false} GetIs(fields: seq<Field>, name: string)
    ensures Get(fields, name).None? <==> Lacks(fields, name)
    ensures Get(fields, name).Some? ==> Holds(fields, name, Get(fields, name).value)
  {
    if fields != [] && fields[|fields| - 1].name != name {
      var n := |fields| - 1;
      GetIs(fields[..n], name);
      if Get(fields[..n], name).Some? {
        var i :| 0 <= i < n && fields[..n][i].name == name && fields[..n][i].value == Get(fields, name).value
                 && forall j | i < j < n :: fields[..n][j].name != name;
        assert fields[i].name == name && forall j | i < j < |fields| :: fields[j].name != name;
      }
    }
  }

  lemma HoldsOne(fields: seq<Field>, name: string, a: Json, b: Json)
    requires Holds(fields, name, a) && Holds(fields, name, b)
    ensures a == b
  {
  }

  lemma GetIff(fields: seq<Field>, name: string, value: Json)
    ensures Get(fields, name) == Some(value) <==> Holds(fields, name, value)
  {
    GetIs(fields, name);
    if Holds(fields, name, value) {
      assert !Lacks(fields, name);
      HoldsOne(fields, name, value, Get(fields, name).value);
    }
  }

  predicate HoldsText(fields: seq<Field>, name: string, text: string, maximum: nat) {
    Holds(fields, name, JStr(text)) && ProviderText(text, maximum)
  }

  lemma TextIff(fields: seq<Field>, name: string, text: string, maximum: nat)
    ensures TextAt(fields, name, maximum) == Some(text) <==> HoldsText(fields, name, text, maximum)
  {
    hide Get, Holds, ProviderText;
    GetIff(fields, name, JStr(text));
  }

  predicate HoldsId(fields: seq<Field>, name: string, id: string) {
    Holds(fields, name, JStr(id)) && IsHistoryId(id)
  }

  lemma IdIff(fields: seq<Field>, name: string, id: string)
    ensures HistoryIdAt(fields, name) == Some(id) <==> HoldsId(fields, name, id)
  {
    hide Holds, TextAt, IsHistoryId, ProviderText;
    TextIff(fields, name, id, 20);
    if IsHistoryId(id) {
      HistoryIdIsText(id);
    }
  }

  /** A list, or nothing where the field is left out. */
  predicate HoldsList(fields: seq<Field>, name: string, items: seq<Json>) {
    Holds(fields, name, JArr(items)) || (Lacks(fields, name) && items == [])
  }

  lemma ListIff(fields: seq<Field>, name: string, items: seq<Json>)
    ensures ListAt(fields, name) == Some(items) <==> HoldsList(fields, name, items)
  {
    GetIs(fields, name);
    GetIff(fields, name, JArr(items));
    hide Get, Holds, Lacks;
  }

  // ---- one entry ----

  predicate AreLabels(items: seq<Json>, labels: seq<string>) {
    |items| == |labels| && forall i | 0 <= i < |items| :: items[i] == JStr(labels[i]) && ProviderText(labels[i], 1024)
  }

  lemma {:induction false} LabelsIff(items: seq<Json>, labels: seq<string>)
    ensures Labels(items) == Some(labels) <==> AreLabels(items, labels)
  {
    hide ProviderText;
    if items != [] {
      var n := |items| - 1;
      if labels != [] {
        LabelsIff(items[..n], labels[..|labels| - 1]);
        assert labels == labels[..|labels| - 1] + [labels[|labels| - 1]];
      }
      if Labels(items[..n]).Some? {
        LabelsIff(items[..n], Labels(items[..n]).value);
      }
    }
  }

  /** The labels of an entry are its own, else its message's, else none. */
  ghost predicate EntryLabels(entry: seq<Field>, message: seq<Field>, labels: seq<string>) {
    exists items | AreLabels(items, labels) ::
      if Lacks(entry, "labelIds") then HoldsList(message, "labelIds", items)
      else Holds(entry, "labelIds", JArr(items))
  }

  /** What a change says of the entry it was made from. */
  ghost predicate Tells(entry: seq<Field>, message: seq<Field>, change: Change) {
    && HoldsText(message, "id", change.messageId, 1024) && HoldsText(message, "threadId", change.threadId, 1024)
    && EntryLabels(entry, message, change.labels)
  }

  ghost predicate TellsEntry(entry: Json, change: Change) {
    entry.JObj? &&
    exists message | Holds(entry.fields, "message", JObj(message)) :: Tells(entry.fields, message, change)
  }

  lemma EntryLabelsIff(entry: seq<Field>, message: seq<Field>, labels: seq<string>)
    ensures var found := if Get(entry, "labelIds").Some? then ListAt(entry, "labelIds")
                         else ListAt(message, "labelIds");
            (found.Some? && Labels(found.value) == Some(labels)) <==> EntryLabels(entry, message, labels)
  {
    hide Get, ListAt, Labels, Holds, Lacks, HoldsList, AreLabels;
    var found := if Get(entry, "labelIds").Some? then ListAt(entry, "labelIds") else ListAt(message, "labelIds");
    GetIs(entry, "labelIds");
    if found.Some? {
      LabelsIff(found.value, labels);
      ListIff(entry, "labelIds", found.value);
      ListIff(message, "labelIds", found.value);
      if !Lacks(entry, "labelIds") {
        HoldsListOf(entry, "labelIds", found.value);
      }
    }
    forall items | AreLabels(items, labels)
                   && if Lacks(entry, "labelIds") then HoldsList(message, "labelIds", items)
                      else Holds(entry, "labelIds", JArr(items))
      ensures found == Some(items) && Labels(items) == Some(labels) {
      LabelsIff(items, labels);
      ListIff(entry, "labelIds", items);
      ListIff(message, "labelIds", items);
      if !Lacks(entry, "labelIds") {
        HoldsListOf(entry, "labelIds", items);
      }
    }
  }

  lemma HoldsListOf(fields: seq<Field>, name: string, items: seq<Json>)
    requires !Lacks(fields, name)
    ensures HoldsList(fields, name, items) <==> Holds(fields, name, JArr(items))
  {
    hide Holds, Lacks;
  }

  /** An entry is read as a change exactly when its message has an id and a thread id and its labels are
      texts; and the change says just that, under the record's id and the kind of the list. */
  lemma EntryIff(entry: Json, kind: string, revision: string, change: Change)
    ensures OneChange(entry, kind, revision) == Some(change) <==>
            change.historyId == revision && change.kind == kind && TellsEntry(entry, change)
  {
    hide Get, TextAt, ListAt, Labels, Holds, HoldsText, EntryLabels;
    if entry.JObj? {
      if OneChange(entry, kind, revision) == Some(change) {
        var message := Get(entry.fields, "message").value.fields;
        GetIff(entry.fields, "message", JObj(message));
        MessageIff(entry.fields, message, change);
      }
      forall message | Holds(entry.fields, "message", JObj(message)) && Tells(entry.fields, message, change)
        ensures OneChange(entry, change.kind, change.historyId) == Some(change) {
        GetIff(entry.fields, "message", JObj(message));
        MessageIff(entry.fields, message, change);
      }
    }
  }

  lemma MessageIff(entry: seq<Field>, message: seq<Field>, change: Change)
    ensures Tells(entry, message, change) <==>
            var labels := if Get(entry, "labelIds").Some? then ListAt(entry, "labelIds")
                          else ListAt(message, "labelIds");
            && TextAt(message, "id", 1024) == Some(change.messageId)
            && TextAt(message, "threadId", 1024) == Some(change.threadId)
            && labels.Some? && Labels(labels.value) == Some(change.labels)
  {
    hide Get, TextAt, ListAt, Labels, HoldsText, EntryLabels;
    TextIff(message, "id", change.messageId, 1024);
    TextIff(message, "threadId", change.threadId, 1024);
    EntryLabelsIff(entry, message, change.labels);
  }

  // ---- the entries of an answer, in document order ----

  /** The list fields of a record in the order in which they are read, and the kind of change each tells. */
  predicate KindOf(k: nat, field: string, kind: string) {
    || (k == 0 && field == "messagesAdded" && kind == "message_added")
    || (k == 1 && field == "messagesDeleted" && kind == "message_deleted")
    || (k == 2 && field == "labelsAdded" && kind == "labels_added")
    || (k == 3 && field == "labelsRemoved" && kind == "labels_removed")
  }

  /** The entry at some index of the k-th list of some record. */
  datatype Place = Place(record: nat, k: nat, entry: nat)

  predicate Before(a: Place, b: Place) {
    || a.record < b.record
    || (a.record == b.record && (a.k < b.k || (a.k == b.k && a.entry < b.entry)))
  }

  predicate InOrder(places: seq<Place>) {
    forall i, j | 0 <= i < j < |places| :: Before(places[i], places[j])
  }

  /** That list, where the record has one of well-formed shape. */
  ghost predicate ListOfRecord(records: seq<Json>, p: Place, kind: string, items: seq<Json>) {
    && p.record < |records| && records[p.record].JObj?
    && exists field | KindOf(p.k, field, kind) :: HoldsList(records[p.record].fields, field, items)
  }

  ghost predicate IsPlace(records: seq<Json>, p: Place) {
    exists kind, items | ListOfRecord(records, p, kind, items) :: p.entry < |items|
  }

  /** The change was made from the entry at this place, under the id of its record. */
  ghost predicate MadeAt(records: seq<Json>, p: Place, change: Change) {
    && (exists items | ListOfRecord(records, p, change.kind, items) ::
          p.entry < |items| && TellsEntry(items[p.entry], change))
    && HoldsId(records[p.record].fields, "id", change.historyId)
  }

  /** The changes are those made at these places, and the places are all there are below a bound. */
  ghost predicate Made(records: seq<Json>, places: seq<Place>, changes: seq<Change>, end: Place) {
    && |places| == |changes| && InOrder(places)
    && (forall i | 0 <= i < |places| :: Before(places[i], end) && MadeAt(records, places[i], changes[i]))
    && forall p | IsPlace(records, p) && Before(p, end) :: p in places
  }

  lemma OneList(fields: seq<Field>, name: string, a: seq<Json>, b: seq<Json>)
    requires HoldsList(fields, name, a) && HoldsList(fields, name, b)
    ensures a == b
  {
    hide Holds, Lacks, HoldsList;
    ListIff(fields, name, a);
    ListIff(fields, name, b);
  }

  lemma OneListOfRecord(records: seq<Json>, p: Place, q: Place, kind: string, kind': string, items: seq<Json>,
                        items': seq<Json>)
    requires ListOfRecord(records, p, kind, items) && ListOfRecord(records, q, kind', items')
    requires p.record == q.record && p.k == q.k
    ensures kind == kind' && items == items'
  {
    hide HoldsList;
    var field :| KindOf(p.k, field, kind) && HoldsList(records[p.record].fields, field, items);
    var field' :| KindOf(q.k, field', kind') && HoldsList(records[q.record].fields, field', items');
    OneList(records[p.record].fields, field, items, items');
  }

  lemma NextEntry(records: seq<Json>, places: seq<Place>, changes: seq<Change>, p: Place, items: seq<Json>,
                  change: Change)
    requires Made(records, places, changes, p) && ListOfRecord(records, p, change.kind, items) && p.entry < |items|
    requires TellsEntry(items[p.entry], change) && HoldsId(records[p.record].fields, "id", change.historyId)
    ensures Made(records, places + [p], changes + [change], p.(entry := p.entry + 1))
  {
    hide ListOfRecord, TellsEntry, HoldsId, IsPlace;
    var places', end := places + [p], p.(entry := p.entry + 1);
    assert MadeAt(records, p, change);
    forall q | IsPlace(records, q) && Before(q, end) ensures q in places' {
      assert q == p || Before(q, p);
    }
    BeforeSteps(places, p, end);
  }

  lemma BeforeSteps(places: seq<Place>, p: Place, end: Place)
    requires InOrder(places) && (forall i | 0 <= i < |places| :: Before(places[i], p)) && Before(p, end)
    ensures InOrder(places + [p]) && forall i | 0 <= i < |places + [p]| :: Before((places + [p])[i], end)
  {
  }

  lemma NextList(records: seq<Json>, places: seq<Place>, changes: seq<Change>, p: Place, kind: string,
                 items: seq<Json>)
    requires Made(records, places, changes, p) && ListOfRecord(records, p, kind, items) && p.entry == |items|
    ensures Made(records, places, changes, Place(p.record, p.k + 1, 0))
  {
    hide ListOfRecord, MadeAt;
    var end := Place(p.record, p.k + 1, 0);
    forall q | IsPlace(records, q) && Before(q, end) ensures q in places {
      if q.record == p.record && q.k == p.k {
        var kind', items' :| ListOfRecord(records, q, kind', items') && q.entry < |items'|;
        OneListOfRecord(records, p, q, kind, kind', items, items');
      }
      assert Before(q, p);
    }
  }

  lemma NextRecord(records: seq<Json>, places: seq<Place>, changes: seq<Change>, n: nat)
    requires Made(records, places, changes, Place(n, 4, 0))
    ensures Made(records, places, changes, Place(n + 1, 0, 0))
  {
    hide HoldsList, MadeAt;
    forall q | IsPlace(records, q) && Before(q, Place(n + 1, 0, 0)) ensures q in places {
      assert q.k < 4;
    }
  }

  // ---- the three loops ----

  lemma {:induction false} ListMade(records: seq<Json>, p: Place, kind: string, revision: string, items: seq<Json>,
                                    e: nat, places: seq<Place>, changes: seq<Change>) returns (places': seq<Place>)
    requires Made(records, places, changes, p) && p.entry == 0 && e <= |items|
    requires ListOfRecord(records, p, kind, items) && HoldsId(records[p.record].fields, "id", revision)
    requires ChangesOf(items[..e], kind, revision).Some?
    ensures Made(records, places', changes + ChangesOf(items[..e], kind, revision).value, p.(entry := e))
  {
    hide OneChange, ListOfRecord, HoldsId, TellsEntry, Made;
    if e == 0 {
      places' := places;
      assert items[..0] == [] && changes + [] == changes;
    } else {
      assert items[..e][..e - 1] == items[..e - 1] && items[..e][e - 1] == items[e - 1];
      places' := ListMade(records, p, kind, revision, items, e - 1, places, changes);
      var before := ChangesOf(items[..e - 1], kind, revision).value;
      var last := OneChange(items[e - 1], kind, revision).value;
      EntryIff(items[e - 1], kind, revision, last);
      SamePlaceList(records, p, p.(entry := e - 1), kind, items);
      NextEntry(records, places', changes + before, p.(entry := e - 1), items, last);
      places' := places' + [p.(entry := e - 1)];
      assert changes + before + [last] == changes + (before + [last]);
    }
  }

  lemma SamePlaceList(records: seq<Json>, p: Place, q: Place, kind: string, items: seq<Json>)
    requires ListOfRecord(records, p, kind, items) && q.record == p.record && q.k == p.k
    ensures ListOfRecord(records, q, kind, items)
  {
  }

  lemma KindsAre(k: nat)
    requires k < 4
    ensures |KINDS| == 4 && KindOf(k, KINDS[k].0, KINDS[k].1)
  {
  }

  lemma {:induction false} RecordMade(records: seq<Json>, n: nat, revision: string, k: nat, places: seq<Place>,
                                      changes: seq<Change>) returns (places': seq<Place>)
    requires n < |records| && records[n].JObj? && HoldsId(records[n].fields, "id", revision) && k <= 4
    requires Made(records, places, changes, Place(n, 0, 0))
    requires RecordUpTo(records[n].fields, revision, k).Some?
    ensures Made(records, places', changes + RecordUpTo(records[n].fields, revision, k).value, Place(n, k, 0))
  {
    hide ChangesOf, HoldsId, HoldsList, Made, ListAt;
    var fields := records[n].fields;
    if k == 0 {
      places' := places;
      assert changes + [] == changes;
    } else {
      KindsAre(k - 1);
      places' := RecordMade(records, n, revision, k - 1, places, changes);
      var before := RecordUpTo(fields, revision, k - 1).value;
      var items, kind, p := ListAt(fields, KINDS[k - 1].0).value, KINDS[k - 1].1, Place(n, k - 1, 0);
      ListIff(fields, KINDS[k - 1].0, items);
      assert ListOfRecord(records, p, kind, items) && items[..|items|] == items;
      places' := ListMade(records, p, kind, revision, items, |items|, places', changes + before);
      NextList(records, places', changes + before + ChangesOf(items, kind, revision).value, p.(entry := |items|), kind,
               items);
      assert changes + before + ChangesOf(items, kind, revision).value
          == changes + (before + ChangesOf(items, kind, revision).value);
    }
  }

  lemma NothingMade(records: seq<Json>)
    ensures Made(records, [], [], Place(0, 0, 0))
  {
  }

  lemma {:induction false} RecordsMade(records: seq<Json>, n: nat) returns (places: seq<Place>)
    requires n <= |records| && Flatten(records[..n]).Some?
    ensures Made(records, places, Flatten(records[..n]).value, Place(n, 0, 0))
  {
    hide RecordUpTo, Made, HoldsId, HistoryIdAt;
    if n == 0 {
      places := [];
      assert records[..0] == [];
      NothingMade(records);
    } else {
      assert records[..n][..n - 1] == records[..n - 1] && records[..n][n - 1] == records[n - 1];
      places := RecordsMade(records, n - 1);
      var fields := records[n - 1].fields;
      var revision := HistoryIdAt(fields, "id").value;
      IdIff(fields, "id", revision);
      places := RecordMade(records, n - 1, revision, 4, places, Flatten(records[..n - 1]).value);
      NextRecord(records, places, Flatten(records[..n]).value, n - 1);
    }
  }

  /** What flattening gives: the changes are made one from each entry of each list of each record, in document
      order, and each tells its own record's id, its list's kind and its entry's message. */
  lemma FlattenedAre(records: seq<Json>) returns (places: seq<Place>)
    requires Flatten(records).Some?
    ensures var changes := Flatten(records).value;
            && |places| == |changes| && InOrder(places)
            && forall i | 0 <= i < |places| :: MadeAt(records, places[i], changes[i])
    ensures forall p :: IsPlace(records, p) <==> p in places
  {
    hide ListOfRecord, TellsEntry, HoldsId;
    assert records[..|records|] == records;
    places := RecordsMade(records, |records|);
    var changes := Flatten(records).value;
    forall p | p in places ensures IsPlace(records, p) {
      var i :| 0 <= i < |places| && places[i] == p;
      assert MadeAt(records, places[i], changes[i]);
    }
    forall p | IsPlace(records, p) ensures p in places {
      PlaceIsBelow(records, p);
    }
  }

  lemma PlaceIsBelow(records: seq<Json>, p: Place)
    requires IsPlace(records, p)
    ensures Before(p, Place(|records|, 0, 0))
  {
  }

  // ---- when an answer is refused ----

  ghost predicate EntryReads(entry: Json) {
    exists change :: TellsEntry(entry, change)
  }

  lemma EntryReadsIff(entry: Json, kind: string, revision: string)
    ensures OneChange(entry, kind, revision).Some? <==> EntryReads(entry)
  {
    hide OneChange, Tells;
    if OneChange(entry, kind, revision).Some? {
      EntryIff(entry, kind, revision, OneChange(entry, kind, revision).value);
    }
    if change :| TellsEntry(entry, change) {
      assert TellsEntry(entry, change.(historyId := revision, kind := kind)) by {
        hide *;
        SameTale(entry, change, revision, kind);
      }
      EntryIff(entry, kind, revision, change.(historyId := revision, kind := kind));
    }
  }

  lemma SameTale(entry: Json, change: Change, revision: string, kind: string)
    requires TellsEntry(entry, change)
    ensures TellsEntry(entry, change.(historyId := revision, kind := kind))
  {
    hide Holds, HoldsText, EntryLabels;
    var message :| Holds(entry.fields, "message", JObj(message)) && Tells(entry.fields, message, change);
    assert Tells(entry.fields, message, change.(historyId := revision, kind := kind));
  }

  lemma {:induction false} EntriesReadIff(items: seq<Json>, kind: string, revision: string)
    ensures ChangesOf(items, kind, revision).Some? <==> forall e | 0 <= e < |items| :: EntryReads(items[e])
  {
    hide OneChange, EntryReads;
    if items != [] {
      var n := |items| - 1;
      EntriesReadIff(items[..n], kind, revision);
      EntryReadsIff(items[n], kind, revision);
    }
  }

  /** A record with an id whose four lists, as far as they are there, are lists of entries that read. */
  ghost predicate RecordReads(record: Json) {
    && record.JObj? && (exists id :: HoldsId(record.fields, "id", id))
    && forall k: nat | k < 4 :: ListReads(record.fields, k)
  }

  ghost predicate ListReads(fields: seq<Field>, k: nat) {
    exists field, kind, items | KindOf(k, field, kind) && HoldsList(fields, field, items) ::
      forall e | 0 <= e < |items| :: EntryReads(items[e])
  }

  lemma OneKind(k: nat, field: string, kind: string, field': string, kind': string)
    requires KindOf(k, field, kind) && KindOf(k, field', kind')
    ensures field == field' && kind == kind'
  {
  }

  lemma NamedListReadsIff(fields: seq<Field>, revision: string, k: nat, name: string, kind: string)
    requires KindOf(k, name, kind)
    ensures ListReads(fields, k) <==>
            ListAt(fields, name).Some? && ChangesOf(ListAt(fields, name).value, kind, revision).Some?
  {
    hide ListAt, ChangesOf, HoldsList, EntryReads, KindOf;
    if ListAt(fields, name).Some? {
      var items := ListAt(fields, name).value;
      ListIff(fields, name, items);
      EntriesReadIff(items, kind, revision);
    }
    if ListReads(fields, k) {
      var field, kind', items :| KindOf(k, field, kind') && HoldsList(fields, field, items)
                                 && forall e | 0 <= e < |items| :: EntryReads(items[e]);
      OneKind(k, name, kind, field, kind');
      ListIff(fields, name, items);
      EntriesReadIff(items, kind, revision);
    }
  }

  lemma ListReadsIff(fields: seq<Field>, revision: string, k: nat)
    requires k < 4
    ensures |KINDS| == 4
    ensures ListReads(fields, k) <==>
            ListAt(fields, KINDS[k].0).Some?
            && ChangesOf(ListAt(fields, KINDS[k].0).value, KINDS[k].1, revision).Some?
  {
    hide ListAt, ChangesOf, ListReads, KindOf;
    KindsAre(k);
    NamedListReadsIff(fields, revision, k, KINDS[k].0, KINDS[k].1);
  }

  lemma {:induction false} ListsReadIff(fields: seq<Field>, revision: string, k: nat)
    requires k <= 4
    ensures |KINDS| == 4
    ensures RecordUpTo(fields, revision, k).Some? <==> forall j: nat | j < k :: ListReads(fields, j)
  {
    hide ListAt, ChangesOf, ListReads;
    if k > 0 {
      ListsReadIff(fields, revision, k - 1);
      ListReadsIff(fields, revision, k - 1);
    }
  }

  lemma RecordReadsIff(record: Json)
    ensures OneRecord(record).Some? <==> RecordReads(record)
  {
    hide RecordUpTo, HistoryIdAt, ListReads, HoldsId;
    if record.JObj? {
      if HistoryIdAt(record.fields, "id").Some? {
        IdIff(record.fields, "id", HistoryIdAt(record.fields, "id").value);
        ListsReadIff(record.fields, HistoryIdAt(record.fields, "id").value, 4);
      }
      if id :| HoldsId(record.fields, "id", id) {
        IdIff(record.fields, "id", id);
      }
    }
  }

  /** Flattening fails exactly where some record does not read. */
  lemma {:induction false} FlattenReadsIff(records: seq<Json>)
    ensures Flatten(records).Some? <==> forall n | 0 <= n < |records| :: RecordReads(records[n])
  {
    hide OneRecord, RecordReads;
    if records != [] {
      var n := |records| - 1;
      FlattenReadsIff(records[..n]);
      RecordReadsIff(records[n]);
    }
  }

  /** What is taken of a whole answer: its history id, the token if one is named, and the flattened records,
      which are no more than were asked for. */
  lemma NormalizeIff(fields: seq<Field>, limit: int, p: Provided)
    ensures Normalize(fields, limit) == Some(p) <==>
            && HoldsId(fields, "historyId", p.historyId)
            && (if p.next.Some? then HoldsText(fields, "nextPageToken", p.next.value, 4096)
                else Lacks(fields, "nextPageToken"))
            && exists records | HoldsList(fields, "history", records) ::
                 |records| <= limit && Flatten(records) == Some(p.changes)
  {
    hide Get, HistoryIdAt, TextAt, ListAt, Flatten, Holds, Lacks, HoldsId, HoldsText, HoldsList;
    IdIff(fields, "historyId", p.historyId);
    NextIff(fields, p.next);
    if ListAt(fields, "history").Some? {
      ListIff(fields, "history", ListAt(fields, "history").value);
    }
    forall records | HoldsList(fields, "history", records) ensures ListAt(fields, "history") == Some(records) {
      ListIff(fields, "history", records);
    }
  }

  lemma NextIff(fields: seq<Field>, next: Option<string>)
    ensures (Get(fields, "nextPageToken").Some? ==> TextAt(fields, "nextPageToken", 4096).Some?)
            && TextAt(fields, "nextPageToken", 4096) == next <==>
            if next.Some? then HoldsText(fields, "nextPageToken", next.value, 4096) else Lacks(fields, "nextPageToken")
  {
    hide Holds, Lacks, HoldsText;
    GetIs(fields, "nextPageToken");
    if next.Some? {
      TextIff(fields, "nextPageToken", next.value, 4096);
    }
  }
}
