/** `scripts/check_citations.py`: every citation judged against the ledger, drifted ones relocated by
    content and rewritten, and the new ledger. The main result is that a clean `--update` is a fixpoint. */
module CitationLedger {
  import opened Wrappers
  import opened Characters
  import opened Json
  import opened CitationText
  import Words

  const EXCERPT_CHARS := 60

  /** The live documents in scan order, the index of citable files by name, and every file's lines. */
  datatype Corpus = Corpus(live: seq<string>, index: map<string, string>, docs: map<string, seq<string>>)

  predicate Indexed(c: Corpus) {
    forall name | name in c.index :: c.index[name] in c.docs
  }

  predicate Valid(c: Corpus) {
    && (forall i | 0 <= i < |c.live| :: c.live[i] in c.docs)
    && (forall i, j | 0 <= i < j < |c.live| :: c.live[i] != c.live[j])
    && Indexed(c)
  }

  // ---- what a span holds ----

  /** `" ".join(text.split())`, given whether a word was written and white space followed it. */
  function Squeeze(s: string, started: bool, gap: bool): string {
    if s == "" then ""
    else if IsSpace(s[0]) then Squeeze(s[1..], started, true)
    else (if started && gap then " " else "") + [s[0]] + Squeeze(s[1..], true, false)
  }

  function Norm(s: string): string {
    Squeeze(s, false, false)
  }

  /** `excerpt_of`: the first non-blank line of the span. */
  function Excerpt(lines: seq<string>, lo: int, hi: int): string
    decreases if lo < 1 then 1 - lo else 0, hi - lo
  {
    if lo < 1 then Excerpt(lines, 1, hi)
    else if lo > hi then ""
    else if lo - 1 < |lines| && !Blank(lines[lo - 1]) then Front(Norm(lines[lo - 1]), EXCERPT_CHARS)
    else Excerpt(lines, lo + 1, hi)
  }

  function SpanLines(lines: seq<string>, lo: int, hi: int): seq<string> {
    if lo < 1 || hi < lo || hi > |lines| then []
    else seq(hi - lo + 1, i requires 0 <= i < hi - lo + 1 => Norm(lines[lo - 1 + i]))
  }

  /** `digest_of`. The hash never collides here: a digest is the text that was hashed. */
  function Digest(lines: seq<string>, lo: int, hi: int): Option<seq<string>> {
    if SpanLines(lines, lo, hi) == [] then None else Some(SpanLines(lines, lo, hi))
  }

  datatype Entry = Entry(excerpt: string, digest: Option<seq<string>>)

  function Fingerprint(lines: seq<string>, lo: int, hi: int): Entry {
    Entry(Excerpt(lines, lo, hi), Digest(lines, lo, hi))
  }

  // ---- relocation ----

  predicate IsHit(lines: seq<string>, recorded: Entry, width: int, n: int)
    requires 1 <= n <= |lines|
  {
    && Front(Norm(lines[n - 1]), EXCERPT_CHARS) == recorded.excerpt
    && Digest(lines, n, n + width - 1).Some?
    && (recorded.digest.Some? ==> Digest(lines, n, n + width - 1) == recorded.digest)
  }

  /** The hits among the first `k` lines. */
  function Hits(lines: seq<string>, recorded: Entry, width: int, k: nat): (hits: seq<nat>)
    requires k <= |lines|
    ensures forall n | n in hits :: 1 <= n <= k && IsHit(lines, recorded, width, n)
    ensures forall n | 1 <= n <= k && IsHit(lines, recorded, width, n) :: n in hits
  {
    if k == 0 then [] else Hits(lines, recorded, width, k - 1) + if IsHit(lines, recorded, width, k) then [k] else []
  }

  /** `find_span` */
  method FindSpan(lines: seq<string>, recorded: Entry, width: int) returns (hits: seq<nat>)
    ensures hits == Hits(lines, recorded, width, |lines|)
  {
    hits := [];
    for i := 0 to |lines|
      invariant hits == Hits(lines, recorded, width, i)
    {
      var n := i + 1;
      if Front(Norm(lines[i]), EXCERPT_CHARS) != recorded.excerpt {
        continue;
      }
      var found := Digest(lines, n, n + width - 1);
      if found.None? {
        continue;
      }
      if recorded.digest.Some? && found != recorded.digest {
        continue;
      }
      hits := hits + [n];
    }
  }

  // ---- judging one citation ----

  datatype Key = Key(source: string, target: string, lo: int, hi: int)

  type Ledger = map<Key, Entry>

  function Lo(m: Mark): int {
    DigitsValue(m.lo)
  }

  function Hi(m: Mark): int {
    if m.hi.Some? then DigitsValue(m.hi.value) else Lo(m)
  }

  function KeyOf(c: Corpus, source: string, m: Mark): Key
    requires m.name in c.index
  {
    Key(source, c.index[m.name], Lo(m), Hi(m))
  }

  datatype Verdict =
    | NoDocument
    | Malformed
    | PastEnd
    | BlankTarget
    | Unrecorded(current: Entry)
    | Steady(current: Entry)
    | Lost
    | Drifted(line: nat, moved: Entry)

  function Judge(c: Corpus, ledger: Ledger, source: string, m: Mark): Verdict
    requires Indexed(c)
  {
    if m.name !in c.index then NoDocument
    else
      var k, lines := KeyOf(c, source, m), c.docs[c.index[m.name]];
      if k.lo < 1 || k.hi < k.lo then Malformed
      else if k.hi > |lines| then PastEnd
      else
        var current := Fingerprint(lines, k.lo, k.hi);
        if current.excerpt == "" && k !in ledger then BlankTarget
        else if k !in ledger then Unrecorded(current)
        else Compare(lines, ledger[k], current, k.hi - k.lo + 1)
  }

  /** What is made of a recorded citation. */
  function Compare(lines: seq<string>, recorded: Entry, current: Entry, width: int): Verdict {
    if recorded.excerpt == current.excerpt && (recorded.digest.None? || recorded.digest == current.digest) then
      Steady(current)
    else
      var hits := Hits(lines, recorded, width, |lines|);
      if |hits| != 1 then Lost
      else Drifted(hits[0], Entry(recorded.excerpt, Digest(lines, hits[0], hits[0] + width - 1)))
  }

  predicate IsError(v: Verdict, update: bool) {
    v.NoDocument? || v.Malformed? || v.PastEnd? || v.BlankTarget? || v.Lost?
    || (!update && (v.Unrecorded? || v.Drifted?))
  }

  /** `new_raw`: the first number and any range end are replaced, name and backticks stay. */
  function Moved(m: Mark, n: nat): Mark {
    var offset := Hi(m) - Lo(m);
    m.(lo := Decimal(n), hi := if offset <= 0 then None else Some(Decimal(n + offset)))
  }

  /** The repairs an update makes in one live document. */
  function RepairOf(c: Corpus, ledger: Ledger, source: string): Repair
    requires Indexed(c)
  {
    (m: Mark) => match Judge(c, ledger, source, m)
      case Drifted(n, _) => Some(Moved(m, n))
      case _ => None
  }

  // ---- the whole run ----

  datatype Citation = Citation(source: string, row: nat, mark: Mark)

  function MarksOf(source: string, row: nat, pieces: seq<Piece>): seq<Citation> {
    if pieces == [] then []
    else (if pieces[0].Cite? then [Citation(source, row, pieces[0].mark)] else []) + MarksOf(source, row, pieces[1..])
  }

  function DocCitations(source: string, lines: seq<string>, row: nat): seq<Citation>
    decreases |lines| - row
  {
    if row >= |lines| then [] else MarksOf(source, row, Scan(lines[row])) + DocCitations(source, lines, row + 1)
  }

  /** `collect`, with the citations of unknown documents still in their places. */
  function Found(c: Corpus, live: seq<string>): seq<Citation>
    requires forall i | 0 <= i < |live| :: live[i] in c.docs
  {
    if live == [] then [] else DocCitations(live[0], c.docs[live[0]], 0) + Found(c, live[1..])
  }

  lemma {:induction false} MarksIff(source: string, row: nat, pieces: seq<Piece>, x: Citation)
    ensures x in MarksOf(source, row, pieces) <==> x.source == source && x.row == row && Cite(x.mark) in pieces
  {
    if pieces != [] {
      MarksIff(source, row, pieces[1..], x);
      assert pieces == [pieces[0]] + pieces[1..];
    }
  }

  lemma {:induction false} DocIff(source: string, lines: seq<string>, from: nat, x: Citation)
    ensures x in DocCitations(source, lines, from) <==>
            x.source == source && from <= x.row < |lines| && Cite(x.mark) in Scan(lines[x.row])
    decreases |lines| - from
  {
    hide Scan;
    if from < |lines| {
      MarksIff(source, from, Scan(lines[from]), x);
      DocIff(source, lines, from + 1, x);
    }
  }

  /** A run takes up every citation of every live document, and nothing else. */
  lemma {:induction false} FoundIff(c: Corpus, live: seq<string>, x: Citation)
    requires forall i | 0 <= i < |live| :: live[i] in c.docs
    ensures x in Found(c, live) <==>
            x.source in live && x.row < |c.docs[x.source]| && Cite(x.mark) in Scan(c.docs[x.source][x.row])
  {
    hide Scan;
    if live != [] {
      DocIff(live[0], c.docs[live[0]], 0, x);
      FoundIff(c, live[1..], x);
      assert live == [live[0]] + live[1..];
    }
  }

  /** What one citation contributes to `entries`. */
  function Record(entries: Ledger, c: Corpus, ledger: Ledger, x: Citation, update: bool): Ledger
    requires Indexed(c)
  {
    match Judge(c, ledger, x.source, x.mark)
    case NoDocument => entries
    case BlankTarget => entries
    case Unrecorded(current) => if update then entries[KeyOf(c, x.source, x.mark) := current] else entries
    case Steady(current) => entries[KeyOf(c, x.source, x.mark) := current]
    case Drifted(n, moved) =>
      if update then entries[KeyOf(c, x.source, Moved(x.mark, n)) := moved]
      else Kept(entries, ledger, KeyOf(c, x.source, x.mark))
    case _ => Kept(entries, ledger, KeyOf(c, x.source, x.mark))
  }

  function Kept(entries: Ledger, ledger: Ledger, k: Key): Ledger {
    if k in ledger then entries[k := ledger[k]] else entries
  }

  function Fresh(c: Corpus, ledger: Ledger, cites: seq<Citation>, update: bool): Ledger
    requires Indexed(c)
  {
    if cites == [] then map[]
    else Record(Fresh(c, ledger, cites[..|cites| - 1], update), c, ledger, cites[|cites| - 1], update)
  }

  /** The citations a run reports as errors. */
  function Errors(c: Corpus, ledger: Ledger, cites: seq<Citation>, update: bool): seq<Citation>
    requires Indexed(c)
  {
    if cites == [] then []
    else
      var last := cites[|cites| - 1];
      Errors(c, ledger, cites[..|cites| - 1], update)
      + if IsError(Judge(c, ledger, last.source, last.mark), update) then [last] else []
  }

  /** The corpus an update leaves behind: every live document rewritten, all at once. */
  function Updated(c: Corpus, ledger: Ledger): Corpus
    requires Valid(c)
  {
    c.(docs := map p | p in c.docs ::
         if p in c.live then RepairedLines(RepairOf(c, ledger, p), c.docs[p]) else c.docs[p])
  }

  // ---- numbers written and read ----

  /** A moved mark names the new span, of the same width. */
  lemma MovedNames(m: Mark, n: nat)
    ensures Lo(Moved(m, n)) == n && (Lo(m) <= Hi(m) ==> Hi(Moved(m, n)) == n + Hi(m) - Lo(m))
    ensures ValidMark(m) ==> ValidMark(Moved(m, n))
  {
    DecimalReads(n);
    if Hi(m) > Lo(m) { DecimalReads(n + Hi(m) - Lo(m)); }
  }

  lemma RepairsAreLawful(c: Corpus, ledger: Ledger, source: string)
    requires Indexed(c)
    ensures Lawful(RepairOf(c, ledger, source))
  {
    hide Judge;
    var f := RepairOf(c, ledger, source);
    forall m | ValidMark(m)
      ensures var m' := Next(f, m);
              ValidMark(m') && m'.open == m.open && m'.name == m.name && m'.close == m.close
              && (m.hi.None? ==> m'.hi.None?) {
      if f(m).Some? { MovedNames(m, Judge(c, ledger, source, m).line); }
    }
  }

  // ---- what a relocated span holds ----

  lemma {:induction false} SqueezeBlank(s: string, started: bool, gap: bool)
    ensures Squeeze(s, started, gap) == "" <==> Blank(s)
  {
    if s != "" && IsSpace(s[0]) {
      SqueezeBlank(s[1..], started, true);
    }
  }

  lemma NormBlank(s: string)
    ensures Norm(s) == "" <==> Blank(s)
    ensures Front(Norm(s), EXCERPT_CHARS) == "" <==> Blank(s)
  {
    SqueezeBlank(s, false, false);
  }

  /** The excerpt of a span, read off its normalized lines. */
  function FirstText(texts: seq<string>): string {
    if texts == [] then "" else if texts[0] != "" then Front(texts[0], EXCERPT_CHARS) else FirstText(texts[1..])
  }

  lemma {:induction false} ExcerptIsFirstText(lines: seq<string>, lo: int, hi: int)
    requires 1 <= lo <= hi + 1 && hi <= |lines|
    ensures Excerpt(lines, lo, hi) == FirstText(SpanLines(lines, lo, hi))
    decreases hi - lo
  {
    hide Norm, Blank;
    if lo <= hi {
      NormBlank(lines[lo - 1]);
      ExcerptIsFirstText(lines, lo + 1, hi);
      assert SpanLines(lines, lo, hi)[1..] == SpanLines(lines, lo + 1, hi);
    }
  }

  predicate AllEmpty(texts: seq<string>) {
    texts == [] || (texts[0] == "" && AllEmpty(texts[1..]))
  }

  lemma {:induction false} NoText(texts: seq<string>)
    ensures FirstText(texts) == "" <==> AllEmpty(texts)
  {
    if texts != [] {
      NoText(texts[1..]);
    }
  }

  predicate InBounds(lines: seq<string>, lo: int, hi: int) {
    1 <= lo <= hi <= |lines|
  }

  // ---- texts as words ----

  /** What a line of text behind a word, or behind a word and white space, still adds. */
  function Behind(s: string): string {
    if Words.Split(s) == [] then "" else " " + Words.Joined(Words.Split(s))
  }

  lemma {:induction false} SqueezeIsWords(s: string)
    ensures Squeeze(s, false, false) == Squeeze(s, false, true) == Words.Joined(Words.Split(s))
    ensures Squeeze(s, true, true) == Behind(s)
    ensures Squeeze(s, true, false) == s[..Words.WordRun(s)] + Behind(s[Words.WordRun(s)..])
  {
    hide IsSpace, Words.Split, Words.Joined;
    if s == "" {
      NothingSqueezed();
    } else if IsSpace(s[0]) {
      SqueezeIsWords(s[1..]);
      SpaceFirst(s);
    } else {
      SqueezeIsWords(s[1..]);
      var n := Words.WordRun(s);
      WordFirst(s);
      assert s[1..][..n - 1] == s[1..n] && s[1..][n - 1..] == s[n..] && s[..n] == [s[0]] + s[1..n];
      Associate(s[0], s[1..n], Behind(s[n..]));
    }
  }

  lemma NothingSqueezed()
    ensures Words.Split("") == [] && Words.Joined([]) == "" && Words.WordRun("") == 0
    ensures ""[..0] == "" && ""[0..] == "" && Behind("") == "" && "" + Behind("") == ""
  {
  }

  lemma SpaceFirst(s: string)
    requires s != "" && IsSpace(s[0])
    ensures Words.Split(s) == Words.Split(s[1..]) && Words.WordRun(s) == 0
    ensures Behind(s) == Behind(s[1..]) && s[..0] + Behind(s[0..]) == Behind(s)
  {
    assert s[0..] == s && s[..0] == "" && "" + Behind(s) == Behind(s);
  }

  lemma WordFirst(s: string)
    requires s != "" && !IsSpace(s[0])
    ensures var n := Words.WordRun(s);
            n > 0 && Words.WordRun(s[1..]) == n - 1 && Words.Split(s) != []
            && Words.Joined(Words.Split(s)) == s[..n] + Behind(s[n..])
  {
    hide IsSpace;
    var n := Words.WordRun(s);
    JoinedFirst(s[..n], Words.Split(s[n..]));
  }

  lemma JoinedFirst(word: string, rest: seq<string>)
    ensures Words.Joined([word] + rest) == word + if rest == [] then "" else " " + Words.Joined(rest)
  {
    assert ([word] + rest)[1..] == rest && word + "" == word;
  }

  lemma Associate(c: char, a: string, b: string)
    ensures [c] + (a + b) == ([c] + a) + b && " " + [c] + (a + b) == " " + (([c] + a) + b)
    ensures "" + [c] + (a + b) == ([c] + a) + b
  {
  }

  /** The normalized text is the words joined by one blank each, so it is the same for two texts exactly when
      their words are. */
  lemma NormIsWords(a: string, b: string)
    ensures Norm(a) == Words.Joined(Words.Split(a))
    ensures Norm(a) == Norm(b) <==> Words.Split(a) == Words.Split(b)
  {
    hide Squeeze, Words.Split, Words.Joined;
    SqueezeIsWords(a);
    SqueezeIsWords(b);
    Words.JoinedAlikeIff(a, b);
  }

  /** The texts are the words of these lines, joined by one blank each. */
  predicate ReadsAs(lines: seq<string>, lo: int, hi: int, texts: seq<string>) {
    && InBounds(lines, lo, hi) && |texts| == hi - lo + 1
    && forall i | 0 <= i < |texts| :: texts[i] == Words.Joined(Words.Split(lines[lo - 1 + i]))
  }

  predicate SameWords(a: seq<string>, b: seq<string>) {
    |a| == |b| && forall i | 0 <= i < |a| :: Words.Split(a[i]) == Words.Split(b[i])
  }

  lemma SpanReadsAs(lines: seq<string>, lo: int, hi: int, texts: seq<string>)
    requires InBounds(lines, lo, hi)
    ensures SpanLines(lines, lo, hi) == texts <==> ReadsAs(lines, lo, hi, texts)
  {
    hide Norm, Words.Split, Words.Joined;
    forall i | lo - 1 <= i < hi ensures Norm(lines[i]) == Words.Joined(Words.Split(lines[i])) {
      NormIsWords(lines[i], "");
    }
  }

  lemma SameSpansIff(a: seq<string>, lo: int, hi: int, b: seq<string>, lo': int, hi': int)
    requires InBounds(a, lo, hi) && InBounds(b, lo', hi')
    ensures SpanLines(a, lo, hi) == SpanLines(b, lo', hi') <==> SameWords(a[lo - 1..hi], b[lo' - 1..hi'])
  {
    hide Norm, Words.Split;
    var was, now := a[lo - 1..hi], b[lo' - 1..hi'];
    if |was| == |now| {
      forall i | 0 <= i < |was|
        ensures SpanLines(a, lo, hi)[i] == SpanLines(b, lo', hi')[i] <==> Words.Split(was[i]) == Words.Split(now[i]) {
        NormIsWords(was[i], now[i]);
      }
    }
  }

  /** A fingerprint is the text of the span and nothing else: two are the same exactly when the lines of the one
      span hold the words of the other's. */
  lemma FingerprintIsText(a: seq<string>, lo: int, hi: int, b: seq<string>, lo': int, hi': int)
    requires InBounds(a, lo, hi) && InBounds(b, lo', hi')
    ensures Fingerprint(a, lo, hi) == Fingerprint(b, lo', hi') <==> SpanLines(a, lo, hi) == SpanLines(b, lo', hi')
    ensures Fingerprint(a, lo, hi) == Fingerprint(b, lo', hi') <==> SameWords(a[lo - 1..hi], b[lo' - 1..hi'])
    ensures Digest(a, lo, hi) == Some(SpanLines(a, lo, hi)) && Digest(b, lo', hi') == Some(SpanLines(b, lo', hi'))
  {
    hide Excerpt, Norm, SameWords;
    SameSpansIff(a, lo, hi, b, lo', hi');
    ExcerptIsFirstText(a, lo, hi);
    ExcerptIsFirstText(b, lo', hi');
    assert |SpanLines(a, lo, hi)| == hi - lo + 1 && |SpanLines(b, lo', hi')| == hi' - lo' + 1;
  }

  /** Relocation is complete exactly for citations whose first line is not blank: wherever the recorded
      span stands again, whole, it is a hit if and only if its first line holds text. */
  lemma RelocationFindsIff(was: seq<string>, lo: int, hi: int, lines: seq<string>, n: int)
    requires InBounds(was, lo, hi) && Excerpt(was, lo, hi) != ""
    requires InBounds(lines, n, n + (hi - lo))
    requires SpanLines(lines, n, n + (hi - lo)) == SpanLines(was, lo, hi)
    ensures n in Hits(lines, Fingerprint(was, lo, hi), hi - lo + 1, |lines|) <==> !Blank(was[lo - 1])
  {
    FirstLine(was, lo, hi);
    FirstLine(lines, n, n + (hi - lo));
    hide Norm, Hits, Excerpt, FirstText, Blank, Front, SpanLines;
    FingerprintIsText(was, lo, hi, lines, n, n + (hi - lo));
    ExcerptIsFirstText(was, lo, hi);
    NormBlank(was[lo - 1]);
    HitsAre(lines, Fingerprint(was, lo, hi), hi - lo + 1, n);
    FirstOfSpan(SpanLines(was, lo, hi));
  }

  lemma FirstLine(lines: seq<string>, lo: int, hi: int)
    requires InBounds(lines, lo, hi)
    ensures SpanLines(lines, lo, hi) != [] && SpanLines(lines, lo, hi)[0] == Norm(lines[lo - 1])
  {
    hide Norm;
  }

  lemma FirstOfSpan(texts: seq<string>)
    requires texts != []
    ensures texts[0] != "" ==> FirstText(texts) == Front(texts[0], EXCERPT_CHARS)
  {
  }

  lemma HitsAre(lines: seq<string>, recorded: Entry, width: int, n: int)
    requires 1 <= n <= |lines|
    ensures n in Hits(lines, recorded, width, |lines|) <==> IsHit(lines, recorded, width, n)
  {
  }

  lemma DriftedAt(lines: seq<string>, recorded: Entry, current: Entry, width: int)
    requires Compare(lines, recorded, current, width).Drifted?
    ensures var v := Compare(lines, recorded, current, width);
            && 1 <= v.line <= |lines| && IsHit(lines, recorded, width, v.line)
            && v.moved == Entry(recorded.excerpt, Digest(lines, v.line, v.line + width - 1))
            && Hits(lines, recorded, width, |lines|) == [v.line]
  {
    hide IsHit, Digest;
    var hits := Hits(lines, recorded, width, |lines|);
    assert hits[0] in hits;
  }

  /** ... and sound: a citation is moved only to where the recorded text stands, word for word, and only
      when it stands nowhere else. */
  lemma RelocationKeepsText(lines: seq<string>, recorded: Entry, current: Entry, width: int)
    requires recorded.digest.Some? && Compare(lines, recorded, current, width).Drifted?
    ensures var n := Compare(lines, recorded, current, width).line;
            && ReadsAs(lines, n, n + width - 1, recorded.digest.value)
            && 1 <= n && SpanLines(lines, n, n + width - 1) == recorded.digest.value
            && forall k | 1 <= k <= |lines| && IsHit(lines, recorded, width, k) :: k == n
  {
    hide Compare, Hits, Norm, SpanLines, ReadsAs;
    DriftedAt(lines, recorded, current, width);
    forall k | 1 <= k <= |lines| && IsHit(lines, recorded, width, k)
      ensures k == Compare(lines, recorded, current, width).line {
      HitsAre(lines, recorded, width, k);
    }
    var n := Compare(lines, recorded, current, width).line;
    SpanInBounds(lines, n, n + width - 1);
    SpanReadsAs(lines, n, n + width - 1, recorded.digest.value);
  }

  lemma SpanInBounds(lines: seq<string>, lo: int, hi: int)
    requires SpanLines(lines, lo, hi) != []
    ensures InBounds(lines, lo, hi)
  {
  }

  // ---- what a verdict means ----

  predicate BlankAt(lines: seq<string>, n: int) {
    1 <= n <= |lines| && Blank(lines[n - 1])
  }

  /** The lines from `lo` on, short of `to`. */
  predicate AllBlank(lines: seq<string>, lo: int, to: int) {
    forall n | lo <= n < to :: BlankAt(lines, n)
  }

  lemma AllBlankFirst(lines: seq<string>, lo: int, to: int)
    ensures lo < to ==> (AllBlank(lines, lo, to) <==> BlankAt(lines, lo) && AllBlank(lines, lo + 1, to))
    ensures lo >= to ==> AllBlank(lines, lo, to)
  {
    hide BlankAt;
  }

  /** The first 60 characters of the first line that is not blank, if there is one. */
  predicate ExcerptIs(lines: seq<string>, lo: int, hi: int, excerpt: string)
    requires InBounds(lines, lo, hi)
  {
    || (excerpt == "" && AllBlank(lines, lo, hi + 1))
    || exists n | lo <= n <= hi ::
         && !BlankAt(lines, n) && AllBlank(lines, lo, n)
         && excerpt == Front(Words.Joined(Words.Split(lines[n - 1])), 60)
  }

  lemma {:induction false} ExcerptIff(lines: seq<string>, lo: int, hi: int, excerpt: string)
    requires InBounds(lines, lo, hi)
    ensures Excerpt(lines, lo, hi) == excerpt <==> ExcerptIs(lines, lo, hi, excerpt)
    decreases hi - lo
  {
    hide Norm, Blank, Words.Split, Words.Joined, ExcerptIs;
    NormIsWords(lines[lo - 1], "");
    ExcerptIsFirst(lines, lo, hi, excerpt);
    if Blank(lines[lo - 1]) && lo < hi {
      ExcerptIff(lines, lo + 1, hi, excerpt);
    }
  }

  lemma ExcerptIsFirst(lines: seq<string>, lo: int, hi: int, excerpt: string)
    requires InBounds(lines, lo, hi)
    ensures ExcerptIs(lines, lo, hi, excerpt) <==>
            if !Blank(lines[lo - 1]) then excerpt == Front(Words.Joined(Words.Split(lines[lo - 1])), 60)
            else if lo == hi then excerpt == ""
            else ExcerptIs(lines, lo + 1, hi, excerpt)
  {
    hide Words.Split, Words.Joined, Blank, AllBlank;
    forall n | lo <= n <= hi + 1
      ensures AllBlank(lines, lo, n) <==> n == lo || (BlankAt(lines, lo) && AllBlank(lines, lo + 1, n)) {
      AllBlankFirst(lines, lo, n);
    }
    AllBlankFirst(lines, lo + 1, lo + 1);
  }

  /** The recorded text stands at line `n`. */
  predicate Stands(lines: seq<string>, recorded: Entry, width: int, n: int) {
    && InBounds(lines, n, n + width - 1)
    && Front(Words.Joined(Words.Split(lines[n - 1])), 60) == recorded.excerpt
    && (recorded.digest.Some? ==> ReadsAs(lines, n, n + width - 1, recorded.digest.value))
  }

  lemma HitIff(lines: seq<string>, recorded: Entry, width: int, n: int)
    requires 1 <= n <= |lines| && width >= 1
    ensures IsHit(lines, recorded, width, n) <==> Stands(lines, recorded, width, n)
  {
    hide Norm, Words.Split, Words.Joined, SpanLines, ReadsAs;
    NormIsWords(lines[n - 1], "");
    if n + width - 1 <= |lines| {
      DigestIsText(lines, n, n + width - 1);
      if recorded.digest.Some? {
        SpanReadsAs(lines, n, n + width - 1, recorded.digest.value);
      }
    } else {
      OutOfBounds(lines, n, n + width - 1);
    }
  }

  lemma OutOfBounds(lines: seq<string>, lo: int, hi: int)
    requires !InBounds(lines, lo, hi)
    ensures Digest(lines, lo, hi).None?
  {
  }

  /** The span still holds what was recorded. */
  predicate Agrees(lines: seq<string>, lo: int, hi: int, recorded: Entry)
    requires InBounds(lines, lo, hi)
  {
    && ExcerptIs(lines, lo, hi, recorded.excerpt)
    && (recorded.digest.Some? ==> ReadsAs(lines, lo, hi, recorded.digest.value))
  }

  lemma AgreesIff(lines: seq<string>, lo: int, hi: int, recorded: Entry)
    requires InBounds(lines, lo, hi)
    ensures var current := Fingerprint(lines, lo, hi);
            recorded.excerpt == current.excerpt && (recorded.digest.None? || recorded.digest == current.digest) <==>
            Agrees(lines, lo, hi, recorded)
  {
    hide Excerpt, SpanLines, ReadsAs, ExcerptIs;
    ExcerptIff(lines, lo, hi, recorded.excerpt);
    DigestIsText(lines, lo, hi);
    if recorded.digest.Some? {
      SpanReadsAs(lines, lo, hi, recorded.digest.value);
    }
  }

  predicate OnlyAt(lines: seq<string>, recorded: Entry, width: int, n: int) {
    Stands(lines, recorded, width, n) && forall m | 1 <= m <= |lines| && Stands(lines, recorded, width, m) :: m == n
  }

  predicate StandsOnce(lines: seq<string>, recorded: Entry, width: int) {
    exists n | 1 <= n <= |lines| :: OnlyAt(lines, recorded, width, n)
  }

  lemma {:induction false} HitsAscend(lines: seq<string>, recorded: Entry, width: int, k: nat)
    requires k <= |lines|
    ensures Ascends(Hits(lines, recorded, width, k))
  {
    hide IsHit;
    if k > 0 {
      HitsAscend(lines, recorded, width, k - 1);
      var before := Hits(lines, recorded, width, k - 1);
      assert forall i | 0 <= i < |before| :: before[i] in before;
    }
  }

  predicate Ascends(hits: seq<nat>) {
    forall i, j | 0 <= i < j < |hits| :: hits[i] < hits[j]
  }

  lemma OneHitIff(lines: seq<string>, recorded: Entry, width: int, n: int)
    requires width >= 1
    ensures Hits(lines, recorded, width, |lines|) == [n] <==> OnlyAt(lines, recorded, width, n)
  {
    hide IsHit, Stands, Hits;
    var hits := Hits(lines, recorded, width, |lines|);
    HitsAscend(lines, recorded, width, |lines|);
    forall m ensures m in hits <==> 1 <= m <= |lines| && Stands(lines, recorded, width, m) {
      if 1 <= m <= |lines| {
        HitIff(lines, recorded, width, m);
        HitsAre(lines, recorded, width, m);
      }
    }
    if Stands(lines, recorded, width, n) {
      StandsWithin(lines, recorded, width, n);
    }
    Singleton(hits, n);
  }

  lemma Singleton(hits: seq<nat>, n: int)
    requires Ascends(hits)
    ensures hits == [n] <==> n in hits && forall m | m in hits :: m == n
  {
    assert |hits| > 1 ==> hits[0] in hits && hits[1] in hits && hits[0] < hits[1];
    assert |hits| == 1 ==> hits == [hits[0]] && hits[0] in hits;
  }

  lemma StandsWithin(lines: seq<string>, recorded: Entry, width: int, n: int)
    requires Stands(lines, recorded, width, n) && width >= 1
    ensures 1 <= n <= |lines|
  {
  }

  /** What each verdict on a citation means, in terms of the lines it cites and of what was recorded. */
  lemma VerdictIs(c: Corpus, ledger: Ledger, source: string, m: Mark)
    requires Indexed(c)
    ensures var v := Judge(c, ledger, source, m);
            if m.name !in c.index then v == NoDocument
            else
              var k, lines := Key(source, c.index[m.name], Lo(m), Hi(m)), c.docs[c.index[m.name]];
              if k.lo < 1 || k.hi < k.lo then v == Malformed
              else if k.hi > |lines| then v == PastEnd
              else if k !in ledger then
                && (v.BlankTarget? <==> AllBlank(lines, k.lo, k.hi + 1))
                && (!v.BlankTarget? ==> v.Unrecorded? && IsFingerprint(lines, k.lo, k.hi, v.current))
              else if Agrees(lines, k.lo, k.hi, ledger[k]) then
                v.Steady? && IsFingerprint(lines, k.lo, k.hi, v.current)
              else
                && (v.Drifted? || v.Lost?)
                && (v.Lost? <==> !StandsOnce(lines, ledger[k], k.hi - k.lo + 1))
                && (v.Drifted? ==>
                      && OnlyAt(lines, ledger[k], k.hi - k.lo + 1, v.line)
                      && v.moved.excerpt == ledger[k].excerpt && v.moved.digest.Some?
                      && ReadsAs(lines, v.line, v.line + k.hi - k.lo, v.moved.digest.value))
  {
    hide Fingerprint, Compare, Agrees, OnlyAt, AllBlank, ReadsAs, IsFingerprint, StandsOnce;
    if m.name in c.index {
      var k, lines := KeyOf(c, source, m), c.docs[c.index[m.name]];
      if InBounds(lines, k.lo, k.hi) {
        FingerprintIs(lines, k.lo, k.hi);
        BlankIff(lines, k.lo, k.hi);
        if k in ledger {
          ComparedIs(lines, k.lo, k.hi, ledger[k]);
        }
      }
    }
  }

  predicate IsFingerprint(lines: seq<string>, lo: int, hi: int, entry: Entry)
    requires InBounds(lines, lo, hi)
  {
    ExcerptIs(lines, lo, hi, entry.excerpt) && entry.digest.Some? && ReadsAs(lines, lo, hi, entry.digest.value)
  }

  lemma FingerprintIs(lines: seq<string>, lo: int, hi: int)
    requires InBounds(lines, lo, hi)
    ensures IsFingerprint(lines, lo, hi, Fingerprint(lines, lo, hi))
  {
    hide Excerpt, SpanLines, ReadsAs, ExcerptIs;
    ExcerptIff(lines, lo, hi, Excerpt(lines, lo, hi));
    DigestIsText(lines, lo, hi);
    SpanReadsAs(lines, lo, hi, SpanLines(lines, lo, hi));
  }

  lemma {:induction false} BlankIff(lines: seq<string>, lo: int, hi: int)
    requires InBounds(lines, lo, hi)
    ensures Fingerprint(lines, lo, hi).excerpt == "" <==> AllBlank(lines, lo, hi + 1)
    decreases hi - lo
  {
    hide Norm, Blank, Digest;
    NormBlank(lines[lo - 1]);
    AllBlankFirst(lines, lo, hi + 1);
    hide AllBlank;
    if lo < hi {
      BlankIff(lines, lo + 1, hi);
    } else {
      AllBlankFirst(lines, lo + 1, hi + 1);
      assert Excerpt(lines, lo + 1, hi) == "";
    }
  }

  lemma ComparedIs(lines: seq<string>, lo: int, hi: int, recorded: Entry)
    requires InBounds(lines, lo, hi)
    ensures var v := Compare(lines, recorded, Fingerprint(lines, lo, hi), hi - lo + 1);
            if Agrees(lines, lo, hi, recorded) then v == Steady(Fingerprint(lines, lo, hi))
            else
              && (v.Drifted? || v.Lost?)
              && (v.Lost? <==> !StandsOnce(lines, recorded, hi - lo + 1))
              && (v.Drifted? ==>
                    && OnlyAt(lines, recorded, hi - lo + 1, v.line)
                    && v.moved.excerpt == recorded.excerpt && v.moved.digest.Some?
                    && ReadsAs(lines, v.line, v.line + hi - lo, v.moved.digest.value))
  {
    hide Fingerprint, Agrees, OnlyAt, Hits, ReadsAs, Digest, Stands;
    AgreesIff(lines, lo, hi, recorded);
    var width := hi - lo + 1;
    var hits := Hits(lines, recorded, width, |lines|);
    if |hits| == 1 {
      assert hits == [hits[0]] && hits[0] in hits;
      OneHitIff(lines, recorded, width, hits[0]);
      MovedReads(lines, recorded, width, hits[0]);
    }
    forall n | 1 <= n <= |lines| && OnlyAt(lines, recorded, width, n) ensures hits == [n] {
      OneHitIff(lines, recorded, width, n);
    }
  }

  lemma MovedReads(lines: seq<string>, recorded: Entry, width: int, n: int)
    requires OnlyAt(lines, recorded, width, n) && width >= 1
    ensures Digest(lines, n, n + width - 1).Some?
    ensures ReadsAs(lines, n, n + width - 1, Digest(lines, n, n + width - 1).value)
  {
    hide SpanLines, ReadsAs;
    DigestIsText(lines, n, n + width - 1);
    SpanReadsAs(lines, n, n + width - 1, SpanLines(lines, n, n + width - 1));
  }

  /** The entry written for a moved citation is the fingerprint of its new place, unless an empty excerpt
      was recorded and the new place goes on to hold text. */
  lemma MovedEntryIsTrue(lines: seq<string>, recorded: Entry, width: int, n: int)
    requires 1 <= n <= |lines| && width >= 1 && IsHit(lines, recorded, width, n)
    ensures InBounds(lines, n, n + width - 1)
    ensures Entry(recorded.excerpt, Digest(lines, n, n + width - 1)) == Fingerprint(lines, n, n + width - 1) <==>
            recorded.excerpt != "" || AllEmpty(SpanLines(lines, n, n + width - 1))
  {
    hide Norm, Excerpt;
    var texts := SpanLines(lines, n, n + width - 1);
    ExcerptIsFirstText(lines, n, n + width - 1);
    NoText(texts);
    assert texts[0] == Norm(lines[n - 1]);
    assert Front("", EXCERPT_CHARS) == "";
  }

  // ---- a clean update ----

  /** What an update with no errors writes down: the key a citation has afterwards. */
  function NewKey(c: Corpus, ledger: Ledger, x: Citation): Key
    requires Indexed(c) && x.mark.name in c.index
  {
    RepairsAreLawful(c, ledger, x.source);
    KeyOf(c, x.source, NewMark(c, ledger, x))
  }

  function NewMark(c: Corpus, ledger: Ledger, x: Citation): (m: Mark)
    requires Indexed(c)
    ensures m.name == x.mark.name
  {
    Next(RepairOf(c, ledger, x.source), x.mark)
  }

  /** No excerpt on record is empty. */
  predicate Readable(ledger: Ledger) {
    forall k | k in ledger :: ledger[k].excerpt != ""
  }

  predicate TrueAt(c: Corpus, k: Key, entry: Entry) {
    && k.target in c.docs && InBounds(c.docs[k.target], k.lo, k.hi)
    && entry == Fingerprint(c.docs[k.target], k.lo, k.hi)
  }

  /** Every entry equals the current fingerprint at its key. */
  predicate Truthful(c: Corpus, entries: Ledger) {
    forall k | k in entries :: TrueAt(c, k, entries[k])
  }

  /** The entry's digest is that of the text at its key. */
  predicate DigestAt(c: Corpus, k: Key, entry: Entry) {
    && k.target in c.docs && InBounds(c.docs[k.target], k.lo, k.hi)
    && entry.digest == Some(SpanLines(c.docs[k.target], k.lo, k.hi))
  }

  predicate Digested(c: Corpus, entries: Ledger) {
    forall k | k in entries :: DigestAt(c, k, entries[k])
  }

  /** An entry that takes a text for blank has a blank one. */
  predicate Sound(entry: Entry) {
    entry.excerpt != "" || (entry.digest.Some? ==> AllEmpty(entry.digest.value))
  }

  /** Whatever an update moves, it moves with a sound entry. */
  predicate MovesSoundly(c: Corpus, ledger: Ledger, cites: seq<Citation>)
    requires Indexed(c)
  {
    forall i | 0 <= i < |cites| :: SoundMove(Judge(c, ledger, cites[i].source, cites[i].mark))
  }

  predicate SoundMove(v: Verdict) {
    v.Drifted? ==> Sound(v.moved)
  }

  /** A ledger without an empty excerpt is one way to see to that. */
  lemma ReadableMovesSoundly(c: Corpus, ledger: Ledger, cites: seq<Citation>)
    requires Indexed(c) && Readable(ledger)
    ensures MovesSoundly(c, ledger, cites)
  {
    hide Fingerprint, Hits, Digest, KeyOf;
  }

  lemma RecordIsTrueIff(c: Corpus, ledger: Ledger, x: Citation)
    requires Indexed(c) && !IsError(Judge(c, ledger, x.source, x.mark), true)
    ensures x.mark.name in c.index
    ensures var v, k := Judge(c, ledger, x.source, x.mark), NewKey(c, ledger, x);
            var entry := if v.Drifted? then v.moved else v.current;
            && (v.Unrecorded? || v.Steady? || v.Drifted?)
            && DigestAt(c, k, entry) && (TrueAt(c, k, entry) <==> SoundMove(v))
            && (if v.Drifted? then k == KeyOf(c, x.source, Moved(x.mark, v.line)) else k == KeyOf(c, x.source, x.mark))
  {
    hide Fingerprint, Digest, Norm, DigitsValue, AllEmpty, SpanLines;
    var v := Judge(c, ledger, x.source, x.mark);
    var k, lines := KeyOf(c, x.source, x.mark), c.docs[c.index[x.mark.name]];
    if v.Drifted? {
      hide Compare;
      var width := k.hi - k.lo + 1;
      DriftedAt(lines, ledger[k], Fingerprint(lines, k.lo, k.hi), width);
      MovedEntryIsTrue(lines, ledger[k], width, v.line);
      FingerprintParts(lines, v.line, v.line + width - 1);
      DigestIsText(lines, v.line, v.line + width - 1);
      MovedNames(x.mark, v.line);
    } else {
      FingerprintParts(lines, k.lo, k.hi);
    }
  }

  lemma DigestIsText(lines: seq<string>, lo: int, hi: int)
    requires InBounds(lines, lo, hi)
    ensures Digest(lines, lo, hi) == Some(SpanLines(lines, lo, hi))
  {
    hide Norm;
    assert |SpanLines(lines, lo, hi)| == hi - lo + 1;
  }

  /** The keys of some citations after an update. */
  function NewKeys(c: Corpus, ledger: Ledger, cites: seq<Citation>): set<Key>
    requires Indexed(c)
  {
    if cites == [] then {}
    else
      var last := cites[|cites| - 1];
      NewKeys(c, ledger, cites[..|cites| - 1]) + if last.mark.name in c.index then {NewKey(c, ledger, last)} else {}
  }

  lemma RecordAdds(c: Corpus, ledger: Ledger, x: Citation, entries: Ledger)
    requires Indexed(c) && !IsError(Judge(c, ledger, x.source, x.mark), true) && Digested(c, entries)
    ensures var entries' := Record(entries, c, ledger, x, true);
            && Digested(c, entries')
            && (Truthful(c, entries) && SoundMove(Judge(c, ledger, x.source, x.mark)) ==> Truthful(c, entries'))
            && x.mark.name in c.index && entries'.Keys == entries.Keys + {NewKey(c, ledger, x)}
  {
    hide Judge, NewKey, TrueAt, DigestAt, KeyOf, Moved, SoundMove;
    RecordIsTrueIff(c, ledger, x);
  }

  /** An update without errors writes one entry for each citation, under its new key, with the digest of
      the text there; and a true entry, provided that none is moved under an empty excerpt over text. */
  lemma {:induction false} FreshIsTrue(c: Corpus, ledger: Ledger, cites: seq<Citation>)
    requires Indexed(c) && Errors(c, ledger, cites, true) == []
    ensures Fresh(c, ledger, cites, true).Keys == NewKeys(c, ledger, cites)
    ensures Digested(c, Fresh(c, ledger, cites, true))
    ensures MovesSoundly(c, ledger, cites) ==> Truthful(c, Fresh(c, ledger, cites, true))
  {
    if cites != [] {
      hide Judge, NewKey, Truthful, Digested, Record, IsError, SoundMove;
      var n := |cites| - 1;
      FreshIsTrue(c, ledger, cites[..n]);
      RecordAdds(c, ledger, cites[n], Fresh(c, ledger, cites[..n], true));
      assert MovesSoundly(c, ledger, cites) ==> MovesSoundly(c, ledger, cites[..n]);
    } else {
      NoEntries(c);
    }
  }

  lemma NoEntries(c: Corpus)
    ensures Truthful(c, map[]) && Digested(c, map[])
  {
  }

  /** What a citation leaves on record: itself where it is steady or new, its new place where it has moved, and
      in every other case the entry it had, an error included. */
  predicate Writes(c: Corpus, ledger: Ledger, x: Citation, update: bool, k: Key, entry: Entry)
    requires Indexed(c)
  {
    && x.mark.name in c.index
    && var v, at := Judge(c, ledger, x.source, x.mark), Key(x.source, c.index[x.mark.name], Lo(x.mark), Hi(x.mark));
       || (k == at && v.Steady? && entry == v.current)
       || (k == at && v.Unrecorded? && update && entry == v.current)
       || (v.Drifted? && update && k == at.(lo := v.line, hi := v.line + at.hi - at.lo) && entry == v.moved)
       || (k == at && (v.Malformed? || v.PastEnd? || v.Lost? || (v.Drifted? && !update))
           && at in ledger && entry == ledger[at])
  }

  ghost predicate WritesTo(c: Corpus, ledger: Ledger, x: Citation, update: bool, k: Key)
    requires Indexed(c)
  {
    exists entry :: Writes(c, ledger, x, update, k, entry)
  }

  lemma RecordIs(entries: Ledger, c: Corpus, ledger: Ledger, x: Citation, update: bool, k: Key, entry: Entry)
    requires Indexed(c)
    ensures var entries' := Record(entries, c, ledger, x, update);
            k in entries' && entries'[k] == entry <==>
              Writes(c, ledger, x, update, k, entry)
              || (!WritesTo(c, ledger, x, update, k) && k in entries && entries[k] == entry)
  {
    hide Compare, Fingerprint, Digest, DigitsValue;
    var v := Judge(c, ledger, x.source, x.mark);
    if v.Drifted? {
      var at := KeyOf(c, x.source, x.mark);
      DriftedAt(c.docs[at.target], ledger[at], Fingerprint(c.docs[at.target], at.lo, at.hi), at.hi - at.lo + 1);
      MovedNames(x.mark, v.line);
    }
    var entries' := Record(entries, c, ledger, x, update);
    if k in entries' && Writes(c, ledger, x, update, k, entries'[k]) {
      assert WritesTo(c, ledger, x, update, k);
    }
  }

  /** The i-th citation writes this entry, and none behind it writes there. */
  ghost predicate WritesLast(c: Corpus, ledger: Ledger, cites: seq<Citation>, update: bool, k: Key, entry: Entry,
                             i: nat)
    requires Indexed(c)
  {
    && i < |cites| && Writes(c, ledger, cites[i], update, k, entry)
    && forall j | i < j < |cites| :: !WritesTo(c, ledger, cites[j], update, k)
  }

  lemma WritesLastBehind(c: Corpus, ledger: Ledger, cites: seq<Citation>, update: bool, k: Key, entry: Entry, i: nat)
    requires Indexed(c) && i + 1 < |cites|
    ensures WritesLast(c, ledger, cites, update, k, entry, i) <==>
            WritesLast(c, ledger, cites[..|cites| - 1], update, k, entry, i)
            && !WritesTo(c, ledger, cites[|cites| - 1], update, k)
  {
    hide Writes, WritesTo;
  }

  /** The new ledger holds, under each key, what the last citation that writes there leaves. */
  lemma {:induction false} EntriesIff(c: Corpus, ledger: Ledger, cites: seq<Citation>, update: bool, k: Key,
                                      entry: Entry)
    requires Indexed(c)
    ensures var entries := Fresh(c, ledger, cites, update);
            k in entries && entries[k] == entry <==>
            exists i: nat :: WritesLast(c, ledger, cites, update, k, entry, i)
  {
    if cites != [] {
      var n := |cites| - 1;
      assert Writes(c, ledger, cites[n], update, k, entry) <==> WritesLast(c, ledger, cites, update, k, entry, n);
      assert forall i: nat | WritesLast(c, ledger, cites, update, k, entry, i) :: i <= n;
      assert forall i: nat | WritesLast(c, ledger, cites[..n], update, k, entry, i) :: i < n;
      hide Record, Writes, WritesTo, WritesLast;
      EntriesIff(c, ledger, cites[..n], update, k, entry);
      RecordIs(Fresh(c, ledger, cites[..n], update), c, ledger, cites[n], update, k, entry);
      forall i: nat | i < n
        ensures WritesLast(c, ledger, cites, update, k, entry, i) <==>
                WritesLast(c, ledger, cites[..n], update, k, entry, i) && !WritesTo(c, ledger, cites[n], update, k) {
        WritesLastBehind(c, ledger, cites, update, k, entry, i);
      }
    }
  }

  predicate Fine(c: Corpus, ledger: Ledger, x: Citation, update: bool)
    requires Indexed(c)
  {
    !IsError(Judge(c, ledger, x.source, x.mark), update)
  }

  lemma {:induction false} NoErrors(c: Corpus, ledger: Ledger, cites: seq<Citation>, update: bool)
    requires Indexed(c) && Errors(c, ledger, cites, update) == []
    ensures forall i | 0 <= i < |cites| :: Fine(c, ledger, cites[i], update)
  {
    hide Judge, IsError;
    if cites != [] {
      NoErrors(c, ledger, cites[..|cites| - 1], update);
    }
  }

  /** A run reports every citation that is not steady, but for the new and the moved ones of an update. */
  lemma {:induction false} ReportedIff(c: Corpus, ledger: Ledger, cites: seq<Citation>, update: bool, x: Citation)
    requires Indexed(c)
    ensures x in Errors(c, ledger, cites, update) <==>
            x in cites && var v := Judge(c, ledger, x.source, x.mark);
                          !(v.Steady? || (update && (v.Unrecorded? || v.Drifted?)))
  {
    hide Judge;
    if cites != [] {
      var n := |cites| - 1;
      ReportedIff(c, ledger, cites[..n], update, x);
      assert cites == cites[..n] + [cites[n]];
    }
  }

  lemma {:induction false} NoneIsError(c: Corpus, ledger: Ledger, cites: seq<Citation>, update: bool)
    requires Indexed(c) && forall i | 0 <= i < |cites| :: Fine(c, ledger, cites[i], update)
    ensures Errors(c, ledger, cites, update) == []
  {
    hide Judge, IsError;
    if cites != [] {
      NoneIsError(c, ledger, cites[..|cites| - 1], update);
    }
  }

  // ---- the rewritten corpus is scanned again ----

  /** No repair drops a range end in front of text that looks like one. */
  ghost predicate DocRescans(f: Repair, lines: seq<string>, row: nat) {
    forall i | row <= i < |lines| :: !Glues(f, Scan(lines[i]))
  }

  ghost predicate Rescans(c: Corpus, ledger: Ledger, live: seq<string>)
    requires Indexed(c) && forall i | 0 <= i < |live| :: live[i] in c.docs
  {
    forall i | 0 <= i < |live| :: DocRescans(RepairOf(c, ledger, live[i]), c.docs[live[i]], 0)
  }

  function Renamed(f: Repair, cites: seq<Citation>): seq<Citation> {
    if cites == [] then []
    else [cites[0].(mark := Next(f, cites[0].mark))] + Renamed(f, cites[1..])
  }

  lemma {:induction false} RenamedConcat(f: Repair, a: seq<Citation>, b: seq<Citation>)
    ensures Renamed(f, a + b) == Renamed(f, a) + Renamed(f, b)
  {
    if a == [] {
      assert a + b == b;
    } else {
      assert (a + b)[1..] == a[1..] + b && (a + b)[0] == a[0];
      RenamedConcat(f, a[1..], b);
    }
  }

  lemma {:induction false} MarksRenamed(f: Repair, source: string, row: nat, pieces: seq<Piece>)
    ensures MarksOf(source, row, Repaired(f, pieces)) == Renamed(f, MarksOf(source, row, pieces))
  {
    if pieces != [] {
      var here := if pieces[0].Cite? then [Citation(source, row, pieces[0].mark)] else [];
      MarksRenamed(f, source, row, pieces[1..]);
      RenamedConcat(f, here, MarksOf(source, row, pieces[1..]));
      assert Repaired(f, pieces)[1..] == Repaired(f, pieces[1..]);
    }
  }

  function Cites(source: string, row: nat, marks: seq<Mark>): seq<Citation> {
    if marks == [] then [] else [Citation(source, row, marks[0])] + Cites(source, row, marks[1..])
  }

  lemma {:induction false} MarksOfAreCites(source: string, row: nat, pieces: seq<Piece>)
    ensures MarksOf(source, row, pieces) == Cites(source, row, Marks(pieces))
  {
    if pieces != [] {
      MarksOfAreCites(source, row, pieces[1..]);
      if pieces[0].Cite? {
        assert Marks(pieces)[1..] == Marks(pieces[1..]);
      } else {
        assert Marks(pieces) == Marks(pieces[1..]);
      }
    }
  }

  lemma {:induction false} SameCites(source: string, row: nat, a: seq<Mark>, b: seq<Mark>)
    requires Cites(source, row, a) == Cites(source, row, b)
    ensures a == b
  {
    if a != [] && b != [] {
      assert Cites(source, row, a)[0] == Cites(source, row, b)[0];
      assert Cites(source, row, a)[1..] == Cites(source, row, b)[1..];
      SameCites(source, row, a[1..], b[1..]);
    }
  }

  /** A line rewritten and scanned again holds the repaired citations exactly when no repair glued. */
  lemma LineRenamedIff(f: Repair, source: string, row: nat, line: string)
    requires Lawful(f)
    ensures MarksOf(source, row, Scan(RepairedLine(f, line))) == Renamed(f, MarksOf(source, row, Scan(line))) <==>
            !Glues(f, Scan(line))
  {
    hide Scan, Lawful, Marks, Glues, Repaired, Render, MarksOf, Renamed;
    RemarkIff(f, line);
    MarksRenamed(f, source, row, Scan(line));
    var read, repaired := Scan(RepairedLine(f, line)), Repaired(f, Scan(line));
    MarksOfAreCites(source, row, read);
    MarksOfAreCites(source, row, repaired);
    if MarksOf(source, row, read) == MarksOf(source, row, repaired) {
      SameCites(source, row, Marks(read), Marks(repaired));
    }
  }

  /** Two lists, each of some citations in front of others, are the same exactly when their parts are. */
  lemma SameParts(front: Citation -> bool, a: seq<Citation>, b: seq<Citation>, a': seq<Citation>, b': seq<Citation>)
    requires (forall i | 0 <= i < |a| :: front(a[i])) && (forall i | 0 <= i < |a'| :: front(a'[i]))
    requires (forall i | 0 <= i < |b| :: !front(b[i])) && (forall i | 0 <= i < |b'| :: !front(b'[i]))
    ensures a + b == a' + b' <==> a == a' && b == b'
  {
    var all, all' := a + b, a' + b';
    assert |a| < |a'| ==> front(all'[|a|]) && (|a| < |all| ==> !front(all[|a|]));
    assert |a'| < |a| ==> front(all[|a'|]) && (|a'| < |all'| ==> !front(all'[|a'|]));
    assert all[..|a|] == a && all[|a|..] == b && all'[..|a'|] == a' && all'[|a'|..] == b';
  }

  lemma {:induction false} MarksAreOf(source: string, row: nat, pieces: seq<Piece>)
    ensures forall i | 0 <= i < |MarksOf(source, row, pieces)| ::
              MarksOf(source, row, pieces)[i].source == source && MarksOf(source, row, pieces)[i].row == row
  {
    if pieces != [] {
      MarksAreOf(source, row, pieces[1..]);
    }
  }

  lemma {:induction false} DocIsOf(source: string, lines: seq<string>, row: nat)
    ensures forall i | 0 <= i < |DocCitations(source, lines, row)| ::
              var x := DocCitations(source, lines, row)[i]; x.source == source && x.row >= row
    decreases |lines| - row
  {
    if row < |lines| {
      hide MarksOf;
      MarksAreOf(source, row, Scan(lines[row]));
      DocIsOf(source, lines, row + 1);
    }
  }

  lemma {:induction false} RenamedPlaces(f: Repair, cites: seq<Citation>)
    ensures |Renamed(f, cites)| == |cites|
    ensures forall i | 0 <= i < |cites| ::
              Renamed(f, cites)[i].source == cites[i].source && Renamed(f, cites)[i].row == cites[i].row
  {
    if cites != [] {
      RenamedPlaces(f, cites[1..]);
    }
  }

  /** The citations of a line come before those of the lines behind it, before and after. */
  lemma DocPartsIff(f: Repair, source: string, lines: seq<string>, row: nat)
    requires row < |lines|
    ensures DocCitations(source, RepairedLines(f, lines), row) == Renamed(f, DocCitations(source, lines, row)) <==>
            && MarksOf(source, row, Scan(RepairedLine(f, lines[row])))
               == Renamed(f, MarksOf(source, row, Scan(lines[row])))
            && DocCitations(source, RepairedLines(f, lines), row + 1)
               == Renamed(f, DocCitations(source, lines, row + 1))
  {
    var here, later := MarksOf(source, row, Scan(lines[row])), DocCitations(source, lines, row + 1);
    var here' := MarksOf(source, row, Scan(RepairedLine(f, lines[row])));
    var later' := DocCitations(source, RepairedLines(f, lines), row + 1);
    assert DocCitations(source, lines, row) == here + later;
    assert DocCitations(source, RepairedLines(f, lines), row) == here' + later';
    hide *;
    RenamedConcat(f, here, later);
    MarksAreOf(source, row, Scan(lines[row]));
    MarksAreOf(source, row, Scan(RepairedLine(f, lines[row])));
    DocIsOf(source, lines, row + 1);
    DocIsOf(source, RepairedLines(f, lines), row + 1);
    RenamedPlaces(f, here);
    RenamedPlaces(f, later);
    SameParts((x: Citation) => x.row == row, here', later', Renamed(f, here), Renamed(f, later));
  }

  lemma {:induction false} DocRenamedIff(f: Repair, source: string, lines: seq<string>, row: nat)
    requires Lawful(f)
    ensures DocCitations(source, RepairedLines(f, lines), row) == Renamed(f, DocCitations(source, lines, row)) <==>
            DocRescans(f, lines, row)
    decreases |lines| - row
  {
    hide *;
    if row < |lines| {
      DocPartsIff(f, source, lines, row);
      LineRenamedIff(f, source, row, lines[row]);
      DocRenamedIff(f, source, lines, row + 1);
      DocRescansFirst(f, lines, row);
    } else {
      BehindLastLine(f, source, lines, row);
    }
  }

  lemma BehindLastLine(f: Repair, source: string, lines: seq<string>, row: nat)
    requires row >= |lines|
    ensures DocCitations(source, RepairedLines(f, lines), row) == [] && DocCitations(source, lines, row) == []
    ensures Renamed(f, []) == [] && DocRescans(f, lines, row)
  {
    hide RepairedLine;
  }

  lemma DocRescansFirst(f: Repair, lines: seq<string>, row: nat)
    requires row < |lines|
    ensures DocRescans(f, lines, row) <==> !Glues(f, Scan(lines[row])) && DocRescans(f, lines, row + 1)
  {
    hide Scan, Glues;
  }

  /** Scanned after an update, the corpus holds the same citations in the same places, each as repaired. */
  function AllRenamed(c: Corpus, ledger: Ledger, cites: seq<Citation>): (r: seq<Citation>)
    requires Indexed(c)
    ensures |r| == |cites|
  {
    if cites == [] then []
    else [cites[0].(mark := NewMark(c, ledger, cites[0]))] + AllRenamed(c, ledger, cites[1..])
  }

  lemma {:induction false} RenamedOfOne(c: Corpus, ledger: Ledger, source: string, cites: seq<Citation>,
                                            rest: seq<Citation>)
    requires Indexed(c) && forall i | 0 <= i < |cites| :: cites[i].source == source
    ensures AllRenamed(c, ledger, cites + rest)
         == Renamed(RepairOf(c, ledger, source), cites) + AllRenamed(c, ledger, rest)
  {
    hide RepairOf;
    if cites == [] {
      assert cites + rest == rest;
    } else {
      assert (cites + rest)[1..] == cites[1..] + rest && (cites + rest)[0] == cites[0];
      RenamedOfOne(c, ledger, source, cites[1..], rest);
    }
  }

  lemma {:induction false} FoundIsOf(c: Corpus, live: seq<string>)
    requires forall i | 0 <= i < |live| :: live[i] in c.docs
    ensures forall i | 0 <= i < |Found(c, live)| :: Found(c, live)[i].source in live
  {
    if live != [] {
      hide DocCitations;
      DocIsOf(live[0], c.docs[live[0]], 0);
      FoundIsOf(c, live[1..]);
    }
  }

  lemma {:induction false} AllRenamedPlaces(c: Corpus, ledger: Ledger, cites: seq<Citation>)
    requires Indexed(c)
    ensures forall i | 0 <= i < |cites| :: AllRenamed(c, ledger, cites)[i].source == cites[i].source
  {
    if cites != [] {
      hide NewMark;
      AllRenamedPlaces(c, ledger, cites[1..]);
    }
  }

  /** The rewritten corpus scans back as the repaired citations exactly when no repair glued. */
  lemma {:induction false} FoundAgain(c: Corpus, ledger: Ledger, live: seq<string>)
    requires Valid(c) && (forall i | 0 <= i < |live| :: live[i] in c.live && live[i] in c.docs)
    requires forall i, j | 0 <= i < j < |live| :: live[i] != live[j]
    ensures forall i | 0 <= i < |live| :: live[i] in Updated(c, ledger).docs
    ensures Found(Updated(c, ledger), live) == AllRenamed(c, ledger, Found(c, live)) <==> Rescans(c, ledger, live)
  {
    if live != [] {
      hide RepairOf, Renamed, DocCitations, AllRenamed, DocRescans, RepairedLine;
      var p, rest := live[0], live[1..];
      var f, c' := RepairOf(c, ledger, p), Updated(c, ledger);
      var here, here' := DocCitations(p, c.docs[p], 0), DocCitations(p, c'.docs[p], 0);
      FoundAgain(c, ledger, rest);
      RepairsAreLawful(c, ledger, p);
      DocRenamedIff(f, p, c.docs[p], 0);
      DocIsOf(p, c.docs[p], 0);
      DocIsOf(p, c'.docs[p], 0);
      FoundIsOf(c, rest);
      FoundIsOf(c', rest);
      RenamedOfOne(c, ledger, p, here, Found(c, rest));
      RenamedPlaces(f, here);
      AllRenamedPlaces(c, ledger, Found(c, rest));
      SameParts((x: Citation) => x.source == p, here', Found(c', rest),
                Renamed(f, here), AllRenamed(c, ledger, Found(c, rest)));
      RescansFirst(c, ledger, live);
    } else {
      assert AllRenamed(c, ledger, []) == [];
    }
  }

  lemma RescansFirst(c: Corpus, ledger: Ledger, live: seq<string>)
    requires live != [] && Indexed(c) && forall i | 0 <= i < |live| :: live[i] in c.docs
    ensures Rescans(c, ledger, live) <==>
            DocRescans(RepairOf(c, ledger, live[0]), c.docs[live[0]], 0) && Rescans(c, ledger, live[1..])
  {
    hide DocRescans, RepairOf;
    forall i | 1 <= i < |live| ensures live[1..][i - 1] == live[i] {
    }
  }

  // ---- the fixpoint ----

  /** The update changed no text inside the span of this key. */
  predicate SameText(c: Corpus, ledger: Ledger, k: Key)
    requires Valid(c) && k.target in c.docs
  {
    SpanLines(Updated(c, ledger).docs[k.target], k.lo, k.hi) == SpanLines(c.docs[k.target], k.lo, k.hi)
  }

  lemma UpdatedShape(c: Corpus, ledger: Ledger)
    requires Valid(c)
    ensures var c' := Updated(c, ledger);
            && Valid(c') && c'.live == c.live && c'.index == c.index && c'.docs.Keys == c.docs.Keys
            && forall p | p in c.docs :: |c'.docs[p]| == |c.docs[p]|
  {
    hide RepairOf;
  }

  /** After an update without errors, a citation is steady exactly when the update left its cited text
      alone and wrote a true entry for it; otherwise it is an error. */
  lemma JudgedAgain(c: Corpus, ledger: Ledger, entries: Ledger, x: Citation)
    requires Valid(c) && x.mark.name in c.index && Digested(c, entries) && NewKey(c, ledger, x) in entries
    ensures Valid(Updated(c, ledger))
    ensures var v := Judge(Updated(c, ledger), entries, x.source, NewMark(c, ledger, x));
            var k := NewKey(c, ledger, x);
            && (SameText(c, ledger, k) && TrueAt(c, k, entries[k]) ==> v == Steady(entries[k]))
            && (!SameText(c, ledger, k) || !TrueAt(c, k, entries[k]) ==> IsError(v, false))
  {
    hide NewMark, Updated, Fingerprint, SpanLines, Hits, Digest;
    UpdatedShape(c, ledger);
    var k, c' := NewKey(c, ledger, x), Updated(c, ledger);
    assert DigestAt(c, k, entries[k]);
    var lines, lines' := c.docs[k.target], c'.docs[k.target];
    FingerprintIsText(lines, k.lo, k.hi, lines', k.lo, k.hi);
    FingerprintParts(lines, k.lo, k.hi);
    FingerprintParts(lines', k.lo, k.hi);
    assert KeyOf(c', x.source, NewMark(c, ledger, x)) == k;
  }

  lemma FingerprintParts(lines: seq<string>, lo: int, hi: int)
    requires InBounds(lines, lo, hi)
    ensures Fingerprint(lines, lo, hi).digest == Some(SpanLines(lines, lo, hi))
    ensures Fingerprint(lines, lo, hi).excerpt == FirstText(SpanLines(lines, lo, hi))
  {
    hide Norm;
    ExcerptIsFirstText(lines, lo, hi);
    assert |SpanLines(lines, lo, hi)| == hi - lo + 1;
  }

  /** No cited span lost or gained text. */
  predicate Undisturbed(c: Corpus, ledger: Ledger, cites: seq<Citation>)
    requires Valid(c)
  {
    forall i | 0 <= i < |cites| ::
      && cites[i].mark.name in c.index && NewKey(c, ledger, cites[i]).target in c.docs
      && SameText(c, ledger, NewKey(c, ledger, cites[i]))
  }

  lemma {:induction false} RenamedAt(c: Corpus, ledger: Ledger, cites: seq<Citation>, i: nat)
    requires Indexed(c) && i < |cites|
    ensures AllRenamed(c, ledger, cites)[i] == cites[i].(mark := NewMark(c, ledger, cites[i]))
  {
    hide NewMark;
    if i > 0 {
      RenamedAt(c, ledger, cites[1..], i - 1);
    }
  }

  lemma {:induction false} NewKeyAt(c: Corpus, ledger: Ledger, cites: seq<Citation>, i: nat)
    requires Indexed(c) && i < |cites| && cites[i].mark.name in c.index
    ensures NewKey(c, ledger, cites[i]) in NewKeys(c, ledger, cites)
  {
    hide NewKey;
    if i < |cites| - 1 {
      NewKeyAt(c, ledger, cites[..|cites| - 1], i);
    }
  }

  /** Everything known after a clean update: the new ledger, and the citations as scanned again. */
  lemma AfterCleanUpdate(c: Corpus, ledger: Ledger)
    requires Valid(c) && Rescans(c, ledger, c.live) && Errors(c, ledger, Found(c, c.live), true) == []
    ensures Valid(Updated(c, ledger))
    ensures var cites, c' := Found(c, c.live), Updated(c, ledger);
            var entries := Fresh(c, ledger, cites, true);
            var cites' := Found(c', c'.live);
            && Digested(c, entries) && entries.Keys == NewKeys(c, ledger, cites) && |cites'| == |cites|
            && forall i | 0 <= i < |cites| ::
                 && cites[i].mark.name in c.index
                 && NewKey(c, ledger, cites[i]) in entries
                 && cites'[i] == cites[i].(mark := NewMark(c, ledger, cites[i]))
  {
    hide Judge, NewKey, NewMark, Found, Errors, Fresh, Truthful, Digested, MovesSoundly, AllRenamed, Rescans;
    UpdatedShape(c, ledger);
    FoundAgain(c, ledger, c.live);
    var cites := Found(c, c.live);
    FreshIsTrue(c, ledger, cites);
    NoErrors(c, ledger, cites, true);
    forall i | 0 <= i < |cites|
      ensures cites[i].mark.name in c.index && NewKey(c, ledger, cites[i]) in Fresh(c, ledger, cites, true) {
      FineIsKnown(c, ledger, cites[i]);
      NewKeyAt(c, ledger, cites, i);
    }
    forall i | 0 <= i < |cites|
      ensures AllRenamed(c, ledger, cites)[i] == cites[i].(mark := NewMark(c, ledger, cites[i])) {
      RenamedAt(c, ledger, cites, i);
    }
  }

  lemma FineIsKnown(c: Corpus, ledger: Ledger, x: Citation)
    requires Indexed(c) && Fine(c, ledger, x, true)
    ensures x.mark.name in c.index
  {
  }

  /** Every key written belongs to some citation. */
  lemma {:induction false} NewKeyOf(c: Corpus, ledger: Ledger, cites: seq<Citation>, k: Key) returns (i: nat)
    requires Indexed(c) && k in NewKeys(c, ledger, cites)
    ensures i < |cites| && cites[i].mark.name in c.index && NewKey(c, ledger, cites[i]) == k
  {
    hide NewKey;
    var n := |cites| - 1;
    if cites[n].mark.name in c.index && NewKey(c, ledger, cites[n]) == k {
      i := n;
    } else {
      i := NewKeyOf(c, ledger, cites[..n], k);
    }
  }

  /** A clean update is a fixpoint. If it reports no error, an immediate check reports none either, exactly
      when no rewriting fell inside a cited span and every entry written is true. */
  lemma CheckAfterUpdateIff(c: Corpus, ledger: Ledger)
    requires Valid(c) && Rescans(c, ledger, c.live) && Errors(c, ledger, Found(c, c.live), true) == []
    ensures var c', entries := Updated(c, ledger), Fresh(c, ledger, Found(c, c.live), true);
            Valid(c') &&
            (Errors(c', entries, Found(c', c'.live), false) == [] <==>
             Undisturbed(c, ledger, Found(c, c.live)) && Truthful(c, entries))
  {
    hide Judge, NewKey, NewMark, Found, Errors, Fresh, Updated, SameText, Rescans, Fingerprint, InBounds, NewKeys,
         TrueAt, DigestAt;
    AfterCleanUpdate(c, ledger);
    var c', cites := Updated(c, ledger), Found(c, c.live);
    var entries, cites' := Fresh(c, ledger, cites, true), Found(c', c'.live);
    forall i | 0 <= i < |cites'|
      ensures cites[i].mark.name in c.index && NewKey(c, ledger, cites[i]).target in c.docs
      ensures Fine(c', entries, cites'[i], false) <==>
              SameText(c, ledger, NewKey(c, ledger, cites[i]))
              && TrueAt(c, NewKey(c, ledger, cites[i]), entries[NewKey(c, ledger, cites[i])]) {
      AgainFineIff(c, ledger, entries, cites[i]);
    }
    if Undisturbed(c, ledger, cites) && Truthful(c, entries) {
      NoneIsError(c', entries, cites', false);
    }
    if Errors(c', entries, cites', false) == [] {
      NoErrors(c', entries, cites', false);
      forall k | k in entries ensures TrueAt(c, k, entries[k]) {
        var i := NewKeyOf(c, ledger, cites, k);
        assert Fine(c', entries, cites'[i], false);
      }
    }
  }

  lemma AgainFineIff(c: Corpus, ledger: Ledger, entries: Ledger, x: Citation)
    requires Valid(c) && x.mark.name in c.index && Digested(c, entries) && NewKey(c, ledger, x) in entries
    ensures Valid(Updated(c, ledger)) && NewKey(c, ledger, x).target in c.docs
    ensures var k := NewKey(c, ledger, x);
            Fine(Updated(c, ledger), entries, x.(mark := NewMark(c, ledger, x)), false) <==>
            SameText(c, ledger, k) && TrueAt(c, k, entries[k])
  {
    hide Judge, NewKey, NewMark, Updated, SameText, TrueAt, InBounds, SpanLines;
    assert DigestAt(c, NewKey(c, ledger, x), entries[NewKey(c, ledger, x)]);
    JudgedAgain(c, ledger, entries, x);
  }

  /** What a caller can see beforehand: no line that the update rewrites lies inside a cited span. */
  ghost predicate SpansAreSpared(c: Corpus, ledger: Ledger, cites: seq<Citation>)
    requires Valid(c)
  {
    forall i, n | 0 <= i < |cites| && cites[i].mark.name in c.index ::
      var k := NewKey(c, ledger, cites[i]);
      k.target in c.docs && (k.lo <= n <= k.hi && 1 <= n <= |c.docs[k.target]| ==> !Rewritten(c, ledger, k.target, n))
  }

  predicate Rewritten(c: Corpus, ledger: Ledger, path: string, n: int)
    requires Valid(c) && path in c.docs && 1 <= n <= |c.docs[path]|
  {
    path in c.live && RepairedLine(RepairOf(c, ledger, path), c.docs[path][n - 1]) != c.docs[path][n - 1]
  }

  lemma SparedIsSame(c: Corpus, ledger: Ledger, k: Key)
    requires Valid(c) && k.target in c.docs && InBounds(c.docs[k.target], k.lo, k.hi)
    requires forall n | k.lo <= n <= k.hi :: !Rewritten(c, ledger, k.target, n)
    ensures SameText(c, ledger, k)
  {
    hide Norm, RepairOf, RepairedLine;
    var lines, lines' := c.docs[k.target], Updated(c, ledger).docs[k.target];
    assert |lines| == |lines'|;
    forall i | 0 <= i <= k.hi - k.lo ensures SpanLines(lines, k.lo, k.hi)[i] == SpanLines(lines', k.lo, k.hi)[i] {
      assert !Rewritten(c, ledger, k.target, k.lo + i);
    }
    assert SpanLines(lines, k.lo, k.hi) == SpanLines(lines', k.lo, k.hi);
  }

  /** ... in which case the check after it passes, if nothing was moved under an empty excerpt over text. */
  lemma SparedUpdateIsFixpoint(c: Corpus, ledger: Ledger)
    requires Valid(c) && Rescans(c, ledger, c.live) && Errors(c, ledger, Found(c, c.live), true) == []
    requires MovesSoundly(c, ledger, Found(c, c.live)) && SpansAreSpared(c, ledger, Found(c, c.live))
    ensures var c', entries := Updated(c, ledger), Fresh(c, ledger, Found(c, c.live), true);
            Valid(c') && Errors(c', entries, Found(c', c'.live), false) == []
  {
    hide Judge, NewKey, NewMark, Found, Errors, Fresh, Updated, SameText, IsError, Rescans, Rewritten, Fingerprint,
         MovesSoundly;
    CheckAfterUpdateIff(c, ledger);
    AfterCleanUpdate(c, ledger);
    var cites := Found(c, c.live);
    FreshIsTrue(c, ledger, cites);
    forall i | 0 <= i < |cites|
      ensures cites[i].mark.name in c.index && NewKey(c, ledger, cites[i]).target in c.docs
              && SameText(c, ledger, NewKey(c, ledger, cites[i])) {
      var k := NewKey(c, ledger, cites[i]);
      assert TrueAt(c, k, Fresh(c, ledger, cites, true)[k]);
      SparedIsSame(c, ledger, k);
    }
  }

  // ---- a second update ----

  function KeySet(c: Corpus, cites: seq<Citation>): set<Key> {
    if cites == [] then {}
    else
      var last := cites[|cites| - 1];
      KeySet(c, cites[..|cites| - 1]) + if last.mark.name in c.index then {KeyOf(c, last.source, last.mark)} else {}
  }

  predicate OnRecord(c: Corpus, ledger: Ledger, x: Citation)
    requires Indexed(c)
  {
    && x.mark.name in c.index && KeyOf(c, x.source, x.mark) in ledger
    && Judge(c, ledger, x.source, x.mark) == Steady(ledger[KeyOf(c, x.source, x.mark)])
  }

  lemma {:induction false} SteadyRecords(c: Corpus, ledger: Ledger, cites: seq<Citation>, update: bool)
    requires Indexed(c) && forall i | 0 <= i < |cites| :: OnRecord(c, ledger, cites[i])
    ensures var entries := Fresh(c, ledger, cites, update);
            entries.Keys == KeySet(c, cites) && forall k | k in entries :: k in ledger && entries[k] == ledger[k]
  {
    if cites != [] {
      hide Judge, KeyOf;
      var before := cites[..|cites| - 1];
      SteadyRecords(c, ledger, before, update);
      assert OnRecord(c, ledger, cites[|cites| - 1]);
    }
  }

  lemma {:induction false} SameKeys(c: Corpus, ledger: Ledger, c': Corpus, cites: seq<Citation>, cites': seq<Citation>)
    requires Valid(c) && c'.index == c.index && |cites'| == |cites|
    requires forall i | 0 <= i < |cites| :: cites'[i] == cites[i].(mark := NewMark(c, ledger, cites[i]))
    ensures KeySet(c', cites') == NewKeys(c, ledger, cites)
  {
    if cites != [] {
      hide NewMark;
      var n := |cites| - 1;
      SameKeys(c, ledger, c', cites[..n], cites'[..n]);
      assert cites'[n] == cites[n].(mark := NewMark(c, ledger, cites[n]));
    }
  }

  lemma {:induction false} NothingRepaired(f: Repair, pieces: seq<Piece>)
    requires forall j | 0 <= j < |pieces| && pieces[j].Cite? :: f(pieces[j].mark).None?
    ensures Repaired(f, pieces) == pieces
  {
    if pieces != [] {
      forall j | 0 <= j < |pieces[1..]| && pieces[1..][j].Cite? ensures f(pieces[1..][j].mark).None? {
        assert pieces[1..][j] == pieces[j + 1];
      }
      NothingRepaired(f, pieces[1..]);
      assert pieces == [pieces[0]] + pieces[1..];
    }
  }

  lemma SteadyLineStays(c: Corpus, ledger: Ledger, i: nat, row: nat)
    requires Valid(c) && i < |c.live| && row < |c.docs[c.live[i]]|
    requires forall x | x in Found(c, c.live) :: OnRecord(c, ledger, x)
    ensures RepairedLine(RepairOf(c, ledger, c.live[i]), c.docs[c.live[i]][row]) == c.docs[c.live[i]][row]
  {
    hide Judge, Found, Scan, DocCitations;
    var p := c.live[i];
    var pieces := Scan(c.docs[p][row]);
    forall j | 0 <= j < |pieces| && pieces[j].Cite? ensures RepairOf(c, ledger, p)(pieces[j].mark).None? {
      var x := Citation(p, row, pieces[j].mark);
      FoundIff(c, c.live, x);
      assert OnRecord(c, ledger, x);
    }
    NothingRepaired(RepairOf(c, ledger, p), pieces);
    ScanRenders(c.docs[p][row]);
  }

  /** When every citation is steady, an update rewrites no line. */
  lemma SteadyCorpusStays(c: Corpus, ledger: Ledger)
    requires Valid(c) && forall x | x in Found(c, c.live) :: OnRecord(c, ledger, x)
    ensures Updated(c, ledger) == c
  {
    hide RepairOf, RepairedLine, OnRecord, Found;
    var c' := Updated(c, ledger);
    forall p | p in c.docs ensures c'.docs[p] == c.docs[p] {
      if p in c.live {
        var i :| 0 <= i < |c.live| && c.live[i] == p;
        forall row | 0 <= row < |c.docs[p]| ensures c'.docs[p][row] == c.docs[p][row] {
          SteadyLineStays(c, ledger, i, row);
        }
      }
    }
    assert c'.docs == c.docs;
  }

  /** Running the update once more changes nothing at all: no file, no ledger entry, no error. */
  lemma SecondUpdateChangesNothing(c: Corpus, ledger: Ledger)
    requires Valid(c) && Rescans(c, ledger, c.live) && Errors(c, ledger, Found(c, c.live), true) == []
    requires Undisturbed(c, ledger, Found(c, c.live))
    requires Truthful(c, Fresh(c, ledger, Found(c, c.live), true))
    ensures var c', entries := Updated(c, ledger), Fresh(c, ledger, Found(c, c.live), true);
            && Valid(c') && Updated(c', entries) == c'
            && (forall update :: Fresh(c', entries, Found(c', c'.live), update) == entries)
            && Errors(c', entries, Found(c', c'.live), true) == []
  {
    hide Judge, NewKey, NewMark, Found, Errors, Fresh, Updated, SameText, Rescans, KeyOf, KeySet, NewKeys, TrueAt,
         Digested;
    UpdatedShape(c, ledger);
    AfterCleanUpdate(c, ledger);
    var c', cites := Updated(c, ledger), Found(c, c.live);
    var entries, cites' := Fresh(c, ledger, cites, true), Found(c', c'.live);
    forall i | 0 <= i < |cites'| ensures OnRecord(c', entries, cites'[i]) && Fine(c', entries, cites'[i], true) {
      JudgedAgain(c, ledger, entries, cites[i]);
      KeyAgain(c, ledger, c', cites[i]);
    }
    NoneIsError(c', entries, cites', true);
    SameKeys(c, ledger, c', cites, cites');
    forall update ensures Fresh(c', entries, cites', update) == entries {
      SteadyRecords(c', entries, cites', update);
    }
    forall x | x in cites' ensures OnRecord(c', entries, x) {
      var i :| 0 <= i < |cites'| && cites'[i] == x;
    }
    SteadyCorpusStays(c', entries);
  }

  lemma KeyAgain(c: Corpus, ledger: Ledger, c': Corpus, x: Citation)
    requires Indexed(c) && c'.index == c.index && x.mark.name in c.index
    ensures KeyOf(c', x.source, NewMark(c, ledger, x)) == NewKey(c, ledger, x)
  {
  }

  // ---- what the ledger keeps ----

  /** The tool never puts an empty excerpt on record: only one put there by hand can break the fixpoint. */
  lemma {:induction false} ReadableStays(c: Corpus, ledger: Ledger, cites: seq<Citation>, update: bool)
    requires Indexed(c) && Readable(ledger)
    ensures Readable(Fresh(c, ledger, cites, update))
  {
    if cites != [] {
      hide Hits, Fingerprint, Digest, KeyOf, Moved;
      ReadableStays(c, ledger, cites[..|cites| - 1], update);
    }
  }

  /** An update preserves what the documents say: a citation on record with a digest that is no error is
      left citing exactly the text it was recorded against, wherever that text has gone; in the rewritten
      documents, that is, exactly when no rewriting fell inside its span. */
  lemma UpdateKeepsMeaning(c: Corpus, ledger: Ledger, x: Citation)
    requires Valid(c) && Fine(c, ledger, x, true)
    requires x.mark.name in c.index && KeyOf(c, x.source, x.mark) in ledger
    requires ledger[KeyOf(c, x.source, x.mark)].digest.Some?
    ensures var k := NewKey(c, ledger, x);
            var text := ledger[KeyOf(c, x.source, x.mark)].digest.value;
            && k.target in c.docs && InBounds(c.docs[k.target], k.lo, k.hi)
            && ReadsAs(c.docs[k.target], k.lo, k.hi, text)
            && (ReadsAs(Updated(c, ledger).docs[k.target], k.lo, k.hi, text) <==> SameText(c, ledger, k))
  {
    hide SpanLines, Fingerprint, Hits, NewKey, Judge, Updated, ReadsAs;
    UpdatedShape(c, ledger);
    RecordIsTrueIff(c, ledger, x);
    JudgedText(c, ledger, x);
    var k := NewKey(c, ledger, x);
    var text := ledger[KeyOf(c, x.source, x.mark)].digest.value;
    SpanReadsAs(c.docs[k.target], k.lo, k.hi, text);
    SpanReadsAs(Updated(c, ledger).docs[k.target], k.lo, k.hi, text);
  }

  lemma JudgedText(c: Corpus, ledger: Ledger, x: Citation)
    requires Indexed(c) && x.mark.name in c.index && KeyOf(c, x.source, x.mark) in ledger
    requires ledger[KeyOf(c, x.source, x.mark)].digest.Some?
    ensures var v, digest := Judge(c, ledger, x.source, x.mark), ledger[KeyOf(c, x.source, x.mark)].digest;
            && !v.Unrecorded?
            && (v.Steady? ==> v.current.digest == digest) && (v.Drifted? ==> v.moved.digest == digest)
  {
    hide Fingerprint, Compare;
    var k, lines := KeyOf(c, x.source, x.mark), c.docs[c.index[x.mark.name]];
    var v := Judge(c, ledger, x.source, x.mark);
    var current := Fingerprint(lines, k.lo, k.hi);
    ComparedText(lines, ledger[k], current, k.hi - k.lo + 1);
  }

  lemma ComparedText(lines: seq<string>, recorded: Entry, current: Entry, width: int)
    requires recorded.digest.Some?
    ensures var v := Compare(lines, recorded, current, width);
            && (v.Steady? ==> v.current == current && current.digest == recorded.digest)
            && (v.Drifted? ==> v.moved.digest == recorded.digest)
            && (v.Steady? || v.Drifted? || v.Lost?)
  {
    hide Digest;
    if Compare(lines, recorded, current, width).Drifted? {
      DriftedAt(lines, recorded, current, width);
    }
  }
}
