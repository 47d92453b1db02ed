/** `run_check` of `scripts/check_citations.py` with its loops: judging every citation, gathering the
    repairs by document, and splicing them into the text. */
module CitationRun {
  import opened Wrappers
  import opened CitationText
  import opened CitationLedger

  /** A citation with the place of its match in its line. */
  datatype Match = Match(x: Citation, at: nat)

  function LineMatches(source: string, row: nat, pieces: seq<Piece>, at: nat): seq<Match> {
    if pieces == [] then []
    else (if pieces[0].Cite? then [Match(Citation(source, row, pieces[0].mark), at)] else [])
         + LineMatches(source, row, pieces[1..], at + |Shown(pieces[0])|)
  }

  function DocMatches(source: string, lines: seq<string>, row: nat): seq<Match>
    decreases |lines| - row
  {
    if row >= |lines| then [] else LineMatches(source, row, Scan(lines[row]), 0) + DocMatches(source, lines, row + 1)
  }

  function AllMatches(c: Corpus, live: seq<string>): seq<Match>
    requires forall i | 0 <= i < |live| :: live[i] in c.docs
  {
    if live == [] then [] else DocMatches(live[0], c.docs[live[0]], 0) + AllMatches(c, live[1..])
  }

  function Bare(matches: seq<Match>): seq<Citation> {
    seq(|matches|, i requires 0 <= i < |matches| => matches[i].x)
  }

  lemma {:induction false} BareLine(source: string, row: nat, pieces: seq<Piece>, at: nat)
    ensures Bare(LineMatches(source, row, pieces, at)) == MarksOf(source, row, pieces)
    decreases |pieces|
  {
    hide Shown, Bare;
    if pieces != [] {
      var to := at + |Shown(pieces[0])|;
      BareLine(source, row, pieces[1..], to);
      var here := if pieces[0].Cite? then [Match(Citation(source, row, pieces[0].mark), at)] else [];
      var rest := LineMatches(source, row, pieces[1..], to);
      assert LineMatches(source, row, pieces, at) == here + rest;
      BareConcat(here, rest);
      if pieces[0].Cite? {
        BareOne(Citation(source, row, pieces[0].mark), at);
      } else {
        BareNone();
      }
    } else {
      BareNone();
    }
  }

  lemma BareConcat(a: seq<Match>, b: seq<Match>)
    ensures Bare(a + b) == Bare(a) + Bare(b)
  {
  }

  lemma BareOne(x: Citation, at: nat)
    ensures Bare([Match(x, at)]) == [x]
  {
  }

  lemma BareNone()
    ensures Bare([]) == []
  {
  }

  lemma {:induction false} BareDoc(source: string, lines: seq<string>, row: nat)
    ensures Bare(DocMatches(source, lines, row)) == DocCitations(source, lines, row)
    decreases |lines| - row
  {
    hide LineMatches, MarksOf, Scan;
    if row < |lines| {
      BareLine(source, row, Scan(lines[row]), 0);
      BareDoc(source, lines, row + 1);
    }
  }

  lemma {:induction false} BareAll(c: Corpus, live: seq<string>)
    requires forall i | 0 <= i < |live| :: live[i] in c.docs
    ensures Bare(AllMatches(c, live)) == Found(c, live)
  {
    hide DocMatches, DocCitations;
    if live != [] {
      BareDoc(live[0], c.docs[live[0]], 0);
      BareAll(c, live[1..]);
    }
  }

  /** What one match adds to the repairs of a document. */
  function EditsOfMatch(c: Corpus, ledger: Ledger, x: Match, source: string): seq<Edit>
    requires Indexed(c)
  {
    if x.x.source != source then [] else PieceEdits(RepairOf(c, ledger, source), x.x.row, Cite(x.x.mark), x.at)
  }

  function EditsFor(c: Corpus, ledger: Ledger, matches: seq<Match>, source: string): seq<Edit>
    requires Indexed(c)
  {
    if matches == [] then []
    else EditsFor(c, ledger, matches[..|matches| - 1], source)
         + EditsOfMatch(c, ledger, matches[|matches| - 1], source)
  }

  lemma {:induction false} EditsConcat(c: Corpus, ledger: Ledger, a: seq<Match>, b: seq<Match>, source: string)
    requires Indexed(c)
    ensures EditsFor(c, ledger, a + b, source) == EditsFor(c, ledger, a, source) + EditsFor(c, ledger, b, source)
  {
    hide EditsOfMatch;
    if b == [] {
      assert a + b == a;
    } else {
      var n := |b| - 1;
      assert (a + b)[..|a + b| - 1] == a + b[..n];
      EditsConcat(c, ledger, a, b[..n], source);
    }
  }

  lemma LineMatchesStep(p: string, row: nat, pieces: seq<Piece>, at: nat)
    requires pieces != []
    ensures LineMatches(p, row, pieces, at) ==
            (if pieces[0].Cite? then [Match(Citation(p, row, pieces[0].mark), at)] else [])
            + LineMatches(p, row, pieces[1..], at + |Shown(pieces[0])|)
  {
    hide Shown;
  }

  lemma NoEdits(c: Corpus, ledger: Ledger, p: string, row: nat, at: nat, source: string)
    requires Indexed(c)
    ensures EditsFor(c, ledger, LineMatches(p, row, [], at), source) == []
    ensures LineEdits(RepairOf(c, ledger, source), row, [], at) == []
  {
  }

  lemma {:induction false} EditsOfLine(c: Corpus, ledger: Ledger, p: string, row: nat, pieces: seq<Piece>, at: nat,
                                       source: string)
    requires Indexed(c)
    ensures EditsFor(c, ledger, LineMatches(p, row, pieces, at), source)
         == if p == source then LineEdits(RepairOf(c, ledger, source), row, pieces, at) else []
    decreases |pieces|
  {
    hide Shown, RepairOf, EditsFor, LineMatches, LineEdits;
    if pieces == [] {
      NoEdits(c, ledger, p, row, at, source);
    } else {
      var to := at + |Shown(pieces[0])|;
      LineMatchesStep(p, row, pieces, at);
      LineStep(RepairOf(c, ledger, source), row, pieces, at);
      EditsOfLine(c, ledger, p, row, pieces[1..], to, source);
      EditsConcat(c, ledger, if pieces[0].Cite? then [Match(Citation(p, row, pieces[0].mark), at)] else [],
                  LineMatches(p, row, pieces[1..], to), source);
      EditsOfFirst(c, ledger, p, row, pieces[0], at, source);
    }
  }

  lemma EditsOfFirst(c: Corpus, ledger: Ledger, p: string, row: nat, piece: Piece, at: nat, source: string)
    requires Indexed(c)
    ensures EditsFor(c, ledger, if piece.Cite? then [Match(Citation(p, row, piece.mark), at)] else [], source)
         == if p == source then PieceEdits(RepairOf(c, ledger, source), row, piece, at) else []
  {
    hide RepairOf;
    if piece.Cite? {
      var one := [Match(Citation(p, row, piece.mark), at)];
      assert one[..0] == [];
      assert EditsFor(c, ledger, one, source)
          == EditsFor(c, ledger, one[..0], source) + EditsOfMatch(c, ledger, one[0], source);
    }
  }

  lemma {:induction false} EditsOfDoc(c: Corpus, ledger: Ledger, p: string, lines: seq<string>, row: nat,
                                          source: string)
    requires Indexed(c)
    ensures EditsFor(c, ledger, DocMatches(p, lines, row), source)
         == if p == source then DocEdits(RepairOf(c, ledger, source), lines, row) else []
    decreases |lines| - row
  {
    hide RepairOf, LineMatches, LineEdits, Scan;
    if row < |lines| {
      EditsOfLine(c, ledger, p, row, Scan(lines[row]), 0, source);
      EditsOfDoc(c, ledger, p, lines, row + 1, source);
      EditsConcat(c, ledger, LineMatches(p, row, Scan(lines[row]), 0), DocMatches(p, lines, row + 1), source);
    }
  }

  /** The repairs gathered for one live document are the edits of that document, in order. */
  lemma {:induction false} EditsOfCorpus(c: Corpus, ledger: Ledger, live: seq<string>, source: string)
    requires Indexed(c) && source in c.docs
    requires forall i | 0 <= i < |live| :: live[i] in c.docs
    requires forall i, j | 0 <= i < j < |live| :: live[i] != live[j]
    ensures EditsFor(c, ledger, AllMatches(c, live), source)
         == if source in live then DocEdits(RepairOf(c, ledger, source), c.docs[source], 0) else []
  {
    hide RepairOf, DocMatches, DocEdits, EditsFor;
    if live == [] {
      NoEdits(c, ledger, source, 0, 0, source);
      assert AllMatches(c, live) == LineMatches(source, 0, [], 0);
    } else {
      EditsOfDoc(c, ledger, live[0], c.docs[live[0]], 0, source);
      EditsOfCorpus(c, ledger, live[1..], source);
      EditsConcat(c, ledger, DocMatches(live[0], c.docs[live[0]], 0), AllMatches(c, live[1..]), source);
      InFirstOrRest(live, source);
    }
  }

  lemma InFirstOrRest(live: seq<string>, source: string)
    requires live != []
    ensures source in live <==> source == live[0] || source in live[1..]
    ensures (forall i, j | 0 <= i < j < |live| :: live[i] != live[j]) ==> live[0] !in live[1..]
  {
    assert live == [live[0]] + live[1..];
  }

  type Repairs = map<string, seq<Edit>>

  function At(repairs: Repairs, source: string): seq<Edit> {
    if source in repairs then repairs[source] else []
  }

  /** `repairs` after some matches. */
  ghost predicate Repairing(c: Corpus, ledger: Ledger, update: bool, matches: seq<Match>, repairs: Repairs)
    requires Indexed(c)
  {
    forall source :: At(repairs, source) == if update then EditsFor(c, ledger, matches, source) else []
  }

  /** The variables `fresh`, `repairs` and `errors` after some matches. */
  ghost predicate Gathered(c: Corpus, ledger: Ledger, update: bool, matches: seq<Match>, entries: Ledger,
                           repairs: Repairs, errors: seq<Citation>)
    requires Indexed(c)
  {
    && entries == Fresh(c, ledger, Bare(matches), update)
    && errors == Errors(c, ledger, Bare(matches), update)
    && Repairing(c, ledger, update, matches, repairs)
  }

  function AddRepair(repairs: Repairs, x: Match, v: Verdict, update: bool): Repairs {
    if update && v.Drifted? then
      repairs[x.x.source := At(repairs, x.x.source)
        + [Edit(x.x.row, x.at, x.at + |Show(x.x.mark)|, Show(Moved(x.x.mark, v.line)))]]
    else repairs
  }

  lemma EditsGrow(c: Corpus, ledger: Ledger, before: seq<Match>, x: Match, source: string)
    requires Indexed(c)
    ensures EditsFor(c, ledger, before + [x], source) == EditsFor(c, ledger, before, source)
            + if x.x.source == source && Judge(c, ledger, source, x.x.mark).Drifted? then
                [Edit(x.x.row, x.at, x.at + |Show(x.x.mark)|,
                      Show(Moved(x.x.mark, Judge(c, ledger, source, x.x.mark).line)))]
              else []
  {
    hide Judge, Show, Moved;
    var after := before + [x];
    assert after[..|after| - 1] == before;
  }

  lemma RepairsGrow(c: Corpus, ledger: Ledger, update: bool, before: seq<Match>, x: Match, repairs: Repairs)
    requires Indexed(c) && Repairing(c, ledger, update, before, repairs)
    ensures Repairing(c, ledger, update, before + [x],
                      AddRepair(repairs, x, Judge(c, ledger, x.x.source, x.x.mark), update))
  {
    hide Judge, Show, Moved, EditsFor;
    var repairs' := AddRepair(repairs, x, Judge(c, ledger, x.x.source, x.x.mark), update);
    forall source ensures At(repairs', source) == if update then EditsFor(c, ledger, before + [x], source) else [] {
      EditsGrow(c, ledger, before, x, source);
      assert At(repairs, source) + [] == At(repairs, source);
    }
  }

  lemma GathersOne(c: Corpus, ledger: Ledger, update: bool, before: seq<Match>, x: Match, entries: Ledger,
                   repairs: Repairs, errors: seq<Citation>)
    requires Indexed(c) && Gathered(c, ledger, update, before, entries, repairs, errors)
    ensures var v := Judge(c, ledger, x.x.source, x.x.mark);
            Gathered(c, ledger, update, before + [x], Record(entries, c, ledger, x.x, update),
                     AddRepair(repairs, x, v, update), errors + if IsError(v, update) then [x.x] else [])
  {
    hide Judge, Record, IsError, AddRepair, Repairing;
    RepairsGrow(c, ledger, update, before, x, repairs);
    var after := Bare(before + [x]);
    assert after[..|after| - 1] == Bare(before) && after[|after| - 1] == x.x;
  }

  /** The loop over the citations. */
  method JudgeLoop(c: Corpus, ledger: Ledger, matches: seq<Match>, update: bool)
    returns (entries: Ledger, repairs: Repairs, errors: seq<Citation>)
    requires Indexed(c)
    ensures Gathered(c, ledger, update, matches, entries, repairs, errors)
  {
    hide Judge, Gathered, Record, Show, Moved, IsError;
    entries, repairs, errors := map[], map[], [];
    GatheredNone(c, ledger, update);
    for i := 0 to |matches|
      invariant Gathered(c, ledger, update, matches[..i], entries, repairs, errors)
    {
      var x, at := matches[i].x, matches[i].at;
      GathersOne(c, ledger, update, matches[..i], matches[i], entries, repairs, errors);
      assert matches[..i] + [matches[i]] == matches[..i + 1];
      var v := JudgeOne(c, ledger, x.source, x.mark);
      entries := Record(entries, c, ledger, x, update);
      if IsError(v, update) {
        errors := errors + [x];
      } else {
        assert errors + [] == errors;
      }
      if update && v.Drifted? {
        var edit := Edit(x.row, at, at + |Show(x.mark)|, Show(Moved(x.mark, v.line)));
        repairs := repairs[x.source := At(repairs, x.source) + [edit]];
      }
    }
    assert matches[..|matches|] == matches;
  }

  lemma GatheredNone(c: Corpus, ledger: Ledger, update: bool)
    requires Indexed(c)
    ensures Gathered(c, ledger, update, [], map[], map[], [])
  {
  }

  /** One round of that loop, with `find_span`. */
  method JudgeOne(c: Corpus, ledger: Ledger, source: string, m: Mark) returns (v: Verdict)
    requires Indexed(c)
    ensures v == Judge(c, ledger, source, m)
  {
    hide Fingerprint, Hits, Digest;
    if m.name !in c.index {
      return NoDocument;
    }
    var k, lines := KeyOf(c, source, m), c.docs[c.index[m.name]];
    if k.lo < 1 || k.hi < k.lo {
      return Malformed;
    }
    if k.hi > |lines| {
      return PastEnd;
    }
    var current := Fingerprint(lines, k.lo, k.hi);
    if k !in ledger {
      return if current.excerpt == "" then BlankTarget else Unrecorded(current);
    }
    var recorded := ledger[k];
    if recorded.excerpt == current.excerpt && (recorded.digest.None? || recorded.digest == current.digest) {
      return Steady(current);
    }
    var width := k.hi - k.lo + 1;
    var hits := FindSpan(lines, recorded, width);
    if |hits| != 1 {
      return Lost;
    }
    v := Drifted(hits[0], Entry(recorded.excerpt, Digest(lines, hits[0], hits[0] + width - 1)));
  }

  /** `run_check`: all citations are judged before any document is rewritten. */
  method RunCheck(c: Corpus, ledger: Ledger, update: bool)
    returns (docs: map<string, seq<string>>, entries: Ledger, errors: seq<Citation>)
    requires Valid(c)
    ensures docs == if update then Updated(c, ledger).docs else c.docs
    ensures entries == Fresh(c, ledger, Found(c, c.live), update)
    ensures errors == Errors(c, ledger, Found(c, c.live), update)
  {
    hide Fresh, Errors, Found, AllMatches, EditsFor, RepairOf, DocEdits, RepairedLine;
    var matches := AllMatches(c, c.live);
    BareAll(c, c.live);
    var repairs: Repairs;
    entries, repairs, errors := JudgeLoop(c, ledger, matches, update);
    docs := c.docs;
    if update {
      forall p | p in c.live ensures At(repairs, p) == DocEdits(RepairOf(c, ledger, p), c.docs[p], 0) {
        EditsOfCorpus(c, ledger, c.live, p);
      }
      docs := RewriteAll(c, ledger, repairs);
    }
  }

  /** The loop over `repairs`; a live document without any is rewritten as it was. */
  method RewriteAll(c: Corpus, ledger: Ledger, repairs: Repairs) returns (docs: map<string, seq<string>>)
    requires Valid(c)
    requires forall p | p in c.live :: At(repairs, p) == DocEdits(RepairOf(c, ledger, p), c.docs[p], 0)
    ensures docs == Updated(c, ledger).docs
  {
    hide DocEdits, UpTo;
    docs := c.docs;
    UpToEnds(c, ledger);
    for i := 0 to |c.live|
      invariant docs == UpTo(c, ledger, i)
    {
      var p := c.live[i];
      var lines := RewriteDocument(RepairOf(c, ledger, p), c.docs[p], At(repairs, p));
      docs := docs[p := lines];
      UpToStep(c, ledger, i);
    }
  }

  /** The documents once the first `k` live ones are rewritten. */
  ghost function UpTo(c: Corpus, ledger: Ledger, k: nat): map<string, seq<string>>
    requires Valid(c) && k <= |c.live|
  {
    map p | p in c.docs :: if p in c.live[..k] then RepairedLines(RepairOf(c, ledger, p), c.docs[p]) else c.docs[p]
  }

  lemma UpToEnds(c: Corpus, ledger: Ledger)
    requires Valid(c)
    ensures UpTo(c, ledger, 0) == c.docs && UpTo(c, ledger, |c.live|) == Updated(c, ledger).docs
  {
    hide RepairedLines, RepairOf;
    assert c.live[..|c.live|] == c.live;
  }

  lemma UpToStep(c: Corpus, ledger: Ledger, k: nat)
    requires Valid(c) && k < |c.live|
    ensures var p := c.live[k];
            UpTo(c, ledger, k + 1) == UpTo(c, ledger, k)[p := RepairedLines(RepairOf(c, ledger, p), c.docs[p])]
  {
    hide RepairedLines, RepairOf;
    assert c.live[..k + 1] == c.live[..k] + [c.live[k]];
  }

  /** Reading a document, splicing its repairs in, writing it back. */
  method RewriteDocument(ghost f: Repair, lines: seq<string>, edits: seq<Edit>) returns (r: seq<string>)
    requires edits == DocEdits(f, lines, 0)
    ensures r == RepairedLines(f, lines)
  {
    hide DocEdits, RepairedLine;
    var list := new string[|lines|](i requires 0 <= i < |lines| => lines[i]);
    assert list[..] == lines;
    DocEditsAscend(f, lines, 0);
    SpliceLoop(list, edits);
    SplicesAreSimultaneous(f, lines, 0);
    r := list[..];
    assert lines[..0] + RepairedLines(f, lines)[0..] == RepairedLines(f, lines);
  }
}

/** Three corpora on which an update without errors is not a fixpoint: a repair that glues, an entry moved
    under an empty excerpt, and a repair that rewrites a cited line. */
module CitationDepartures {
  import opened Wrappers
  import opened Characters
  import opened Json
  import opened CitationText
  import opened CitationLedger

  // ---- evaluating small texts ----

  lemma {:induction false} SqueezeWord(s: string, started: bool)
    requires forall i | 0 <= i < |s| :: !IsSpace(s[i])
    ensures Squeeze(s, started, false) == s
  {
    if s != "" {
      SqueezeWord(s[1..], true);
      assert s == [s[0]] + s[1..];
    }
  }

  /** Text without white space is its own normal form, and its own excerpt while it is short. */
  lemma NormOfWord(s: string)
    requires forall i | 0 <= i < |s| :: !IsSpace(s[i])
    ensures Norm(s) == s && (|s| <= EXCERPT_CHARS ==> Front(Norm(s), EXCERPT_CHARS) == s)
  {
    SqueezeWord(s, false);
    assert s[..|s|] == s;
  }

  lemma ScanOfShow(m: Mark)
    requires ValidMark(m)
    ensures Scan(Show(m)) == [Cite(m)]
  {
    hide Take, Begins, ValidMark;
    assert Show(m) + "" == Show(m);
    TakeOfShow(m, "");
    NothingBegins();
  }

  lemma OneSpan(lines: seq<string>, n: int)
    requires 1 <= n <= |lines|
    ensures SpanLines(lines, n, n) == [Norm(lines[n - 1])] && Digest(lines, n, n) == Some([Norm(lines[n - 1])])
  {
    hide Norm;
  }

  lemma TwoSpan(lines: seq<string>, n: int)
    requires 1 <= n < |lines|
    ensures SpanLines(lines, n, n + 1) == [Norm(lines[n - 1]), Norm(lines[n])]
    ensures Digest(lines, n, n + 1) == Some([Norm(lines[n - 1]), Norm(lines[n])])
  {
    hide Norm;
  }

  /** The only hit is found. */
  lemma {:induction false} OnlyHit(lines: seq<string>, recorded: Entry, width: int, n: nat, k: nat)
    requires 1 <= n <= |lines| && k <= |lines|
    requires forall i | 1 <= i <= |lines| :: IsHit(lines, recorded, width, i) <==> i == n
    ensures Hits(lines, recorded, width, k) == if n <= k then [n] else []
  {
    hide IsHit;
    if k > 0 {
      OnlyHit(lines, recorded, width, n, k - 1);
      assert IsHit(lines, recorded, width, k) <==> k == n;
    }
  }

  /** One live document `p` of one line, and another one that it cites as `a`. */
  function TwoFiles(line: string, target: seq<string>): Corpus {
    Corpus(["p"], map["a" := "t"], map["p" := [line], "t" := target])
  }

  lemma TwoFilesAre(line: string, target: seq<string>)
    ensures var c := TwoFiles(line, target);
            && Valid(c) && c.live == ["p"] && c.docs["p"] == [line] && c.docs["t"] == target
            && c.docs.Keys == {"p", "t"} && c.index.Keys == {"a"} && c.index["a"] == "t"
  {
    assert "p" != "t";
  }

  lemma OneLine(c: Corpus, source: string, pieces: seq<Piece>)
    requires source in c.docs && |c.docs[source]| == 1 && Scan(c.docs[source][0]) == pieces
    ensures Found(c, [source]) == MarksOf(source, 0, pieces)
  {
    hide Scan, MarksOf;
    var lines := c.docs[source];
    assert DocCitations(source, lines, 1) == [];
    assert MarksOf(source, 0, pieces) + [] == MarksOf(source, 0, pieces);
    assert [source][1..] == [] && Found(c, []) == [];
    assert DocCitations(source, lines, 0) + [] == DocCitations(source, lines, 0);
  }

  lemma OneCitation(c: Corpus, ledger: Ledger, x: Citation, update: bool)
    requires Indexed(c)
    ensures Errors(c, ledger, [x], update) == if IsError(Judge(c, ledger, x.source, x.mark), update) then [x] else []
    ensures Fresh(c, ledger, [x], update) == Record(map[], c, ledger, x, update)
  {
    hide Judge, IsError, Record;
    assert [x][..0] == [];
  }

  lemma OneMark(row: nat, m: Mark)
    ensures MarksOf("p", row, [Cite(m)]) == [Citation("p", row, m)]
  {
    assert [Cite(m)][1..] == [];
  }

  // ---- a repair that glues ----

  const GLUED := Mark(false, "a", "1", Some("1"), false)

  function GlueCorpus(): Corpus {
    TwoFiles(Show(GLUED) + "-9", ["", "T"])
  }

  function GlueLedger(): Ledger {
    map[Key("p", "t", 1, 1) := Entry("T", Some(["T"]))]
  }

  lemma GlueScans()
    ensures Scan(Show(GLUED) + "-9") == [Cite(GLUED), Plain('-'), Plain('9')]
    ensures Render([Plain('-'), Plain('9')]) == "-9"
  {
    hide Take;
    TakeOfShow(GLUED, "-9");
    DashNine();
    ScanBegun(Show(GLUED) + "-9");
  }

  lemma DashNine()
    ensures Scan("-9") == [Plain('-'), Plain('9')] && Render([Plain('-'), Plain('9')]) == "-9"
  {
    assert !Begins("-9");
    assert NameRun("9") == 1 && "9"[1..] == "";
    assert !Begins("9");
    assert "-9"[1..] == "9";
    assert Scan("9") == [Plain('9')];
    assert [Plain('-'), Plain('9')][1..] == [Plain('9')] && [Plain('9')][1..] == [];
  }

  lemma GlueMoves()
    ensures var c := GlueCorpus();
            Indexed(c) && Judge(c, GlueLedger(), "p", GLUED) == Drifted(2, Entry("T", Some(["T"])))
  {
    hide Norm, Digest, SpanLines, Hits, Show;
    TwoFilesAre(Show(GLUED) + "-9", ["", "T"]);
    var lines := ["", "T"];
    assert Lo(GLUED) == 1 && Hi(GLUED) == 1 by { assert "1"[..0] == ""; }
    NormOfWord("");
    NormOfWord("T");
    OneSpan(lines, 1);
    OneSpan(lines, 2);
    OnlyHit(lines, Entry("T", Some(["T"])), 1, 2, 2);
  }

  const READ_AGAIN := Mark(false, "a", "2", Some("9"), false)

  lemma GlueRewrites()
    ensures Moved(GLUED, 2) == Mark(false, "a", "2", None, false)
    ensures Show(Moved(GLUED, 2)) + "-9" == Show(READ_AGAIN) == "a.md:2-9"
  {
    assert Lo(GLUED) == 1 && Hi(GLUED) == 1 by { assert "1"[..0] == ""; }
    assert Decimal(2) == "2";
  }

  lemma GlueUpdated()
    ensures var c := GlueCorpus();
            && Valid(c) && Scan(c.docs["p"][0]) == [Cite(GLUED), Plain('-'), Plain('9')]
            && Updated(c, GlueLedger()).docs["p"] == ["a.md:2-9"] && Updated(c, GlueLedger()).docs["t"] == ["", "T"]
            && Glues(RepairOf(c, GlueLedger(), "p"), Scan(c.docs["p"][0]))
  {
    hide Show, Judge, Scan, Moved;
    TwoFilesAre(Show(GLUED) + "-9", ["", "T"]);
    GlueScans();
    GlueMoves();
    GlueRewrites();
    var f, pieces := RepairOf(GlueCorpus(), GlueLedger(), "p"), [Cite(GLUED), Plain('-'), Plain('9')];
    assert f(GLUED) == Some(Moved(GLUED, 2));
    assert pieces[1..] == [Plain('-'), Plain('9')];
    assert Repaired(f, pieces) == [Cite(Moved(GLUED, 2)), Plain('-'), Plain('9')] by {
      assert pieces[1..][1..] == [Plain('9')] && pieces[1..][1..][1..] == [];
    }
    assert Repaired(f, pieces)[1..] == [Plain('-'), Plain('9')];
  }

  lemma GlueFound()
    ensures var c, c' := GlueCorpus(), Updated(GlueCorpus(), GlueLedger());
            && Valid(c) && Valid(c') && Found(c, c.live) == [Citation("p", 0, GLUED)]
            && Found(c', c'.live) == [Citation("p", 0, READ_AGAIN)]
  {
    hide Scan, Show, Updated, Found, MarksOf, Moved, Glues, Judge;
    var c, c' := GlueCorpus(), Updated(GlueCorpus(), GlueLedger());
    TwoFilesAre(Show(GLUED) + "-9", ["", "T"]);
    UpdatedShape(c, GlueLedger());
    GlueUpdated();
    GlueRewrites();
    ScanOfShow(READ_AGAIN);
    OneLine(c, "p", [Cite(GLUED), Plain('-'), Plain('9')]);
    OneLine(c', "p", [Cite(READ_AGAIN)]);
    ThreePieces();
  }

  lemma ThreePieces()
    ensures MarksOf("p", 0, [Cite(GLUED), Plain('-'), Plain('9')]) == [Citation("p", 0, GLUED)]
    ensures MarksOf("p", 0, [Cite(READ_AGAIN)]) == [Citation("p", 0, READ_AGAIN)]
  {
    var pieces := [Cite(GLUED), Plain('-'), Plain('9')];
    assert pieces[1..] == [Plain('-'), Plain('9')] && pieces[1..][1..] == [Plain('9')] && [Plain('9')][1..] == [];
    assert MarksOf("p", 0, [Plain('9')]) == [];
    assert MarksOf("p", 0, [Plain('-'), Plain('9')]) == [];
    assert [Cite(READ_AGAIN)][1..] == [];
  }

  lemma GlueIsPastEnd(ledger: Ledger)
    ensures var c' := Updated(GlueCorpus(), GlueLedger());
            Valid(c') && Judge(c', ledger, "p", READ_AGAIN) == PastEnd
  {
    hide Updated, Show;
    TwoFilesAre(Show(GLUED) + "-9", ["", "T"]);
    UpdatedShape(GlueCorpus(), GlueLedger());
    assert Lo(READ_AGAIN) == 2 && Hi(READ_AGAIN) == 9 by { assert "2"[..0] == "" && "9"[..0] == ""; }
  }

  /** `a.md:1-1` in front of `-9` moves to line 2 and is written `a.md:2-9`. Nothing is reported, and the
      check that follows fails. */
  lemma GluedRepairBreaksUpdate()
    ensures var c, ledger := GlueCorpus(), GlueLedger();
            && Valid(c) && Glues(RepairOf(c, ledger, "p"), Scan(c.docs["p"][0]))
            && Errors(c, ledger, Found(c, c.live), true) == []
            && var c', entries := Updated(c, ledger), Fresh(c, ledger, Found(c, c.live), true);
               Valid(c') && c'.docs["p"] == ["a.md:2-9"] && Errors(c', entries, Found(c', c'.live), false) != []
  {
    hide Scan, Show, Updated, Found, Judge, Glues, Fresh, Errors;
    var c, ledger := GlueCorpus(), GlueLedger();
    GlueMoves();
    GlueUpdated();
    GlueFound();
    var entries := Fresh(c, ledger, Found(c, c.live), true);
    GlueIsPastEnd(entries);
    OneCitation(c, ledger, Citation("p", 0, GLUED), true);
    OneCitation(Updated(c, ledger), entries, Citation("p", 0, READ_AGAIN), false);
  }

  // ---- an empty excerpt ----

  const SPAN := Mark(false, "a", "1", Some("2"), false)

  function BlankCorpus(): Corpus {
    TwoFiles(Show(SPAN), ["x", "", "T"])
  }

  function BlankLedger(): Ledger {
    map[Key("p", "t", 1, 2) := Entry("", Some(["", "T"]))]
  }

  lemma BlankMoves()
    ensures var c := BlankCorpus();
            Indexed(c) && Judge(c, BlankLedger(), "p", SPAN) == Drifted(2, Entry("", Some(["", "T"])))
  {
    hide Norm, Digest, SpanLines, Hits, Show;
    TwoFilesAre(Show(SPAN), ["x", "", "T"]);
    var lines := ["x", "", "T"];
    assert Lo(SPAN) == 1 && Hi(SPAN) == 2 by { assert "1"[..0] == "" && "2"[..0] == ""; }
    NormOfWord("x");
    NormOfWord("");
    NormOfWord("T");
    NormBlank("x");
    NormBlank("T");
    TwoSpan(lines, 1);
    TwoSpan(lines, 2);
    OnlyHit(lines, Entry("", Some(["", "T"])), 2, 2, 3);
  }

  lemma BlankIsNotText()
    ensures !TrueAt(BlankCorpus(), Key("p", "t", 2, 3), Entry("", Some(["", "T"])))
  {
    hide Norm, Digest, SpanLines, Show;
    TwoFilesAre(Show(SPAN), ["x", "", "T"]);
    NormBlank("T");
    NormBlank("");
    assert !IsSpace("T"[0]) && Blank("");
  }

  lemma BlankRescans()
    ensures var c := BlankCorpus();
            Valid(c) && Rescans(c, BlankLedger(), c.live) && Found(c, c.live) == [Citation("p", 0, SPAN)]
  {
    hide Scan, Show, Judge, Found;
    var c := BlankCorpus();
    TwoFilesAre(Show(SPAN), ["x", "", "T"]);
    BlankMoves();
    ScanOfShow(SPAN);
    OneLine(c, "p", [Cite(SPAN)]);
    OneMark(0, SPAN);
    BlankKeepsRange();
    var f := RepairOf(c, BlankLedger(), "p");
    assert f(SPAN) == Some(Moved(SPAN, 2));
    assert !Glues(f, [Cite(SPAN)]) by { assert [Cite(SPAN)][1..] == []; }
  }

  lemma BlankKeepsRange()
    ensures Moved(SPAN, 2).hi.Some? && Lo(Moved(SPAN, 2)) == 2 && Hi(Moved(SPAN, 2)) == 3
  {
    assert Lo(SPAN) == 1 && Hi(SPAN) == 2 by { assert "1"[..0] == "" && "2"[..0] == ""; }
    MovedNames(SPAN, 2);
  }

  /** A span on record under an empty excerpt moves to where its digest stands, is put on record there under
      the same excerpt, and no longer agrees with the excerpt taken of it. */
  lemma EmptyExcerptBreaksUpdate()
    ensures var c, ledger := BlankCorpus(), BlankLedger();
            && Valid(c) && Rescans(c, ledger, c.live) && Errors(c, ledger, Found(c, c.live), true) == []
            && !MovesSoundly(c, ledger, Found(c, c.live))
            && var c', entries := Updated(c, ledger), Fresh(c, ledger, Found(c, c.live), true);
               Valid(c') && Errors(c', entries, Found(c', c'.live), false) != []
  {
    hide Show, Updated, Found, Judge, Rescans, Errors, Fresh, TrueAt;
    var c, ledger, x := BlankCorpus(), BlankLedger(), Citation("p", 0, SPAN);
    BlankRescans();
    BlankMoves();
    BlankKeepsRange();
    OneCitation(c, ledger, x, true);
    CheckAfterUpdateIff(c, ledger);
    TwoFilesAre(Show(SPAN), ["x", "", "T"]);
    BlankIsNotText();
    assert KeyOf(c, "p", Moved(SPAN, 2)) == Key("p", "t", 2, 3);
    assert Fresh(c, ledger, [x], true)[Key("p", "t", 2, 3)] == Entry("", Some(["", "T"]));
    assert Found(c, c.live) == [x] && [x][0] == x;
    assert !SoundMove(Judge(c, ledger, x.source, x.mark));
    assert !Truthful(c, Fresh(c, ledger, [x], true));
  }

  // ---- a repair inside a cited span ----

  const MOVES := Mark(false, "a", "2", None, false)
  const CITES_IT := Mark(false, "a", "1", None, false)

  function SelfLines(): seq<string> {
    [Show(MOVES), Show(CITES_IT), "T"]
  }

  /** A document that cites itself: its first line cites its second, its second the first. */
  function SelfCorpus(): Corpus {
    Corpus(["p"], map["a" := "p"], map["p" := SelfLines()])
  }

  function SelfLedger(): Ledger {
    map[Key("p", "p", 2, 2) := Entry("T", Some(["T"]))]
  }

  lemma SelfTexts()
    ensures Show(MOVES) == "a.md:2" && Show(CITES_IT) == "a.md:1"
    ensures Moved(MOVES, 3) == Mark(false, "a", "3", None, false) && Show(Moved(MOVES, 3)) == "a.md:3"
    ensures Lo(MOVES) == 2 && Hi(MOVES) == 2 && Lo(CITES_IT) == 1 && Hi(CITES_IT) == 1
  {
    assert Lo(MOVES) == 2 && Lo(CITES_IT) == 1 by { assert "2"[..0] == "" && "1"[..0] == ""; }
    assert Decimal(3) == "3";
  }

  lemma SelfNorms()
    ensures Norm("a.md:1") == "a.md:1" && Norm("a.md:2") == "a.md:2" && Norm("a.md:3") == "a.md:3" && Norm("T") == "T"
    ensures Front("a.md:1", EXCERPT_CHARS) != "T" && Front("a.md:2", EXCERPT_CHARS) != "T"
    ensures Front("T", EXCERPT_CHARS) == "T"
  {
    NormOfWord("a.md:1");
    NormOfWord("a.md:2");
    NormOfWord("a.md:3");
    NormOfWord("T");
  }

  lemma SelfMoves()
    ensures var c := SelfCorpus();
            Indexed(c) && Judge(c, SelfLedger(), "p", MOVES) == Drifted(3, Entry("T", Some(["T"])))
  {
    hide Norm, Front, Digest, SpanLines, Hits, Show, Moved, Lo, Hi, SelfLines;
    SelfIs();
    SelfTexts();
    SelfNorms();
    var lines := SelfLines();
    assert lines == ["a.md:2", "a.md:1", "T"];
    SecondHolds(lines);
    OneSpan(lines, 2);
    OneSpan(lines, 3);
    OnlyHit(lines, Entry("T", Some(["T"])), 1, 3, 3);
  }

  lemma SelfIs()
    ensures var c := SelfCorpus();
            && Valid(c) && c.live == ["p"] && c.index.Keys == {"a"} && c.index["a"] == "p"
            && c.docs.Keys == {"p"} && c.docs["p"] == SelfLines()
            && |SelfLines()| == 3 && SelfLines()[0] == Show(MOVES) && SelfLines()[1] == Show(CITES_IT)
            && SelfLines()[2] == "T" && SelfLines() == [Show(MOVES), Show(CITES_IT), "T"]
  {
    hide Show;
  }

  lemma SecondHolds(lines: seq<string>)
    requires lines == ["a.md:2", "a.md:1", "T"]
    ensures Fingerprint(lines, 2, 2).excerpt == "a.md:1" && Fingerprint(lines, 1, 1).excerpt == "a.md:2"
  {
    hide SpanLines, Norm, Front, Excerpt, Digest;
    NormOfWord("a.md:1");
    NormOfWord("a.md:2");
    OneSpan(lines, 1);
    OneSpan(lines, 2);
    FingerprintParts(lines, 1, 1);
    FingerprintParts(lines, 2, 2);
  }

  lemma SelfStays()
    ensures var c := SelfCorpus();
            Indexed(c) && Judge(c, SelfLedger(), "p", CITES_IT).Unrecorded?
  {
    hide Norm, Front, Digest, SpanLines, Hits, Show, Moved, Lo, Hi, SelfLines;
    SelfIs();
    SelfTexts();
    SecondHolds(SelfLines());
  }

  lemma ScanOfT()
    ensures Scan("T") == [Plain('T')]
  {
    assert !Begins("T") && "T"[1..] == "";
  }

  lemma SelfFound()
    ensures var c := SelfCorpus();
            && Valid(c) && Found(c, c.live) == [Citation("p", 0, MOVES), Citation("p", 1, CITES_IT)]
            && Rescans(c, SelfLedger(), c.live)
  {
    hide Scan, Show, Judge, SelfLines;
    SelfIs();
    var c, lines := SelfCorpus(), SelfLines();
    ScanOfShow(MOVES);
    ScanOfShow(CITES_IT);
    ScanOfT();
    ThreeLines(c, lines, MOVES, CITES_IT);
    var f := RepairOf(c, SelfLedger(), "p");
    NoEndsNoGlue(f, [Cite(MOVES)]);
    NoEndsNoGlue(f, [Cite(CITES_IT)]);
    NoEndsNoGlue(f, [Plain('T')]);
  }

  lemma NoEndsNoGlue(f: Repair, pieces: seq<Piece>)
    requires |pieces| == 1 && (pieces[0].Cite? ==> pieces[0].mark.hi.None?)
    ensures !Glues(f, pieces)
  {
    assert pieces[1..] == [];
  }

  lemma ThreeLines(c: Corpus, lines: seq<string>, a: Mark, b: Mark)
    requires "p" in c.docs && c.docs["p"] == lines && |lines| == 3
    requires Scan(lines[0]) == [Cite(a)] && Scan(lines[1]) == [Cite(b)] && Scan(lines[2]) == [Plain('T')]
    ensures Found(c, ["p"]) == [Citation("p", 0, a), Citation("p", 1, b)]
  {
    hide Scan, MarksOf;
    OneMark(0, a);
    OneMark(1, b);
    NoMark();
    assert DocCitations("p", lines, 3) == [];
    assert DocCitations("p", lines, 2) == [];
    assert DocCitations("p", lines, 1) == [Citation("p", 1, b)];
    assert ["p"][1..] == [] && Found(c, []) == [];
    assert DocCitations("p", lines, 0) == [Citation("p", 0, a)] + [Citation("p", 1, b)];
  }

  lemma NoMark()
    ensures MarksOf("p", 2, [Plain('T')]) == []
  {
    assert [Plain('T')][1..] == [];
  }

  lemma TwoClean(c: Corpus, ledger: Ledger, a: Citation, b: Citation)
    requires Indexed(c) && Fine(c, ledger, a, true) && Fine(c, ledger, b, true)
    ensures Errors(c, ledger, [a, b], true) == []
  {
    hide Fine;
    NoneIsError(c, ledger, [a, b], true);
  }

  /** The first line is rewritten, and it is the text of the span that the second line cites. */
  lemma SelfDisturbs()
    ensures var c := SelfCorpus();
            && Valid(c) && CITES_IT.name in c.index
            && NewKey(c, SelfLedger(), Citation("p", 1, CITES_IT)) == Key("p", "p", 1, 1)
            && !SameText(c, SelfLedger(), Key("p", "p", 1, 1))
  {
    hide Norm, SpanLines, Show, Judge, Scan, SelfLines, Moved, Lo, Hi;
    SelfIs();
    SelfTexts();
    SelfMoves();
    SelfStays();
    SelfNorms();
    var c, f := SelfCorpus(), RepairOf(SelfCorpus(), SelfLedger(), "p");
    var lines := SelfLines();
    ScanOfShow(MOVES);
    OneRepaired(f, MOVES);
    assert f(MOVES) == Some(Moved(MOVES, 3));
    OneSpan(lines, 1);
    OneSpan(RepairedLines(f, lines), 1);
  }

  lemma OneRepaired(f: Repair, m: Mark)
    ensures Render(Repaired(f, [Cite(m)])) == Show(Next(f, m))
  {
    hide Show;
    assert [Cite(m)][1..] == [] && Repaired(f, [Cite(m)]) == [Cite(Next(f, m))];
    assert [Cite(Next(f, m))][1..] == [];
    assert Show(Next(f, m)) + "" == Show(Next(f, m));
  }

  /** `a.md:2` moves to line 3, which changes the line that `a.md:1` cites. */
  lemma DisturbedSpanBreaksUpdate()
    ensures var c, ledger := SelfCorpus(), SelfLedger();
            && Valid(c) && Rescans(c, ledger, c.live) && Errors(c, ledger, Found(c, c.live), true) == []
            && MovesSoundly(c, ledger, Found(c, c.live)) && !Undisturbed(c, ledger, Found(c, c.live))
            && var c', entries := Updated(c, ledger), Fresh(c, ledger, Found(c, c.live), true);
               Valid(c') && Errors(c', entries, Found(c', c'.live), false) != []
  {
    hide Show, Updated, Found, Judge, Rescans, Errors, Fresh, Truthful, SameText, NewKey, SelfLines;
    var c, ledger := SelfCorpus(), SelfLedger();
    var a, b := Citation("p", 0, MOVES), Citation("p", 1, CITES_IT);
    SelfFound();
    SelfMoves();
    SelfStays();
    TwoClean(c, ledger, a, b);
    SelfDisturbs();
    assert Found(c, c.live)[1] == b;
    CheckAfterUpdateIff(c, ledger);
  }
}
