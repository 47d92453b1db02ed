/** The citation pattern of `scripts/check_citations.py` over one line of text: what `CITE.finditer`
    finds, what a repair writes, and when the rewritten line scans back as the repaired citations. */
module CitationText {
  import opened Wrappers
  import opened Characters
  import opened Json

  /** One match: the optional backticks, the file name without `.md`, and the digits as written. */
  datatype Mark = Mark(open: bool, name: string, lo: string, hi: Option<string>, close: bool)

  /** A line is a sequence of matches and of the characters between them. */
  datatype Piece = Plain(c: char) | Cite(mark: Mark)

  predicate NameStart(c: char) {
    'a' <= c <= 'z' || IsDigit(c)
  }

  predicate NameChar(c: char) {
    NameStart(c) || c == '-'
  }

  predicate ValidMark(m: Mark) {
    && m.name != "" && NameStart(m.name[0]) && (forall i | 0 <= i < |m.name| :: NameChar(m.name[i]))
    && m.lo != "" && Digits(m.lo)
    && (m.hi.Some? ==> m.hi.value != "" && Digits(m.hi.value))
  }

  // ---- writing ----

  function Span(m: Mark): string {
    m.lo + if m.hi.Some? then "-" + m.hi.value else ""
  }

  function Lead(m: Mark): string {
    (if m.open then "`" else "") + (m.name + ".md:")
  }

  function Tick(close: bool): string {
    if close then "`" else ""
  }

  function Show(m: Mark): string {
    Lead(m) + (Span(m) + Tick(m.close))
  }

  function Shown(piece: Piece): string {
    match piece
    case Plain(c) => [c]
    case Cite(m) => Show(m)
  }

  function Render(pieces: seq<Piece>): string {
    if pieces == [] then "" else Shown(pieces[0]) + Render(pieces[1..])
  }

  // ---- reading ----

  function NameRun(s: string): (n: nat)
    ensures n <= |s| && (forall i | 0 <= i < n :: NameChar(s[i])) && (n < |s| ==> !NameChar(s[n]))
  {
    if s == "" || !NameChar(s[0]) then 0 else 1 + NameRun(s[1..])
  }

  predicate Colon(s: string) {
    |s| > 4 && s[..4] == ".md:" && IsDigit(s[4])
  }

  /** Whether a name that has begun ends in `.md:` and a digit. */
  predicate NameEnds(s: string) {
    Colon(s[NameRun(s)..])
  }

  /** Behind the optional backtick: a name, `.md:` and a digit. */
  predicate Named(s: string) {
    s != "" && NameStart(s[0]) && NameEnds(s)
  }

  /** The pattern matches at the start of `s`. */
  predicate Begins(s: string) {
    Named(s) || (s != "" && s[0] == '`' && Named(s[1..]))
  }

  /** What follows the first number: an optional range end, then an optional backtick. */
  function TakeEnd(s: string): (Option<string>, string) {
    if |s| > 1 && s[0] == '-' && IsDigit(s[1]) then
      var n := DigitRun(s[1..]);
      (Some(s[1..][..n]), s[1..][n..])
    else (None, s)
  }

  function TakeTick(s: string): (bool, string) {
    if s != "" && s[0] == '`' then (true, s[1..]) else (false, s)
  }

  /** The numbers of a match, and the text behind it. */
  function TakeNumbers(u: string): (r: (string, Option<string>, bool, string))
    ensures |r.3| <= |u|
  {
    var d := DigitRun(u);
    var (hi, v) := TakeEnd(u[d..]);
    var (close, rest) := TakeTick(v);
    (u[..d], hi, close, rest)
  }

  /** The match at the start of a text, and the text behind it. */
  function Take(s: string): (r: (Mark, string))
    requires Begins(s)
    ensures |r.1| < |s|
  {
    var open := s[0] == '`';
    var t := if open then s[1..] else s;
    var n := NameRun(t);
    var (lo, hi, close, rest) := TakeNumbers(t[n + 4..]);
    (Mark(open, t[..n], lo, hi, close), rest)
  }

  /** `CITE.finditer`: leftmost matches, each after the end of the one before. */
  function Scan(s: string): seq<Piece>
    decreases |s|
  {
    if s == "" then []
    else if Begins(s) then var (m, rest) := Take(s); [Cite(m)] + Scan(rest)
    else [Plain(s[0])] + Scan(s[1..])
  }

  // ---- reading gives back what was written ----

  predicate StartsRange(t: string) {
    |t| > 1 && t[0] == '-' && IsDigit(t[1])
  }

  /** In front of `t`, the mark is read as a whole and no further. */
  predicate Fits(m: Mark, t: string) {
    m.close || ((t == "" || (t[0] != '`' && !IsDigit(t[0]))) && (m.hi.Some? || !StartsRange(t)))
  }

  lemma {:induction false} NameRunOf(n: string, x: string)
    requires (forall i | 0 <= i < |n| :: NameChar(n[i])) && (x == "" || !NameChar(x[0]))
    ensures NameRun(n + x) == |n|
  {
    if n != "" {
      assert (n + x)[1..] == n[1..] + x;
      NameRunOf(n[1..], x);
    } else {
      assert n + x == x;
    }
  }

  /** A name, `.md:` and a digit are recognised whatever follows. */
  lemma NamedLead(m: Mark, x: string)
    requires ValidMark(m) && x != "" && IsDigit(x[0])
    ensures var s := m.name + ".md:" + x; Named(s) && NameRun(s) == |m.name| && s[|m.name| + 4..] == x
  {
    var s := m.name + ".md:" + x;
    assert s == m.name + (".md:" + x);
    NameRunOf(m.name, ".md:" + x);
    assert s[|m.name|..] == ".md:" + x;
    assert (".md:" + x)[..4] == ".md:";
  }

  lemma TickBack(close: bool, t: string)
    requires close || t == "" || t[0] != '`'
    ensures TakeTick(Tick(close) + t) == (close, t)
    ensures !close ==> Tick(close) + t == t
    ensures close ==> (Tick(close) + t)[0] == '`'
  {
    assert close ==> ("`" + t)[1..] == t;
    assert "" + t == t;
  }

  lemma RangeBack(d: string, y: string)
    requires d != "" && Digits(d) && (y == "" || !IsDigit(y[0]))
    ensures TakeEnd("-" + d + y) == (Some(d), y) && ("-" + d + y)[0] == '-'
  {
    DigitRunOf(d, y);
    hide DigitRun;
    var all := "-" + d + y;
    assert all[1..] == d + y;
    assert (d + y)[..|d|] == d && (d + y)[|d|..] == y && all[1] == d[0];
  }

  lemma EndOfSpan(hi: Option<string>, close: bool, t: string)
    requires hi.Some? ==> hi.value != "" && Digits(hi.value)
    requires close || ((t == "" || (t[0] != '`' && !IsDigit(t[0]))) && (hi.Some? || !StartsRange(t)))
    ensures var y := (if hi.Some? then "-" + hi.value else "") + (Tick(close) + t);
            (y == "" || !IsDigit(y[0])) && TakeEnd(y) == (hi, Tick(close) + t)
    ensures TakeTick(Tick(close) + t) == (close, t)
  {
    TickBack(close, t);
    hide DigitRun, TakeTick, Tick, Digits;
    var y := Tick(close) + t;
    if hi.Some? {
      RangeBack(hi.value, y);
    } else {
      assert "" + y == y;
    }
  }

  lemma TakeOfNumbers(m: Mark, t: string)
    requires ValidMark(m) && Fits(m, t)
    ensures var x := Span(m) + (Tick(m.close) + t);
            x != "" && IsDigit(x[0]) && TakeNumbers(x) == (m.lo, m.hi, m.close, t)
  {
    hide DigitRun, TakeEnd, TakeTick;
    var tail := (if m.hi.Some? then "-" + m.hi.value else "") + (Tick(m.close) + t);
    EndOfSpan(m.hi, m.close, t);
    DigitRunOf(m.lo, tail);
    var x := Span(m) + (Tick(m.close) + t);
    assert x == m.lo + tail;
    assert x[..|m.lo|] == m.lo && x[|m.lo|..] == tail;
  }

  lemma Regroup(a: string, b: string, c: string, d: string, e: string, t: string)
    ensures (a + (b + c)) + (d + e) + t == a + (b + c + (d + (e + t)))
  {
  }

  lemma TakeOfShow(m: Mark, t: string)
    requires ValidMark(m) && Fits(m, t)
    ensures Begins(Show(m) + t) && Take(Show(m) + t) == (m, t)
  {
    hide NameRun, TakeNumbers, Named, ValidMark, Fits, Span, Tick;
    var x := Span(m) + (Tick(m.close) + t);
    TakeOfNumbers(m, t);
    NamedLead(m, x);
    var named := m.name + ".md:" + x;
    Regroup(if m.open then "`" else "", m.name, ".md:", Span(m), Tick(m.close), t);
    NamedIsName(named);
    TakeNamed(m.open, named);
    assert named[..|m.name|] == m.name;
  }

  lemma TakeNamed(open: bool, named: string)
    requires Named(named)
    ensures var s := (if open then "`" else "") + named;
            Begins(s) && s[0] == (if open then '`' else named[0]) && (if open then s[1..] else s) == named
  {
    hide Named;
    var s := (if open then "`" else "") + named;
    assert open ==> s[1..] == named;
    assert !open ==> s == named;
    NamedIsName(named);
  }

  lemma NamedIsName(s: string)
    requires Named(s)
    ensures s[0] != '`'
  {
  }

  lemma EndShows(v: string)
    requires v != "" ==> !IsDigit(v[0])
    ensures var (hi, w) := TakeEnd(v);
            var (close, t) := TakeTick(w);
            && v == (if hi.Some? then "-" + hi.value else "") + (Tick(close) + t)
            && (hi.Some? ==> hi.value != "" && Digits(hi.value))
            && (close || ((t == "" || (t[0] != '`' && !IsDigit(t[0]))) && (hi.Some? || !StartsRange(v))))
  {
    if StartsRange(v) {
      var n := DigitRun(v[1..]);
      assert v == "-" + (v[1..][..n] + v[1..][n..]);
    }
  }

  lemma NumbersShow(open: bool, name: string, u: string)
    requires u != "" && IsDigit(u[0])
    ensures var (lo, hi, close, t) := TakeNumbers(u);
            var m := Mark(open, name, lo, hi, close);
            && Fits(m, t) && u == Span(m) + (Tick(close) + t)
            && lo != "" && Digits(lo) && (hi.Some? ==> hi.value != "" && Digits(hi.value))
  {
    hide TakeEnd, TakeTick;
    var d := DigitRun(u);
    EndShows(u[d..]);
    assert u == u[..d] + u[d..];
    var (hi, w) := TakeEnd(u[d..]);
    var (close, t) := TakeTick(w);
    assert !close && hi.None? ==> u[d..] == t;
  }

  /** What is taken is a valid mark, taken as a whole, and writes back as the text it was taken from. */
  lemma TakeShows(s: string)
    requires Begins(s)
    ensures var (m, t) := Take(s); ValidMark(m) && Fits(m, t) && s == Show(m) + t
  {
    hide TakeNumbers, Fits, Span, Tick, NameRun, Named, Begins, NameChar, NameStart, IsDigit, Digits;
    BeginsNamed(s);
    var open := s[0] == '`';
    var named := if open then s[1..] else s;
    NamedSplits(named);
    var n := NameRun(named);
    NumbersShow(open, named[..n], named[n + 4..]);
    var (m, t) := Take(s);
    assert s == (if open then "`" else "") + named;
    Regroup(if open then "`" else "", m.name, ".md:", Span(m), Tick(m.close), t);
  }

  lemma CutTwice(s: string, n: nat, k: nat)
    requires n + k <= |s|
    ensures s == s[..n] + s[n..n + k] + s[n + k..] && s[n..][..k] == s[n..n + k]
    ensures n + k < |s| ==> s[n..][k] == s[n + k]
  {
  }

  lemma ColonAt(named: string, n: nat)
    requires n <= |named| && Colon(named[n..])
    ensures n + 4 < |named| && named == named[..n] + ".md:" + named[n + 4..] && IsDigit(named[n + 4])
  {
    CutTwice(named, n, 4);
  }

  lemma NamedSplits(named: string)
    requires Named(named)
    ensures var n := NameRun(named);
            && 0 < n < |named| - 4 && named == named[..n] + ".md:" + named[n + 4..] && IsDigit(named[n + 4])
            && NameStart(named[0]) && forall i | 0 <= i < n :: NameChar(named[i])
  {
    hide Colon;
    ColonAt(named, NameRun(named));
    assert NameRun(named) > 0;
  }

  /** A file name without `.md`: lower-case letters, digits and hyphens, no hyphen in front. */
  predicate IsName(name: string) {
    && name != "" && name[0] != '-'
    && forall i | 0 <= i < |name| :: 'a' <= name[i] <= 'z' || '0' <= name[i] <= '9' || name[i] == '-'
  }

  predicate IsNumber(s: string) {
    s != "" && forall i | 0 <= i < |s| :: '0' <= s[i] <= '9'
  }

  /** The text is a name, `.md:`, and a number's first digit with whatever follows. */
  predicate Starts(s: string, name: string, x: string) {
    IsName(name) && x != "" && '0' <= x[0] <= '9' && s == name + ".md:" + x
  }

  /** The pattern matches where a name, `.md:` and a digit stand, with or without a backtick in front. */
  lemma BeginsIff(s: string)
    ensures Begins(s) <==> (exists name, x :: Starts(s, name, x))
                           || (s != "" && s[0] == '`' && exists name, x :: Starts(s[1..], name, x))
  {
    hide Named, Starts;
    NamedIff(s);
    if s != "" {
      NamedIff(s[1..]);
    }
  }

  lemma NamedIff(s: string)
    ensures Named(s) <==> exists name, x :: Starts(s, name, x)
  {
    hide NameEnds;
    if Named(s) {
      NamedSplits(s);
      var n := NameRun(s);
      assert Starts(s, s[..n], s[n + 4..]);
    }
    forall name, x | Starts(s, name, x) ensures Named(s) {
      NamedLead(Mark(false, name, "0", None, false), x);
    }
  }

  lemma MarkIff(m: Mark)
    ensures ValidMark(m) <==> IsName(m.name) && IsNumber(m.lo) && (m.hi.Some? ==> IsNumber(m.hi.value))
  {
  }

  lemma BeginsNamed(s: string)
    requires Begins(s)
    ensures s != "" && Named(if s[0] == '`' then s[1..] else s)
  {
    if Named(s) { NamedIsName(s); }
  }

  predicate ValidPieces(pieces: seq<Piece>) {
    forall i | 0 <= i < |pieces| && pieces[i].Cite? :: ValidMark(pieces[i].mark)
  }

  /** Scanning splits a line and loses nothing. */
  lemma {:induction false} ScanRenders(s: string)
    ensures Render(Scan(s)) == s && ValidPieces(Scan(s))
    decreases |s|
  {
    hide Take, Begins, Show, ValidMark;
    if s != "" {
      if Begins(s) {
        TakeShows(s);
        ScanRenders(Take(s).1);
      } else {
        ScanRenders(s[1..]);
        assert s == [s[0]] + s[1..];
      }
    }
  }

  // ---- repairs ----

  /** What a repair makes of a mark; None leaves it as it is. */
  type Repair = Mark -> Option<Mark>

  function Next(f: Repair, m: Mark): Mark {
    if f(m).Some? then f(m).value else m
  }

  /** Only the numbers change, and no range end is invented. */
  ghost predicate Lawful(f: Repair) {
    forall m | ValidMark(m) ::
      var m' := Next(f, m);
      ValidMark(m') && m'.open == m.open && m'.name == m.name && m'.close == m.close && (m.hi.None? ==> m'.hi.None?)
  }

  function Repaired(f: Repair, pieces: seq<Piece>): seq<Piece> {
    if pieces == [] then []
    else [Fixed(f, pieces[0])] + Repaired(f, pieces[1..])
  }

  function Fixed(f: Repair, piece: Piece): Piece {
    match piece
    case Plain(c) => Plain(c)
    case Cite(m) => Cite(Next(f, m))
  }

  /** Some repair drops a range end that the text goes on to look like: `a.md:5-5` in front of `-9`. */
  predicate Glues(f: Repair, pieces: seq<Piece>) {
    pieces != [] &&
    (|| (&& pieces[0].Cite?
         && var m := pieces[0].mark;
            !m.close && m.hi.Some? && Next(f, m).hi.None? && StartsRange(Render(pieces[1..])))
     || Glues(f, pieces[1..]))
  }

  function Front(s: string, k: nat): string {
    if k <= |s| then s[..k] else s
  }

  lemma ShowFront(m: Mark, t: string, k: nat)
    requires ValidMark(m) && k <= 5
    ensures Front(Show(m) + t, k) == Front(Lead(m), k)
  {
    assert |Lead(m)| >= 5;
    assert (Show(m) + t)[..k] == Lead(m)[..k];
  }

  /** A repair never touches the first five characters behind any point between two pieces. */
  lemma {:induction false} FrontStays(f: Repair, pieces: seq<Piece>, k: nat)
    requires Lawful(f) && ValidPieces(pieces) && k <= 5
    ensures Front(Render(pieces), k) == Front(Render(Repaired(f, pieces)), k)
  {
    if pieces != [] && k > 0 {
      var rest, rest' := Render(pieces[1..]), Render(Repaired(f, pieces[1..]));
      match pieces[0]
      case Plain(c) =>
        FrontStays(f, pieces[1..], k - 1);
        assert Front([c] + rest, k) == [c] + Front(rest, k - 1);
        assert Front([c] + rest', k) == [c] + Front(rest', k - 1);
      case Cite(m) =>
        ShowFront(m, rest, k);
        ShowFront(Next(f, m), rest', k);
        assert Lead(m) == Lead(Next(f, m));
    }
  }

  lemma ColonIsFront(s: string, t: string)
    requires Front(s, 5) == Front(t, 5)
    ensures Colon(s) == Colon(t)
  {
    assert |s| > 4 ==> Front(s, 5)[..4] == s[..4] && Front(s, 5)[4] == s[4];
    assert |t| > 4 ==> Front(t, 5)[..4] == t[..4] && Front(t, 5)[4] == t[4];
  }

  lemma NameEndsPlain(c: char, s: string)
    ensures NameEnds([c] + s) == if NameChar(c) then NameEnds(s) else Colon([c] + s)
  {
    assert ([c] + s)[1..] == s;
    assert NameChar(c) ==> ([c] + s)[1 + NameRun(s)..] == s[NameRun(s)..];
    assert ([c] + s)[0..] == [c] + s;
  }

  lemma NameEndsMark(m: Mark, t: string)
    requires ValidMark(m)
    ensures NameEnds(Show(m) + t) == !m.open
  {
    hide NameRun, Colon, Named;
    if m.open {
      TickEndsNothing(Show(m) + t);
    } else {
      hide NameEnds;
      var x := Span(m) + (Tick(m.close) + t);
      assert IsDigit(m.lo[0]) && x[0] == m.lo[0];
      NamedLead(m, x);
      Regroup("", m.name, ".md:", Span(m), Tick(m.close), t);
      assert "" + (m.name + ".md:" + x) == m.name + ".md:" + x;
      NamedEnds(m.name + ".md:" + x);
    }
  }

  lemma TickEndsNothing(s: string)
    requires s != "" && s[0] == '`'
    ensures !NameEnds(s)
  {
    assert s[0..] == s;
  }

  lemma NamedEnds(s: string)
    requires Named(s)
    ensures NameEnds(s)
  {
  }

  lemma {:induction false} NameEndsStays(f: Repair, pieces: seq<Piece>)
    requires Lawful(f) && ValidPieces(pieces)
    ensures NameEnds(Render(pieces)) == NameEnds(Render(Repaired(f, pieces)))
  {
    if pieces != [] {
      hide NameEnds, Colon, Show, Front, ValidMark;
      var rest, rest' := Render(pieces[1..]), Render(Repaired(f, pieces[1..]));
      match pieces[0]
      case Plain(c) =>
        NameEndsPlain(c, rest);
        NameEndsPlain(c, rest');
        NameEndsStays(f, pieces[1..]);
        FrontStays(f, pieces, 5);
        ColonIsFront(Render(pieces), Render(Repaired(f, pieces)));
      case Cite(m) =>
        NameEndsMark(m, rest);
        NameEndsMark(Next(f, m), rest');
    }
  }

  /** No match begins at a plain character after a repair that did not begin there before. */
  lemma PlainStays(f: Repair, c: char, pieces: seq<Piece>)
    requires Lawful(f) && ValidPieces(pieces)
    ensures Begins([c] + Render(pieces)) == Begins([c] + Render(Repaired(f, pieces)))
  {
    hide NameEnds, Render, Repaired, Lawful, ValidMark;
    var u, t := Render(pieces), Render(Repaired(f, pieces));
    NameEndsPlain(c, u);
    NameEndsPlain(c, t);
    NameEndsStays(f, pieces);
    FrontStays(f, pieces, 1);
    hide Colon;
    assert ([c] + u)[1..] == u && ([c] + t)[1..] == t;
    assert u != "" ==> Front(u, 1)[0] == u[0];
    assert t != "" ==> Front(t, 1)[0] == t[0];
  }

  lemma FitsStays(f: Repair, m: Mark, pieces: seq<Piece>)
    requires Lawful(f) && ValidPieces(pieces) && ValidMark(m) && Fits(m, Render(pieces))
    ensures Fits(Next(f, m), Render(Repaired(f, pieces))) <==>
            !(!m.close && m.hi.Some? && Next(f, m).hi.None? && StartsRange(Render(pieces)))
  {
    var u, t := Render(pieces), Render(Repaired(f, pieces));
    FrontStays(f, pieces, 2);
    assert u != "" ==> Front(u, 2)[0] == u[0];
    assert t != "" ==> Front(t, 2)[0] == t[0];
    assert |u| > 1 ==> Front(u, 2)[1] == u[1];
    assert |t| > 1 ==> Front(t, 2)[1] == t[1];
  }

  /** The repaired line scans back as exactly the repaired citations, unless a repair drops a range end
      in front of text that looks like one. */
  lemma {:induction false} RescanIff(f: Repair, s: string)
    requires Lawful(f)
    ensures Scan(Render(Repaired(f, Scan(s)))) == Repaired(f, Scan(s)) <==> !Glues(f, Scan(s))
    decreases |s|
  {
    if s != "" {
      hide Take, Begins, Show, ValidMark, Fits, StartsRange;
      ScanRenders(s);
      if Begins(s) {
        TakeShows(s);
        var (m, rest) := Take(s);
        var p := Scan(rest);
        ScanRenders(rest);
        RescanIff(f, rest);
        FitsStays(f, m, p);
        RescanMark(Next(f, m), Repaired(f, p));
        assert Scan(s)[1..] == p;
      } else {
        var p := Scan(s[1..]);
        ScanRenders(s[1..]);
        RescanIff(f, s[1..]);
        assert s == [s[0]] + s[1..];
        PlainStays(f, s[0], p);
        RescanPlain(s[0], Repaired(f, p));
        assert Scan(s)[1..] == p;
      }
    }
  }

  lemma RescanMark(m: Mark, pieces: seq<Piece>)
    requires ValidMark(m)
    ensures Scan(Render([Cite(m)] + pieces)) == [Cite(m)] + pieces <==>
            Fits(m, Render(pieces)) && Scan(Render(pieces)) == pieces
  {
    hide Show, ValidMark, Fits, Take, Begins;
    var q := [Cite(m)] + pieces;
    var u := Render(q);
    assert q[1..] == pieces && u == Show(m) + Render(pieces);
    if Fits(m, Render(pieces)) {
      TakeOfShow(m, Render(pieces));
      assert Scan(u) == [Cite(m)] + Scan(Render(pieces));
    }
    if Scan(u) == q {
      assert Begins(u);
      TakeShows(u);
      ScanRenders(Take(u).1);
      assert Scan(u)[0] == Cite(Take(u).0) && Scan(u)[1..] == Scan(Take(u).1);
    }
  }

  lemma RescanPlain(c: char, pieces: seq<Piece>)
    requires !Begins([c] + Render(pieces))
    ensures Scan(Render([Plain(c)] + pieces)) == [Plain(c)] + pieces <==> Scan(Render(pieces)) == pieces
  {
    hide Begins;
    var q := [Plain(c)] + pieces;
    assert q[1..] == pieces && Render(q) == [c] + Render(pieces);
    assert ([c] + Render(pieces))[1..] == Render(pieces);
    assert Scan(Render(q)) == [Plain(c)] + Scan(Render(pieces));
    assert ([Plain(c)] + Scan(Render(pieces)))[1..] == Scan(Render(pieces));
  }

  /** The matches of a line. */
  function Marks(pieces: seq<Piece>): seq<Mark> {
    if pieces == [] then []
    else (if pieces[0].Cite? then [pieces[0].mark] else []) + Marks(pieces[1..])
  }

  /** A written mark is matched at its beginning, whatever follows it. */
  lemma ShowBegins(m: Mark, t: string)
    requires ValidMark(m)
    ensures Begins(Show(m) + t)
  {
    hide NameRun, Named, Tick;
    var x := Span(m) + (Tick(m.close) + t);
    assert IsDigit(m.lo[0]) && x[0] == m.lo[0];
    NamedLead(m, x);
    hide Span, ValidMark, Begins;
    Regroup(if m.open then "`" else "", m.name, ".md:", Span(m), Tick(m.close), t);
    TakeNamed(m.open, m.name + ".md:" + x);
  }

  /** A mark that does not fit in front of its text is read as another one. */
  lemma MisfitIsMisread(m: Mark, t: string)
    requires ValidMark(m) && !Fits(m, t)
    ensures Scan(Show(m) + t) != [] && Scan(Show(m) + t)[0].Cite? && Scan(Show(m) + t)[0].mark != m
  {
    hide Show, ValidMark, Fits, Begins, Take;
    var s := Show(m) + t;
    ShowBegins(m, t);
    TakeShows(s);
    var (m', t') := Take(s);
    assert s[|Show(m)|..] == t && s[|Show(m')|..] == t';
    assert s != "" by { if s == "" { NothingBegins(); } }
  }

  lemma NothingBegins()
    ensures !Begins("")
  {
  }

  lemma MarksFirst(piece: Piece, rest: seq<Piece>)
    ensures Marks([piece] + rest) == if piece.Cite? then [piece.mark] + Marks(rest) else Marks(rest)
  {
    assert ([piece] + rest)[1..] == rest && ([] + Marks(rest)) == Marks(rest);
  }

  lemma RemarkMark(m: Mark, pieces: seq<Piece>)
    requires ValidMark(m)
    ensures Marks(Scan(Render([Cite(m)] + pieces))) == Marks([Cite(m)] + pieces) <==>
            Fits(m, Render(pieces)) && Marks(Scan(Render(pieces))) == Marks(pieces)
  {
    var q, t := [Cite(m)] + pieces, Render(pieces);
    assert q[1..] == pieces && Render(q) == Show(m) + t;
    hide *;
    MarksFirst(Cite(m), pieces);
    if Fits(m, t) {
      FittingMark(m, t);
      assert ([m] + Marks(Scan(t)))[1..] == Marks(Scan(t)) && ([m] + Marks(pieces))[1..] == Marks(pieces);
    } else {
      MisfittingMark(m, t);
      assert ([m] + Marks(pieces))[0] == m;
    }
  }

  lemma FittingMark(m: Mark, t: string)
    requires ValidMark(m) && Fits(m, t)
    ensures Marks(Scan(Show(m) + t)) == [m] + Marks(Scan(t))
  {
    hide *;
    TakeOfShow(m, t);
    NothingBegins();
    ScanBegun(Show(m) + t);
    MarksFirst(Cite(m), Scan(t));
  }

  lemma MisfittingMark(m: Mark, t: string)
    requires ValidMark(m) && !Fits(m, t)
    ensures Marks(Scan(Show(m) + t)) != [] && Marks(Scan(Show(m) + t))[0] != m
  {
    hide *;
    MisfitIsMisread(m, t);
    var read := Scan(Show(m) + t);
    MarksFirst(read[0], read[1..]);
    assert read == [read[0]] + read[1..];
  }

  lemma ScanBegun(s: string)
    requires s != "" && Begins(s)
    ensures Scan(s) == [Cite(Take(s).0)] + Scan(Take(s).1)
  {
    hide Begins, Take;
  }

  lemma RemarkPlain(c: char, pieces: seq<Piece>)
    requires !Begins([c] + Render(pieces))
    ensures Marks(Scan(Render([Plain(c)] + pieces))) == Marks([Plain(c)] + pieces) <==>
            Marks(Scan(Render(pieces))) == Marks(pieces)
  {
    hide Begins, Marks;
    var q := [Plain(c)] + pieces;
    assert q[1..] == pieces && Render(q) == [c] + Render(pieces);
    assert ([c] + Render(pieces))[1..] == Render(pieces);
    assert Scan(Render(q)) == [Plain(c)] + Scan(Render(pieces));
    MarksFirst(Plain(c), pieces);
    MarksFirst(Plain(c), Scan(Render(pieces)));
  }

  /** Nor are the matches by themselves the repaired ones, once a repair has glued. */
  lemma {:induction false} RemarkIff(f: Repair, s: string)
    requires Lawful(f)
    ensures Marks(Scan(Render(Repaired(f, Scan(s))))) == Marks(Repaired(f, Scan(s))) <==> !Glues(f, Scan(s))
    decreases |s|
  {
    if s != "" {
      hide Take, Begins, Show, ValidMark, Fits, StartsRange, Marks;
      ScanRenders(s);
      if Begins(s) {
        TakeShows(s);
        var (m, rest) := Take(s);
        var p := Scan(rest);
        ScanRenders(rest);
        RemarkIff(f, rest);
        FitsStays(f, m, p);
        RemarkMark(Next(f, m), Repaired(f, p));
        assert Scan(s)[1..] == p;
      } else {
        var p := Scan(s[1..]);
        ScanRenders(s[1..]);
        RemarkIff(f, s[1..]);
        assert s == [s[0]] + s[1..];
        PlainStays(f, s[0], p);
        RemarkPlain(s[0], Repaired(f, p));
        assert Scan(s)[1..] == p;
      }
    }
  }

  // ---- the splice loop ----

  /** One entry of `repairs`: the row, counted from 0, the match's character span, and its new text. */
  datatype Edit = Edit(row: nat, from: nat, to: nat, text: string)

  function LineEdits(f: Repair, row: nat, pieces: seq<Piece>, at: nat): seq<Edit> {
    if pieces == [] then []
    else PieceEdits(f, row, pieces[0], at) + LineEdits(f, row, pieces[1..], at + |Shown(pieces[0])|)
  }

  function PieceEdits(f: Repair, row: nat, piece: Piece, at: nat): seq<Edit> {
    match piece
    case Plain(_) => []
    case Cite(m) => if f(m).Some? then [Edit(row, at, at + |Show(m)|, Show(f(m).value))] else []
  }

  function DocEdits(f: Repair, lines: seq<string>, row: nat): seq<Edit>
    decreases |lines| - row
  {
    if row >= |lines| then [] else LineEdits(f, row, Scan(lines[row]), 0) + DocEdits(f, lines, row + 1)
  }

  function RepairedLine(f: Repair, line: string): string {
    Render(Repaired(f, Scan(line)))
  }

  /** All repairs at once: every match is replaced, everything else stays. */
  function RepairedLines(f: Repair, lines: seq<string>): seq<string> {
    seq(|lines|, i requires 0 <= i < |lines| => RepairedLine(f, lines[i]))
  }

  /** `line[:from] + text + line[to:]`, with Python's slices. */
  function Splice(lines: seq<string>, e: Edit): seq<string> {
    if e.row >= |lines| then lines
    else
      var line := lines[e.row];
      lines[e.row := Front(line, e.from) + e.text + if e.to <= |line| then line[e.to..] else ""]
  }

  /** The edits one after the other, the last one first. */
  function Splices(lines: seq<string>, edits: seq<Edit>): seq<string> {
    if edits == [] then lines else Splice(Splices(lines, edits[1..]), edits[0])
  }

  /** The loop over `sorted(items, reverse=True)`, on the file's own list of lines. */
  method SpliceLoop(lines: array<string>, edits: seq<Edit>)
    requires Ascending(edits) && forall i | 0 <= i < |edits| :: edits[i].row < lines.Length
    modifies lines
    ensures lines[..] == Splices(old(lines[..]), edits)
  {
    for k := |edits| downto 0
      invariant lines[..] == Splices(old(lines[..]), edits[k..])
    {
      var e := edits[k];
      assert edits[k..][1..] == edits[k + 1..] && edits[k..][0] == e;
      var line := lines[e.row];
      lines[e.row] := Front(line, e.from) + e.text + if e.to <= |line| then line[e.to..] else "";
    }
    assert edits[0..] == edits;
  }

  /** In the order in which they were found: descending is back to front. */
  predicate Ascending(edits: seq<Edit>) {
    forall i, j | 0 <= i < j < |edits| :: Behind(edits[i], edits[j])
  }

  predicate Behind(a: Edit, b: Edit) {
    a.row < b.row || (a.row == b.row && a.to <= b.from)
  }

  lemma FirstEdit(f: Repair, row: nat, piece: Piece, at: nat)
    ensures var edits := PieceEdits(f, row, piece, at);
            && |edits| <= 1
            && (edits != [] ==>
                  edits[0].row == row && edits[0].from == at && edits[0].to == at + |Shown(piece)|)
  {
  }

  lemma AscendingConcat(a: seq<Edit>, b: seq<Edit>)
    requires Ascending(a) && Ascending(b) && forall x, y | x in a && y in b :: Behind(x, y)
    ensures Ascending(a + b)
  {
    hide Behind;
    var all := a + b;
    forall i, j | 0 <= i < j < |all| ensures Behind(all[i], all[j]) {
      if j < |a| {
        assert all[i] == a[i] && all[j] == a[j];
      } else if |a| <= i {
        assert all[i] == b[i - |a|] && all[j] == b[j - |a|];
      } else {
        assert all[i] in a && all[j] in b;
      }
    }
  }

  predicate AllFrom(edits: seq<Edit>, row: nat, at: nat) {
    forall e | e in edits :: e.row == row && at <= e.from
  }

  lemma FromConcat(a: seq<Edit>, b: seq<Edit>, row: nat, at: nat, to: nat)
    requires a != [] ==> a[0].row == row && a[0].from == at && a[0].to == to
    requires |a| <= 1 && at <= to && AllFrom(b, row, to) && Ascending(b)
    ensures AllFrom(a + b, row, at) && Ascending(a + b)
  {
    AtMostOne(a);
    AscendingConcat(a, b);
  }

  lemma NoLineEdits(f: Repair, row: nat, at: nat)
    ensures var edits := LineEdits(f, row, [], at); Ascending(edits) && AllFrom(edits, row, at)
  {
  }

  lemma {:induction false} LineEditsAscend(f: Repair, row: nat, pieces: seq<Piece>, at: nat)
    ensures Ascending(LineEdits(f, row, pieces, at)) && AllFrom(LineEdits(f, row, pieces, at), row, at)
    decreases |pieces|
  {
    hide Shown, PieceEdits, Ascending, AllFrom, LineEdits, Repaired, Render;
    if pieces == [] {
      NoLineEdits(f, row, at);
    } else {
      var to := at + |Shown(pieces[0])|;
      LineStep(f, row, pieces, at);
      FirstEdit(f, row, pieces[0], at);
      LineEditsAscend(f, row, pieces[1..], to);
      FromConcat(PieceEdits(f, row, pieces[0], at), LineEdits(f, row, pieces[1..], to), row, at, to);
    }
  }

  lemma AtMostOne(edits: seq<Edit>)
    requires |edits| <= 1
    ensures Ascending(edits)
  {
  }

  /** The loop's requirement holds of the edits of any document. */
  lemma {:induction false} DocEditsAscend(f: Repair, lines: seq<string>, row: nat)
    requires row <= |lines|
    ensures Ascending(DocEdits(f, lines, row))
    ensures forall e | e in DocEdits(f, lines, row) :: row <= e.row < |lines|
    decreases |lines| - row
  {
    if row < |lines| {
      hide LineEdits, Scan, Ascending;
      LineEditsAscend(f, row, Scan(lines[row]), 0);
      DocEditsAscend(f, lines, row + 1);
      AscendingConcat(LineEdits(f, row, Scan(lines[row]), 0), DocEdits(f, lines, row + 1));
    } else {
      AtMostOne([]);
    }
  }

  lemma {:induction false} SplicesConcat(lines: seq<string>, a: seq<Edit>, b: seq<Edit>)
    ensures Splices(lines, a + b) == Splices(Splices(lines, b), a)
  {
    if a == [] {
      assert a + b == b;
    } else {
      hide Splice;
      assert (a + b)[1..] == a[1..] + b && (a + b)[0] == a[0];
      SplicesConcat(lines, a[1..], b);
    }
  }

  lemma Associative(a: string, b: string, c: string)
    ensures (a + b) + c == a + (b + c)
  {
  }

  lemma LineStep(f: Repair, row: nat, pieces: seq<Piece>, at: nat)
    requires pieces != []
    ensures LineEdits(f, row, pieces, at) ==
            PieceEdits(f, row, pieces[0], at) + LineEdits(f, row, pieces[1..], at + |Shown(pieces[0])|)
    ensures Render(pieces) == Shown(pieces[0]) + Render(pieces[1..])
    ensures Render(Repaired(f, pieces)) == Shown(Fixed(f, pieces[0])) + Render(Repaired(f, pieces[1..]))
  {
    hide Shown, PieceEdits;
    assert Repaired(f, pieces)[1..] == Repaired(f, pieces[1..]);
  }

  function Put(lines: seq<string>, row: nat, line: string): seq<string> {
    if row < |lines| then lines[row := line] else lines
  }

  lemma {:induction false} SpliceLine(f: Repair, lines: seq<string>, row: nat, before: string, pieces: seq<Piece>)
    requires row < |lines| && lines[row] == before + Render(pieces)
    ensures Splices(lines, LineEdits(f, row, pieces, |before|))
         == Put(lines, row, before + Render(Repaired(f, pieces)))
    decreases |pieces|
  {
    hide Shown, PieceEdits, Splices, LineEdits, Render, Repaired, Put;
    if pieces == [] {
      SpliceNothing(f, lines, row, before);
    } else {
      var shown := Shown(pieces[0]);
      var edits := LineEdits(f, row, pieces[1..], |before| + |shown|);
      LineGrows(f, before, pieces);
      SpliceLine(f, lines, row, before + shown, pieces[1..]);
      SplicePiece(f, lines, row, before, pieces[0], Render(Repaired(f, pieces[1..])));
      LineStep(f, row, pieces, |before|);
      SplicesConcat(lines, PieceEdits(f, row, pieces[0], |before|), edits);
    }
  }

  lemma SpliceNothing(f: Repair, lines: seq<string>, row: nat, before: string)
    requires row < |lines| && lines[row] == before + Render([])
    ensures Splices(lines, LineEdits(f, row, [], |before|)) == Put(lines, row, before + Render(Repaired(f, [])))
  {
    assert before + "" == before && lines[row := before] == lines;
  }

  lemma LineGrows(f: Repair, before: string, pieces: seq<Piece>)
    requires pieces != []
    ensures before + Render(pieces) == (before + Shown(pieces[0])) + Render(pieces[1..])
    ensures before + Render(Repaired(f, pieces))
         == (before + Shown(Fixed(f, pieces[0]))) + Render(Repaired(f, pieces[1..]))
  {
    hide Shown, Render, Repaired;
    LineStep(f, 0, pieces, 0);
    Associative(before, Shown(pieces[0]), Render(pieces[1..]));
    Associative(before, Shown(Fixed(f, pieces[0])), Render(Repaired(f, pieces[1..])));
  }

  lemma SplicePiece(f: Repair, lines: seq<string>, row: nat, before: string, piece: Piece, rest: string)
    requires row < |lines|
    ensures Splices(Put(lines, row, before + Shown(piece) + rest), PieceEdits(f, row, piece, |before|))
         == Put(lines, row, before + Shown(Fixed(f, piece)) + rest)
  {
    var edits := PieceEdits(f, row, piece, |before|);
    if edits != [] {
      hide Splice, Show;
      assert edits[1..] == [];
      SpliceOne(lines, row, before, Shown(piece), rest, edits[0]);
    }
  }

  lemma SpliceOne(lines: seq<string>, row: nat, before: string, shown: string, rest: string, e: Edit)
    requires row < |lines| && e.row == row && e.from == |before| && e.to == |before| + |shown|
    ensures Splice(Put(lines, row, before + shown + rest), e) == Put(lines, row, before + e.text + rest)
  {
    var line := before + shown + rest;
    assert line[..e.from] == before && line[e.to..] == rest;
  }

  lemma NextRow(lines: seq<string>, all: seq<string>, row: nat)
    requires row < |lines| == |all|
    ensures var after := lines[..row + 1] + all[row + 1..];
            |after| == |lines| && after[row] == lines[row] && after[row := all[row]] == lines[..row] + all[row..]
  {
  }

  /** The loop equals replacing all matches at once: line count and all other text stay. */
  lemma {:induction false} SplicesAreSimultaneous(f: Repair, lines: seq<string>, row: nat)
    requires row <= |lines|
    ensures Splices(lines, DocEdits(f, lines, row)) == lines[..row] + RepairedLines(f, lines)[row..]
    decreases |lines| - row
  {
    if row < |lines| {
      hide Splices, LineEdits, Scan, Render, Repaired;
      var here, later := LineEdits(f, row, Scan(lines[row]), 0), DocEdits(f, lines, row + 1);
      SplicesAreSimultaneous(f, lines, row + 1);
      SplicesConcat(lines, here, later);
      NextRow(lines, RepairedLines(f, lines), row);
      ScanRenders(lines[row]);
      EmptyFront(lines[row]);
      EmptyFront(RepairedLine(f, lines[row]));
      SpliceLine(f, lines[..row + 1] + RepairedLines(f, lines)[row + 1..], row, "", Scan(lines[row]));
    } else {
      assert lines[..row] == lines;
    }
  }

  lemma EmptyFront(s: string)
    ensures "" + s == s
  {
  }
}
