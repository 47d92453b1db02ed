/** `Authentication-Results` in `src/gmail_mcp/unsubscribe.py`: the one-pass scanner that drops comments and
    quoted strings, against their recursive grammar (sections 3.2.2 and 3.2.4 of RFC 5322), and the reading
    of the first verdict that carries Gmail's identifier (section 2.2 of RFC 8601). */
module AuthResults {
  import opened Wrappers
  import opened Characters

  // ---- the grammar ----

  /** A quoted or escaped character. */
  datatype Atom = Bare(c: char) | Escaped(c: char)

  /** What a comment holds; comments nest. */
  datatype Item = Text(atom: Atom) | Nested(items: seq<Item>)

  datatype Element = Plain(c: char) | Quoted(atoms: seq<Atom>) | Comment(content: seq<Item>)

  predicate ValidAtom(a: Atom, stops: set<char>) {
    a.Bare? ==> a.c !in stops && a.c != '\\'
  }

  predicate ValidItems(items: seq<Item>) {
    forall i | 0 <= i < |items| ::
      match items[i]
      case Text(a) => ValidAtom(a, {'(', ')'})
      case Nested(inner) => ValidItems(inner)
  }

  predicate ValidElement(e: Element) {
    match e
    case Plain(c) => c != '(' && c != '"'
    case Quoted(atoms) => forall i | 0 <= i < |atoms| :: ValidAtom(atoms[i], {'"'})
    case Comment(items) => ValidItems(items)
  }

  predicate ValidElements(elements: seq<Element>) {
    forall i | 0 <= i < |elements| :: ValidElement(elements[i])
  }

  function ShowAtom(a: Atom): string {
    if a.Bare? then [a.c] else ['\\', a.c]
  }

  function ShowAtoms(atoms: seq<Atom>): string {
    if atoms == [] then "" else ShowAtoms(atoms[..|atoms| - 1]) + ShowAtom(atoms[|atoms| - 1])
  }

  function ShowItem(item: Item): string
    decreases item, 1
  {
    match item
    case Text(a) => ShowAtom(a)
    case Nested(items) => "(" + ShowItems(items) + ")"
  }

  function ShowItems(items: seq<Item>): string
    decreases items, 0
  {
    if items == [] then "" else ShowItems(items[..|items| - 1]) + ShowItem(items[|items| - 1])
  }

  function ShowElement(e: Element): string {
    match e
    case Plain(c) => [c]
    case Quoted(atoms) => "\"" + ShowAtoms(atoms) + "\""
    case Comment(items) => "(" + ShowItems(items) + ")"
  }

  function ShowAll(elements: seq<Element>): string {
    if elements == [] then "" else ShowAll(elements[..|elements| - 1]) + ShowElement(elements[|elements| - 1])
  }

  /** What is left of a value: each comment and each quoted string leaves one space. */
  function Kept(elements: seq<Element>): string {
    if elements == [] then ""
    else
      var last := elements[|elements| - 1];
      Kept(elements[..|elements| - 1]) + [if last.Plain? then last.c else ' ']
  }

  // ---- the scanner ----

  /** The variables of `_results`. */
  datatype Scanner = Scanner(cleaned: string, depth: nat, quoted: bool, escaped: bool)

  function Step(s: Scanner, c: char): Scanner {
    if s.escaped then s.(escaped := false)
    else if c == '\\' && (s.quoted || s.depth > 0) then s.(escaped := true)
    else if s.quoted then
      if c == '"' then s.(quoted := false, cleaned := s.cleaned + " ") else s
    else if s.depth > 0 then
      if c == '(' then s.(depth := s.depth + 1)
      else if c == ')' then
        s.(depth := s.depth - 1, cleaned := if s.depth == 1 then s.cleaned + " " else s.cleaned)
      else s
    else if c == '(' then s.(depth := 1)
    else if c == '"' then s.(quoted := true)
    else s.(cleaned := s.cleaned + [c])
  }

  function Scan(s: Scanner, text: string): Scanner {
    if text == "" then s else Step(Scan(s, text[..|text| - 1]), text[|text| - 1])
  }

  const START := Scanner("", 0, false, false)

  lemma {:induction false} ScanConcat(s: Scanner, a: string, b: string)
    ensures Scan(s, a + b) == Scan(Scan(s, a), b)
  {
    hide Step;
    if b == "" {
      assert a + b == a;
    } else {
      assert (a + b)[..|a + b| - 1] == a + b[..|b| - 1];
      ScanConcat(s, a, b[..|b| - 1]);
    }
  }

  lemma ScanOne(s: Scanner, c: char)
    ensures Scan(s, [c]) == Step(s, c)
  {
    assert [c][..0] == "";
  }

  lemma ScanThree(s: Scanner, a: char, b: string, c: char)
    ensures Scan(s, [a] + b + [c]) == Step(Scan(Step(s, a), b), c)
  {
    hide Step;
    ScanConcat(s, [a] + b, [c]);
    ScanConcat(s, [a], b);
    ScanOne(s, a);
    ScanOne(Scan(Step(s, a), b), c);
  }

  /** Inside a comment or a quoted string, an atom changes nothing. */
  lemma AtomInside(s: Scanner, a: Atom)
    requires !s.escaped && (s.quoted || s.depth > 0)
    requires ValidAtom(a, if s.quoted then {'"'} else {'(', ')'})
    ensures Scan(s, ShowAtom(a)) == s
  {
    if a.Bare? {
      ScanOne(s, a.c);
    } else {
      assert ['\\', a.c] == ['\\'] + [a.c];
      ScanConcat(s, ['\\'], [a.c]);
      ScanOne(s, '\\');
      ScanOne(Step(s, '\\'), a.c);
    }
  }

  lemma {:induction false} AtomsInside(s: Scanner, atoms: seq<Atom>)
    requires !s.escaped && s.quoted && forall i | 0 <= i < |atoms| :: ValidAtom(atoms[i], {'"'})
    ensures Scan(s, ShowAtoms(atoms)) == s
  {
    hide Step, ValidAtom, ShowAtom;
    if atoms != [] {
      var n := |atoms| - 1;
      AtomsInside(s, atoms[..n]);
      ScanConcat(s, ShowAtoms(atoms[..n]), ShowAtom(atoms[n]));
      AtomInside(s, atoms[n]);
    }
  }

  /** Inside a comment, whatever a comment may hold changes nothing, however deep it nests. */
  lemma {:induction false} ItemsInside(s: Scanner, items: seq<Item>)
    requires !s.escaped && !s.quoted && s.depth > 0 && ValidItems(items)
    ensures Scan(s, ShowItems(items)) == s
    decreases items
  {
    if items != [] {
      var n := |items| - 1;
      var last := items[n];
      ItemsInside(s, items[..n]);
      ScanConcat(s, ShowItems(items[..n]), ShowItem(last));
      match last
      case Text(a) => AtomInside(s, a);
      case Nested(inner) =>
        var deeper := s.(depth := s.depth + 1);
        ScanThree(s, '(', ShowItems(inner), ')');
        ItemsInside(deeper, inner);
    }
  }

  /** At the top level, an element leaves its trace and nothing else. */
  lemma ElementAtTop(s: Scanner, e: Element)
    requires !s.escaped && !s.quoted && s.depth == 0 && ValidElement(e)
    ensures Scan(s, ShowElement(e)) == s.(cleaned := s.cleaned + [if e.Plain? then e.c else ' '])
  {
    match e
    case Plain(c) => ScanOne(s, c);
    case Quoted(atoms) =>
      ScanThree(s, '"', ShowAtoms(atoms), '"');
      AtomsInside(s.(quoted := true), atoms);
    case Comment(items) =>
      ScanThree(s, '(', ShowItems(items), ')');
      ItemsInside(s.(depth := 1), items);
  }

  /** The scanner refines the grammar: on the text of any elements it keeps exactly what they keep. */
  lemma {:induction false} ScansGrammar(elements: seq<Element>)
    requires ValidElements(elements)
    ensures Scan(START, ShowAll(elements)) == START.(cleaned := Kept(elements))
  {
    hide Step, ValidElement, ShowElement;
    if elements != [] {
      var n := |elements| - 1;
      ScansGrammar(elements[..n]);
      ScanConcat(START, ShowAll(elements[..n]), ShowElement(elements[n]));
      ElementAtTop(START.(cleaned := Kept(elements[..n])), elements[n]);
    }
  }

  // ---- every text has a reading ----

  /** What is open at some point of a text: nothing, a quoted string, or a stack of comments, each with
      what it holds so far; and whether a backslash has just been read. */
  datatype Open = AtTop | InQuote(atoms: seq<Atom>, esc: bool) | InComment(stack: seq<seq<Item>>, esc: bool)

  datatype Reading = Reading(elements: seq<Element>, open: Open)

  ghost predicate ValidReading(r: Reading) {
    && ValidElements(r.elements)
    && match r.open
       case AtTop => true
       case InQuote(atoms, _) => forall i | 0 <= i < |atoms| :: ValidAtom(atoms[i], {'"'})
       case InComment(stack, _) => stack != [] && forall i | 0 <= i < |stack| :: ValidItems(stack[i])
  }

  function ShowStack(stack: seq<seq<Item>>): string {
    if stack == [] then "" else ShowStack(stack[..|stack| - 1]) + ("(" + ShowItems(stack[|stack| - 1]))
  }

  function ShowOpen(o: Open): string {
    match o
    case AtTop => ""
    case InQuote(atoms, esc) => "\"" + ShowAtoms(atoms) + Backslash(esc)
    case InComment(stack, esc) => ShowStack(stack) + Backslash(esc)
  }

  function Backslash(esc: bool): string {
    if esc then "\\" else ""
  }

  /** One more character, read structurally. */
  function Read(r: Reading, c: char): Reading {
    match r.open
    case AtTop =>
      if c == '(' then r.(open := InComment([[]], false))
      else if c == '"' then r.(open := InQuote([], false))
      else r.(elements := r.elements + [Plain(c)])
    case InQuote(atoms, esc) =>
      if esc then r.(open := InQuote(atoms + [Escaped(c)], false))
      else if c == '\\' then r.(open := InQuote(atoms, true))
      else if c == '"' then Reading(r.elements + [Quoted(atoms)], AtTop)
      else r.(open := InQuote(atoms + [Bare(c)], false))
    case InComment(stack, esc) =>
      if stack == [] then r
      else
        var n := |stack| - 1;
        if esc then r.(open := InComment(stack[..n] + [stack[n] + [Text(Escaped(c))]], false))
        else if c == '\\' then r.(open := InComment(stack, true))
        else if c == '(' then r.(open := InComment(stack + [[]], false))
        else if c != ')' then r.(open := InComment(stack[..n] + [stack[n] + [Text(Bare(c))]], false))
        else if n == 0 then Reading(r.elements + [Comment(stack[0])], AtTop)
        else r.(open := InComment(stack[..n - 1] + [stack[n - 1] + [Nested(stack[n])]], false))
  }

  function ReadAll(text: string): Reading {
    if text == "" then Reading([], AtTop) else Read(ReadAll(text[..|text| - 1]), text[|text| - 1])
  }

  /** The scanner's variables, as a reading determines them. */
  function Reflect(r: Reading): Scanner {
    Scanner(Kept(r.elements),
            if r.open.InComment? then |r.open.stack| else 0,
            r.open.InQuote?,
            if r.open.AtTop? then false else r.open.esc)
  }

  lemma KeptBehind(elements: seq<Element>, e: Element)
    ensures Kept(elements + [e]) == Kept(elements) + [if e.Plain? then e.c else ' ']
    ensures ShowAll(elements + [e]) == ShowAll(elements) + ShowElement(e)
  {
    hide ShowElement;
    assert (elements + [e])[..|elements|] == elements;
  }

  lemma QuoteIsStep(r: Reading, c: char)
    requires r.open.InQuote?
    ensures Reflect(Read(r, c)) == Step(Reflect(r), c)
  {
    KeptBehind(r.elements, Quoted(r.open.atoms));
    hide Kept;
  }

  lemma CommentIsStep(r: Reading, c: char)
    requires r.open.InComment? && r.open.stack != []
    ensures Reflect(Read(r, c)) == Step(Reflect(r), c)
  {
    if c == ')' && !r.open.esc && |r.open.stack| == 1 {
      KeptBehind(r.elements, Comment(r.open.stack[0]));
    } else {
      hide Kept;
      assert Read(r, c).elements == r.elements && Read(r, c).open.InComment?;
    }
  }

  /** Reading structurally and scanning step alike. */
  lemma ReadIsStep(r: Reading, c: char)
    requires r.open.InComment? ==> r.open.stack != []
    ensures Reflect(Read(r, c)) == Step(Reflect(r), c)
  {
    match r.open
    case AtTop => KeptBehind(r.elements, Plain(c));
    case InQuote(_, _) => QuoteIsStep(r, c);
    case InComment(_, _) => CommentIsStep(r, c);
  }

  lemma ValidBehind(elements: seq<Element>, e: Element)
    requires ValidElements(elements) && ValidElement(e)
    ensures ValidElements(elements + [e])
  {
  }

  lemma ItemsBehind(items: seq<Item>, item: Item)
    requires ValidItems(items) && ValidItems([item])
    ensures ValidItems(items + [item]) && ShowItems(items + [item]) == ShowItems(items) + ShowItem(item)
  {
    assert (items + [item])[..|items|] == items;
    assert [item][0] == item;
    forall i | 0 <= i < |items + [item]|
      ensures match (items + [item])[i]
              case Text(a) => ValidAtom(a, {'(', ')'})
              case Nested(inner) => ValidItems(inner) {
      if i < |items| { assert (items + [item])[i] == items[i]; }
    }
  }

  /** The innermost open comment takes one more item. */
  lemma StackTakes(stack: seq<seq<Item>>, item: Item)
    requires ValidStack(stack) && ValidItems([item])
    ensures var n := |stack| - 1;
            var stack' := stack[..n] + [stack[n] + [item]];
            ValidStack(stack') && ShowStack(stack') == ShowStack(stack) + ShowItem(item)
  {
    hide ValidItems, ShowItems, ShowItem;
    var n := |stack| - 1;
    var stack' := stack[..n] + [stack[n] + [item]];
    ItemsBehind(stack[n], item);
    assert stack'[..n] == stack[..n];
    assert ShowStack(stack[..n]) + ("(" + (ShowItems(stack[n]) + ShowItem(item)))
        == ShowStack(stack[..n]) + ("(" + ShowItems(stack[n])) + ShowItem(item);
  }

  ghost predicate ValidStack(stack: seq<seq<Item>>) {
    stack != [] && forall i | 0 <= i < |stack| :: ValidItems(stack[i])
  }

  /** A comment inside a comment opens, and closes. */
  lemma StackOpens(stack: seq<seq<Item>>)
    requires ValidStack(stack)
    ensures ValidStack(stack + [[]]) && ShowStack(stack + [[]]) == ShowStack(stack) + "("
  {
    hide ValidItems;
    NoItems();
    assert (stack + [[]])[..|stack|] == stack;
    assert "(" + "" == "(";
  }

  lemma NoItems()
    ensures ValidItems([]) && ShowItems([]) == ""
  {
  }

  lemma TopOfStack(stack: seq<seq<Item>>)
    requires stack != []
    ensures ShowStack(stack) == ShowStack(stack[..|stack| - 1]) + ("(" + ShowItems(stack[|stack| - 1]))
  {
    hide ShowItems;
  }

  lemma NestedItem(items: seq<Item>)
    requires ValidItems(items)
    ensures ValidItems([Nested(items)]) && ShowItem(Nested(items)) == "(" + ShowItems(items) + ")"
  {
    hide ShowItems;
  }

  lemma StackCloses(stack: seq<seq<Item>>)
    requires ValidStack(stack) && |stack| > 1
    ensures var n := |stack| - 1;
            var stack' := stack[..n - 1] + [stack[n - 1] + [Nested(stack[n])]];
            ValidStack(stack') && ShowStack(stack') == ShowStack(stack) + ")"
  {
    hide ValidItems, ShowItem, ShowItems, ShowStack;
    var n := |stack| - 1;
    var outer := stack[..n];
    NestedItem(stack[n]);
    StackTakes(outer, Nested(stack[n]));
    assert outer[..n - 1] == stack[..n - 1] && outer[n - 1] == stack[n - 1];
    TopOfStack(stack);
    Behind(ShowStack(outer), "(" + ShowItems(stack[n]), ")");
  }

  function ShowReading(r: Reading): string {
    ShowAll(r.elements) + ShowOpen(r.open)
  }

  lemma Behind(a: string, b: string, c: string)
    ensures a + (b + c) == a + b + c
  {
  }

  /** The five ways in which one character more lengthens the text of an open comment. */
  lemma InsideComment(before: string, x: string, c: char)
    ensures before + (x + ['\\', c] + "") == before + (x + "\\") + [c]
    ensures before + (x + "\\") == before + (x + "") + "\\"
    ensures before + (x + [c] + "") == before + (x + "") + [c]
  {
  }

  lemma ReadsEscaped(r: Reading, c: char)
    requires ValidReading(r) && r.open.InComment? && r.open.esc
    ensures ValidReading(Read(r, c)) && ShowReading(Read(r, c)) == ShowReading(r) + [c]
  {
    hide ValidItems, ShowStack, ShowAll, ValidElements, ShowItem;
    OneText(Escaped(c));
    assert ValidStack(r.open.stack);
    StackTakes(r.open.stack, Text(Escaped(c)));
    InsideComment(ShowAll(r.elements), ShowStack(r.open.stack), c);
  }

  lemma ReadsBare(r: Reading, c: char)
    requires ValidReading(r) && r.open.InComment? && !r.open.esc && c != '\\' && c != '(' && c != ')'
    ensures ValidReading(Read(r, c)) && ShowReading(Read(r, c)) == ShowReading(r) + [c]
  {
    hide ValidItems, ShowStack, ShowAll, ValidElements, ShowItem;
    OneText(Bare(c));
    assert ValidStack(r.open.stack);
    StackTakes(r.open.stack, Text(Bare(c)));
    InsideComment(ShowAll(r.elements), ShowStack(r.open.stack), c);
  }

  lemma ReadsParenthesis(r: Reading, c: char)
    requires ValidReading(r) && r.open.InComment? && !r.open.esc && (c == '(' || (c == ')' && |r.open.stack| > 1))
    ensures ValidReading(Read(r, c)) && ShowReading(Read(r, c)) == ShowReading(r) + [c]
  {
    hide ValidItems, ShowStack, ShowAll, ValidElements;
    assert ValidStack(r.open.stack);
    if c == '(' { StackOpens(r.open.stack); } else { StackCloses(r.open.stack); }
    InsideComment(ShowAll(r.elements), ShowStack(r.open.stack), c);
  }

  /** Reading a comment further. */
  lemma ReadsComment(r: Reading, c: char)
    requires ValidReading(r) && r.open.InComment?
    ensures ValidReading(Read(r, c)) && ShowReading(Read(r, c)) == ShowReading(r) + [c]
  {
    hide ValidItems, ShowStack, ShowAll, ValidElements;
    if r.open.esc {
      ReadsEscaped(r, c);
    } else if c == '\\' {
      InsideComment(ShowAll(r.elements), ShowStack(r.open.stack), c);
    } else if c != '(' && c != ')' {
      ReadsBare(r, c);
    } else if c == '(' || |r.open.stack| > 1 {
      ReadsParenthesis(r, c);
    } else {
      ClosesLast(r);
    }
  }

  lemma OneText(a: Atom)
    requires ValidAtom(a, {'(', ')'})
    ensures ValidItems([Text(a)]) && ShowItem(Text(a)) == ShowAtom(a)
  {
  }

  lemma ClosesLast(r: Reading)
    requires ValidReading(r) && r.open.InComment? && |r.open.stack| == 1 && !r.open.esc
    ensures var r' := Reading(r.elements + [Comment(r.open.stack[0])], AtTop);
            ValidReading(r') && ShowReading(r') == ShowReading(r) + ")"
  {
    var e := Comment(r.open.stack[0]);
    assert ValidElement(e);
    ValidBehind(r.elements, e);
    KeptBehind(r.elements, e);
    hide ShowItems, ValidItems;
    assert r.open.stack[..0] == [];
    assert ShowStack(r.open.stack) == "" + ("(" + ShowItems(r.open.stack[0]));
    hide ShowAll, ShowStack;
    Wrap(ShowAll(r.elements), "(", ShowItems(r.open.stack[0]), ")");
  }

  lemma Wrap(a: string, open: string, x: string, close: string)
    ensures a + (open + x + close) + "" == a + ("" + (open + x) + "") + close
    ensures a + (open + x + close) + "" == a + (open + x + "") + close
  {
  }

  lemma AtomsBehind(atoms: seq<Atom>, a: Atom)
    ensures ShowAtoms(atoms + [a]) == ShowAtoms(atoms) + ShowAtom(a)
  {
    hide ShowAtom;
    assert (atoms + [a])[..|atoms|] == atoms;
  }

  /** Reading a quoted string further. */
  lemma ReadsQuote(r: Reading, c: char)
    requires ValidReading(r) && r.open.InQuote?
    ensures ValidReading(Read(r, c)) && ShowReading(Read(r, c)) == ShowReading(r) + [c]
  {
    var atoms, esc, before := r.open.atoms, r.open.esc, ShowAll(r.elements);
    if c == '"' && !esc {
      ValidBehind(r.elements, Quoted(atoms));
      KeptBehind(r.elements, Quoted(atoms));
      hide ShowAll, ShowAtoms;
      Wrap(before, "\"", ShowAtoms(atoms), "\"");
    } else {
      hide ShowAll, ShowAtoms;
      AtomsBehind(atoms, if esc then Escaped(c) else Bare(c));
      InsideQuote(before, ShowAtoms(atoms), c);
    }
  }

  lemma InsideQuote(before: string, x: string, c: char)
    ensures before + ("\"" + (x + ['\\', c]) + "") == before + ("\"" + x + "\\") + [c]
    ensures before + ("\"" + x + "\\") == before + ("\"" + x + "") + "\\"
    ensures before + ("\"" + (x + [c]) + "") == before + ("\"" + x + "") + [c]
  {
  }

  lemma ReadsTop(r: Reading, c: char)
    requires ValidReading(r) && r.open.AtTop?
    ensures ValidReading(Read(r, c)) && ShowReading(Read(r, c)) == ShowReading(r) + [c]
  {
    if c == '(' {
      NoItems();
      var stack: seq<seq<Item>> := [[]];
      assert stack[..0] == [];
      assert ShowStack(stack) == "" + ("(" + "");
      assert ShowAll(r.elements) + ("" + ("(" + "") + "") == ShowAll(r.elements) + "" + [c];
    } else if c == '"' {
      assert ShowAll(r.elements) + ("\"" + "" + "") == ShowAll(r.elements) + "" + [c];
    } else {
      ValidBehind(r.elements, Plain(c));
      KeptBehind(r.elements, Plain(c));
      assert ShowAll(r.elements) + [c] + "" == ShowAll(r.elements) + "" + [c];
    }
  }

  /** Every text has a reading: closed elements, then at most one quoted string or nest of comments that is
      still open; and the scanner's variables are that reading's. */
  lemma {:induction false} EveryTextReads(text: string)
    ensures ValidReading(ReadAll(text)) && ShowReading(ReadAll(text)) == text
    ensures Scan(START, text) == Reflect(ReadAll(text))
  {
    hide Read, Step, ValidReading, ShowReading, Reflect;
    if text == "" {
      NothingRead();
    } else {
      var n := |text| - 1;
      var before := ReadAll(text[..n]);
      EveryTextReads(text[..n]);
      ReadsOne(before, text[n]);
      assert text == text[..n] + [text[n]];
    }
  }

  lemma NothingRead()
    ensures var r := Reading([], AtTop); ValidReading(r) && ShowReading(r) == "" && Reflect(r) == START
  {
  }

  lemma ReadsOne(r: Reading, c: char)
    requires ValidReading(r)
    ensures ValidReading(Read(r, c)) && ShowReading(Read(r, c)) == ShowReading(r) + [c]
    ensures Reflect(Read(r, c)) == Step(Reflect(r), c)
  {
    ReadIsStep(r, c);
    hide Read, Reflect, Step, ShowReading;
    match r.open
    case AtTop => ReadsTop(r, c);
    case InQuote(_, _) => ReadsQuote(r, c);
    case InComment(_, _) => ReadsComment(r, c);
  }

  // ---- the result list ----

  /** `unfold`: CRLF, CR and LF become one space. */
  function Unfold(value: string): string {
    if value == "" then ""
    else if |value| > 1 && value[0] == '\r' && value[1] == '\n' then " " + Unfold(value[2..])
    else (if value[0] == '\r' || value[0] == '\n' then " " else [value[0]]) + Unfold(value[1..])
  }

  /** `text.split(";")` */
  function Split(text: string): (parts: seq<string>)
    ensures parts != []
  {
    if text == "" then [""]
    else
      var before, c := Split(text[..|text| - 1]), text[|text| - 1];
      if c == ';' then before + [""] else before[..|before| - 1] + [before[|before| - 1] + [c]]
  }

  function Results(value: string): (parts: seq<string>)
    ensures parts != []
  {
    Split(Scan(START, Unfold(value)).cleaned)
  }

  /** `_results` */
  method ScanResults(value: string) returns (parts: seq<string>)
    ensures parts == Results(value)
  {
    hide Step;
    var text := Unfold(value);
    var s := START;
    for i := 0 to |text|
      invariant s == Scan(START, text[..i])
    {
      assert text[..i + 1][..i] == text[..i];
      s := Step(s, text[i]);
    }
    assert text[..|text|] == text;
    parts := Split(s.cleaned);
  }

  /** What a sender puts into a comment or a quoted string does not reach the result list: whatever stands
      before it and after it, any two closed ones leave the same results. */
  lemma HiddenTextIsDropped(before: seq<Element>, a: Element, b: Element, rest: string)
    requires ValidElements(before) && ValidElement(a) && ValidElement(b) && !a.Plain? && !b.Plain?
    ensures Split(Scan(START, ShowAll(before) + ShowElement(a) + rest).cleaned)
         == Split(Scan(START, ShowAll(before) + ShowElement(b) + rest).cleaned)
  {
    hide Step, Split, ShowElement, ValidElement;
    forall e | ValidElement(e) && !e.Plain?
      ensures Scan(START, ShowAll(before) + ShowElement(e) + rest)
           == Scan(START.(cleaned := Kept(before) + " "), rest) {
      ScansGrammar(before);
      ScanConcat(START, ShowAll(before) + ShowElement(e), rest);
      ScanConcat(START, ShowAll(before), ShowElement(e));
      ElementAtTop(START.(cleaned := Kept(before)), e);
    }
  }

  /** A semicolon inside a comment or a quoted string never separates results: there are as many results as
      semicolons at the top level, and one more. */
  lemma {:induction false} ResultCount(text: string)
    ensures |Split(text)| == Count(text, ';') + 1
  {
    if text != "" {
      ResultCount(text[..|text| - 1]);
    }
  }

  function Count(text: string, c: char): nat {
    if text == "" then 0 else Count(text[..|text| - 1], c) + if text[|text| - 1] == c then 1 else 0
  }

  function TopSeparators(elements: seq<Element>): nat {
    if elements == [] then 0
    else TopSeparators(elements[..|elements| - 1]) + if elements[|elements| - 1] == Plain(';') then 1 else 0
  }

  lemma {:induction false} SeparatorsAreTop(elements: seq<Element>)
    requires ValidElements(elements)
    ensures |Split(Scan(START, ShowAll(elements)).cleaned)| == TopSeparators(elements) + 1
  {
    ScansGrammar(elements);
    ResultCount(Kept(elements));
    KeptSeparators(elements);
  }

  lemma {:induction false} KeptSeparators(elements: seq<Element>)
    ensures Count(Kept(elements), ';') == TopSeparators(elements)
  {
    if elements != [] {
      var n := |elements| - 1;
      KeptSeparators(elements[..n]);
      assert Kept(elements)[..|Kept(elements)| - 1] == Kept(elements[..n]);
    }
  }

  // ---- Gmail's own verdict ----

  /** Case folding and the two patterns: whether a part names Gmail, the identities a passing DKIM result
      names, and the word of a DMARC result. */
  datatype Patterns = Patterns(isGmail: string -> bool, dkim: string -> set<string>, dmarc: string -> Option<string>)

  function Domains(p: Patterns, results: seq<string>): set<string> {
    if results == [] then {} else Domains(p, results[..|results| - 1]) + p.dkim(results[|results| - 1])
  }

  predicate IsGmail(p: Patterns, value: string) {
    p.isGmail(Results(value)[0])
  }

  function PassingDomains(p: Patterns, values: seq<string>): set<string> {
    if values == [] then {}
    else if IsGmail(p, values[0]) then Domains(p, Results(values[0])[1..])
    else PassingDomains(p, values[1..])
  }

  /** `_passing_domains` */
  method PassingDomainsLoop(p: Patterns, values: seq<string>) returns (domains: set<string>)
    ensures domains == PassingDomains(p, values)
  {
    hide Results, Scan;
    for i := 0 to |values|
      invariant PassingDomains(p, values) == PassingDomains(p, values[i..])
    {
      assert values[i..][0] == values[i] && values[i..][1..] == values[i + 1..];
      var results := ScanResults(values[i]);
      if !p.isGmail(results[0]) {
        continue;
      }
      domains := {};
      for k := 1 to |results|
        invariant domains == Domains(p, results[1..k])
      {
        assert results[1..k + 1][..k - 1] == results[1..k];
        domains := domains + p.dkim(results[k]);
      }
      assert results[1..|results|] == results[1..];
      return;
    }
    domains := {};
  }

  datatype Check = Pass | Fail | NoVerdict

  function FirstVerdict(p: Patterns, results: seq<string>): Check {
    if results == [] then NoVerdict
    else match p.dmarc(results[0])
      case None => FirstVerdict(p, results[1..])
      case Some(word) => if word == "pass" then Pass else if word == "fail" then Fail else NoVerdict
  }

  function SenderCheck(p: Patterns, values: seq<string>): Check {
    if values == [] then NoVerdict
    else if IsGmail(p, values[0]) then FirstVerdict(p, Results(values[0])[1..])
    else SenderCheck(p, values[1..])
  }

  /** `sender_check` */
  method SenderCheckLoop(p: Patterns, values: seq<string>) returns (check: Check)
    ensures check == SenderCheck(p, values)
  {
    hide Results, Scan;
    for i := 0 to |values|
      invariant SenderCheck(p, values) == SenderCheck(p, values[i..])
    {
      assert values[i..][0] == values[i] && values[i..][1..] == values[i + 1..];
      var results := ScanResults(values[i]);
      if !p.isGmail(results[0]) {
        continue;
      }
      for k := 1 to |results|
        invariant FirstVerdict(p, results[1..]) == FirstVerdict(p, results[k..])
      {
        assert results[k..][0] == results[k] && results[k..][1..] == results[k + 1..];
        var word := p.dmarc(results[k]);
        if word.Some? {
          return if word.value == "pass" then Pass else if word.value == "fail" then Fail else NoVerdict;
        }
      }
      return NoVerdict;
    }
    check := NoVerdict;
  }

  /** The first of the headers that carries Gmail's identifier. */
  predicate IsFirst(p: Patterns, values: seq<string>, i: nat) {
    i < |values| && IsGmail(p, values[i]) && forall j | 0 <= j < i :: !IsGmail(p, values[j])
  }

  /** The first result of a list that the DMARC pattern takes. */
  predicate IsVerdict(p: Patterns, results: seq<string>, k: nat, word: string) {
    k < |results| && p.dmarc(results[k]) == Some(word) && forall j | 0 <= j < k :: p.dmarc(results[j]).None?
  }

  lemma {:induction false} FirstVerdictIff(p: Patterns, results: seq<string>)
    ensures FirstVerdict(p, results).Pass? <==> Says(p, results, "pass")
    ensures FirstVerdict(p, results).Fail? <==> Says(p, results, "fail")
  {
    if results != [] {
      var rest := results[1..];
      FirstVerdictIff(p, rest);
      if p.dmarc(results[0]).None? {
        forall k, word | 0 <= k < |rest| ensures IsVerdict(p, rest, k, word) <==> IsVerdict(p, results, k + 1, word) {
          VerdictBehind(p, results, k, word);
        }
        forall word, k | 0 <= k < |results| && IsVerdict(p, results, k, word)
          ensures k > 0 && IsVerdict(p, rest, k - 1, word) {
        }
      } else {
        var word := p.dmarc(results[0]).value;
        assert IsVerdict(p, results, 0, word);
      }
    }
  }

  lemma VerdictBehind(p: Patterns, results: seq<string>, k: nat, word: string)
    requires results != [] && p.dmarc(results[0]).None? && k < |results| - 1
    ensures IsVerdict(p, results[1..], k, word) <==> IsVerdict(p, results, k + 1, word)
  {
  }

  lemma {:induction false} FirstHeaderIff(p: Patterns, values: seq<string>, i: nat)
    requires IsFirst(p, values, i)
    ensures SenderCheck(p, values) == FirstVerdict(p, Results(values[i])[1..])
    ensures PassingDomains(p, values) == Domains(p, Results(values[i])[1..])
  {
    hide IsGmail, Results, Domains, FirstVerdict;
    if i > 0 {
      assert forall j | 0 <= j < i - 1 :: values[1..][j] == values[j + 1];
      FirstHeaderIff(p, values[1..], i - 1);
    }
  }

  lemma {:induction false} NoHeader(p: Patterns, values: seq<string>)
    requires forall i | 0 <= i < |values| :: !IsGmail(p, values[i])
    ensures SenderCheck(p, values) == NoVerdict && PassingDomains(p, values) == {}
  {
    hide IsGmail;
    if values != [] {
      NoHeader(p, values[1..]);
    }
  }

  lemma {:induction false} FirstOrNone(p: Patterns, values: seq<string>) returns (i: nat)
    ensures i <= |values| && (forall j | 0 <= j < i :: !IsGmail(p, values[j]))
    ensures i < |values| ==> IsFirst(p, values, i)
  {
    hide IsGmail;
    i := 0;
    if values != [] && !IsGmail(p, values[0]) {
      i := FirstOrNone(p, values[1..]);
      i := i + 1;
    }
  }

  /** The sender check passes exactly when the first result with a DMARC word in the first header carrying
      Gmail's identifier says `pass`, fails exactly when it says `fail`, and in all other cases is no verdict. */
  lemma SenderCheckIff(p: Patterns, values: seq<string>)
    ensures var check := SenderCheck(p, values);
            && (check.Pass? <==> Decided(p, values, "pass"))
            && (check.Fail? <==> Decided(p, values, "fail"))
  {
    hide IsGmail, Results, FirstVerdict, Says;
    var i := FirstOrNone(p, values);
    if i < |values| {
      FirstHeaderIff(p, values, i);
      FirstVerdictIff(p, Results(values[i])[1..]);
    } else {
      NoHeader(p, values);
    }
  }

  predicate Says(p: Patterns, results: seq<string>, word: string) {
    exists k | 0 <= k < |results| :: IsVerdict(p, results, k, word)
  }

  ghost predicate Decided(p: Patterns, values: seq<string>, word: string) {
    exists i: nat | IsFirst(p, values, i) :: Says(p, Results(values[i])[1..], word)
  }

  /** A domain passes exactly when some result behind the first of that same header names it. */
  lemma PassingIff(p: Patterns, values: seq<string>, domain: string)
    ensures domain in PassingDomains(p, values) <==>
            exists i: nat | IsFirst(p, values, i) :: NamedIn(p, Results(values[i])[1..], domain)
  {
    hide IsGmail, Results, Domains, NamedIn;
    var i := FirstOrNone(p, values);
    if i < |values| {
      FirstHeaderIff(p, values, i);
      NamedIff(p, Results(values[i])[1..], domain);
    } else {
      NoHeader(p, values);
    }
  }

  predicate NamedIn(p: Patterns, results: seq<string>, domain: string) {
    exists k | 0 <= k < |results| :: domain in p.dkim(results[k])
  }

  lemma {:induction false} NamedIff(p: Patterns, results: seq<string>, domain: string)
    ensures domain in Domains(p, results) <==> NamedIn(p, results, domain)
  {
    if results != [] {
      var n := |results| - 1;
      NamedIff(p, results[..n], domain);
    }
  }

  function Joined(parts: seq<string>): string {
    if |parts| == 0 then "" else if |parts| == 1 then parts[0]
    else Joined(parts[..|parts| - 1]) + ";" + parts[|parts| - 1]
  }

  /** The parts of a value are what stands between its semicolons. */
  lemma {:induction false} SplitIs(text: string)
    ensures Joined(Split(text)) == text && forall i | 0 <= i < |Split(text)| :: ';' !in Split(text)[i]
  {
    if text != "" {
      var n := |text| - 1;
      SplitIs(text[..n]);
      var before := Split(text[..n]);
      var m := |before| - 1;
      assert text == text[..n] + [text[n]];
      if text[n] == ';' {
        assert (before + [""])[..|before|] == before;
      } else {
        var last := before[m] + [text[n]];
        assert (before[..m] + [last])[..m] == before[..m];
        assert m > 0 ==> Joined(before) == Joined(before[..m]) + ";" + before[m];
      }
    }
  }

  /** Line ends become blanks, CRLF a single one, and nothing else changes. */
  lemma {:induction false} UnfoldIs(text: string)
    ensures '\r' !in Unfold(text) && '\n' !in Unfold(text)
    ensures '\r' !in text && '\n' !in text ==> Unfold(text) == text
  {
    if text != "" {
      if |text| > 1 && text[0] == '\r' && text[1] == '\n' {
        UnfoldIs(text[2..]);
      } else {
        UnfoldIs(text[1..]);
        assert text == [text[0]] + text[1..];
      }
    }
  }

  lemma {:induction false} UnfoldJoins(a: string, end: string, b: string)
    requires '\r' !in a && '\n' !in a
    requires end == "\r\n" || end == "\n" || (end == "\r" && (b == "" || b[0] != '\n'))
    ensures Unfold(a + end + b) == a + " " + Unfold(b)
  {
    var all := a + end + b;
    if a == "" {
      assert all == end + b && "" + " " == " ";
      assert end == "\r\n" ==> all[2..] == b;
      assert end != "\r\n" ==> all[1..] == b;
    } else {
      assert all[1..] == a[1..] + end + b && all[0] == a[0];
      UnfoldJoins(a[1..], end, b);
      assert a == [a[0]] + a[1..];
    }
  }

  /** Receiving servers prepend. Headers below the first verdict that carries Gmail's identifier decide
      nothing, and headers above it that do not carry it decide nothing either. */
  lemma {:induction false} OnlyFirstVerdictCounts(p: Patterns, above: seq<string>, verdict: string, below: seq<string>)
    requires IsGmail(p, verdict) && forall i | 0 <= i < |above| :: !IsGmail(p, above[i])
    ensures PassingDomains(p, above + [verdict] + below) == Domains(p, Results(verdict)[1..])
    ensures SenderCheck(p, above + [verdict] + below) == FirstVerdict(p, Results(verdict)[1..])
  {
    hide IsGmail, Results, Domains, FirstVerdict;
    var all := above + [verdict] + below;
    if above == [] {
      assert all[0] == verdict;
    } else {
      assert all[0] == above[0] && all[1..] == above[1..] + [verdict] + below;
      OnlyFirstVerdictCounts(p, above[1..], verdict, below);
    }
  }

  /** A forged result inside a comment or a quoted string of Gmail's own header changes neither reading. */
  lemma ForgedResultIsIgnored(p: Patterns, above: seq<string>, below: seq<string>, before: seq<Element>,
                              a: Element, b: Element, rest: string, value: string, value': string)
    requires ValidElements(before) && ValidElement(a) && ValidElement(b) && !a.Plain? && !b.Plain?
    requires Unfold(value) == ShowAll(before) + ShowElement(a) + rest
    requires Unfold(value') == ShowAll(before) + ShowElement(b) + rest
    ensures PassingDomains(p, above + [value] + below) == PassingDomains(p, above + [value'] + below)
    ensures SenderCheck(p, above + [value] + below) == SenderCheck(p, above + [value'] + below)
  {
    HiddenTextIsDropped(before, a, b, rest);
    SameResultsSameReading(p, above, value, value', below);
  }

  lemma {:induction false} SameResultsSameReading(p: Patterns, above: seq<string>, value: string, value': string,
                                                  below: seq<string>)
    requires Results(value) == Results(value')
    ensures PassingDomains(p, above + [value] + below) == PassingDomains(p, above + [value'] + below)
    ensures SenderCheck(p, above + [value] + below) == SenderCheck(p, above + [value'] + below)
  {
    hide Results, Domains, FirstVerdict;
    var a, b := above + [value] + below, above + [value'] + below;
    if above == [] {
      assert a[1..] == below == b[1..];
    } else {
      assert a[0] == b[0] && a[1..] == above[1..] + [value] + below && b[1..] == above[1..] + [value'] + below;
      SameResultsSameReading(p, above[1..], value, value', below);
    }
  }
}
