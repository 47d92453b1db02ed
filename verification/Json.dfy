/** JSON values and the text Python's `json.dumps` writes for them. Only the writer is defined;
    the reader `json.loads` is a parameter wherever it is needed. */
module Json {
  import opened Utf8
  import opened Characters

  datatype Json =
    | JNull
    | JBool(flag: bool)
    | JInt(number: int)
    | JStr(text: string)
    | JArr(items: seq<Json>)
    | JObj(fields: seq<Field>)

  datatype Field = Field(name: string, value: Json)

  /** The `separators` and `ensure_ascii` arguments of `json.dumps`. */
  datatype Style = Style(comma: string, colon: string, ascii: bool)

  const COMPACT := Style(",", ":", false)
  const COMPACT_ASCII := Style(",", ":", true)
  const SPACED := Style(", ", ": ", false)

  function HexDigit(n: int): char
    requires 0 <= n < 16
  {
    if n < 10 then ('0' as int + n) as char else ('a' as int + n - 10) as char
  }

  function UnicodeEscape(n: int): string
    requires 0 <= n < 0x10000
  {
    ['\\', 'u', HexDigit(n / 4096), HexDigit(n / 256 % 16), HexDigit(n / 16 % 16), HexDigit(n % 16)]
  }

  function QuoteChar(c: char, ascii: bool): string {
    var n := c as int;
    if c == '"' || c == '\\' then ['\\', c]
    else if c == '\n' then "\\n"
    else if c == '\r' then "\\r"
    else if c == '\t' then "\\t"
    else if n == 8 then "\\b"
    else if n == 12 then "\\f"
    else if n < 0x20 then UnicodeEscape(n)
    else if !ascii || n <= 0x7E then [c]
    else if n < 0x10000 then UnicodeEscape(n)
    else UnicodeEscape(0xD800 + (n - 0x10000) / 1024) + UnicodeEscape(0xDC00 + (n - 0x10000) % 1024)
  }

  function QuoteBody(s: string, ascii: bool): string {
    if s == "" then "" else QuoteChar(s[0], ascii) + QuoteBody(s[1..], ascii)
  }

  function Quote(s: string, ascii: bool): string {
    "\"" + QuoteBody(s, ascii) + "\""
  }

  function Decimal(n: nat): string {
    var last := [('0' as int + n % 10) as char];
    if n < 10 then last else Decimal(n / 10) + last
  }

  function Integer(n: int): string {
    if n < 0 then "-" + Decimal(-n) else Decimal(n)
  }

  function Dump(j: Json, style: Style): string
    decreases j, 1
  {
    match j
    case JNull => "null"
    case JBool(b) => if b then "true" else "false"
    case JInt(n) => Integer(n)
    case JStr(s) => Quote(s, style.ascii)
    case JArr(items) => "[" + DumpItems(items, style) + "]"
    case JObj(fields) => "{" + DumpFields(fields, style) + "}"
  }

  function DumpItems(items: seq<Json>, style: Style): string
    decreases items, 0
  {
    if |items| == 0 then ""
    else if |items| == 1 then Dump(items[0], style)
    else Dump(items[0], style) + (style.comma + DumpItems(items[1..], style))
  }

  function DumpFields(fields: seq<Field>, style: Style): string
    decreases fields, 0
  {
    if |fields| == 0 then ""
    else
      var first := Quote(fields[0].name, style.ascii) + (style.colon + Dump(fields[0].value, style));
      if |fields| == 1 then first else first + (style.comma + DumpFields(fields[1..], style))
  }

  /** What each character is written as. */
  lemma QuoteExamples()
    ensures QuoteChar('a', true) == "a" && QuoteChar('"', true) == "\\\"" && QuoteChar('\\', true) == "\\\\"
    ensures QuoteChar('\n', true) == "\\n" && QuoteChar('\r', true) == "\\r" && QuoteChar('\t', true) == "\\t"
    ensures QuoteChar('\U{08}', true) == "\\b" && QuoteChar('\U{0C}', true) == "\\f"
    ensures QuoteChar('\U{7F}', false) == "\U{7F}" && QuoteChar('\U{E9}', false) == "\U{E9}"
  {
    hide UnicodeEscape;
  }

  lemma EscapeExamples()
    ensures QuoteChar('\U{1F}', false) == "\\u001f" && QuoteChar('\U{7F}', true) == "\\u007f"
    ensures QuoteChar('\U{E9}', true) == "\\u00e9"
  {
  }

  lemma SurrogateExample()
    ensures QuoteChar('\U{1F600}', true) == "\\ud83d\\ude00"
  {
    assert UnicodeEscape(0xD83D) == "\\ud83d" && UnicodeEscape(0xDE00) == "\\ude00";
  }

  /** And how values are put together. */
  lemma DumpExamples(a: Json, b: Json, name: string)
    ensures Dump(JArr([a, b]), SPACED) == "[" + (Dump(a, SPACED) + (", " + Dump(b, SPACED))) + "]"
    ensures Dump(JArr([a, b]), COMPACT) == "[" + (Dump(a, COMPACT) + ("," + Dump(b, COMPACT))) + "]"
    ensures Dump(JObj([Field(name, a)]), COMPACT) == "{" + (Quote(name, false) + (":" + Dump(a, COMPACT))) + "}"
    ensures Dump(JObj([Field(name, a)]), SPACED) == "{" + (Quote(name, false) + (": " + Dump(a, SPACED))) + "}"
    ensures Dump(JNull, COMPACT) == "null" && Dump(JBool(true), COMPACT) == "true"
    ensures Dump(JInt(-12), COMPACT) == "-12"
  {
    assert [a, b][1..] == [b];
    assert DumpItems([b], SPACED) == Dump(b, SPACED) && DumpItems([b], COMPACT) == Dump(b, COMPACT);
    assert Decimal(12) == Decimal(1) + "2" == "12";
  }

  /** `len(json.dumps(...).encode())`. */
  function Size(j: Json, style: Style): nat {
    |Encode(Dump(j, style))|
  }

  lemma Bytes(s: string, t: string)
    ensures |Encode(s + t)| == |Encode(s)| + |Encode(t)|
  {
    EncodeConcat(s, t);
  }

  /** A later number never takes fewer digits. */
  lemma {:induction false} DecimalGrows(m: nat, n: nat)
    requires m <= n
    ensures 1 <= |Decimal(m)| <= |Decimal(n)|
  {
    if n >= 10 {
      if m >= 10 {
        DecimalGrows(m / 10, n / 10);
      } else {
        DecimalGrows(0, n / 10);
      }
    }
  }

  /** A written number is read back by `int()`. */
  lemma {:induction false} DecimalReads(n: nat)
    ensures Decimal(n) != "" && Digits(Decimal(n)) && DigitsValue(Decimal(n)) == n
  {
    var d := Decimal(n);
    if n >= 10 {
      DecimalReads(n / 10);
      assert d[..|d| - 1] == Decimal(n / 10);
    } else {
      assert d[..|d| - 1] == "";
    }
  }

  predicate Plain(s: string) {
    forall i | 0 <= i < |s| :: 0x20 <= s[i] as int <= 0x7E && s[i] != '"' && s[i] != '\\'
  }

  /** Text without a character that needs escaping is written as it is, one byte each. */
  lemma {:induction false} PlainText(s: string, ascii: bool)
    requires Plain(s)
    ensures QuoteBody(s, ascii) == s
    ensures |Encode(s)| == |s|
  {
    if s != "" {
      PlainText(s[1..], ascii);
      assert s == [s[0]] + s[1..];
    }
  }

  lemma {:induction false} DecimalPlain(n: nat)
    ensures Plain(Decimal(n))
  {
    if n >= 10 {
      DecimalPlain(n / 10);
    }
  }

  /** A quoted character takes at most six bytes when non-ASCII text is kept. */
  lemma {:induction false} QuoteBound(s: string)
    ensures |Encode(QuoteBody(s, false))| <= 6 * |s|
  {
    if s != "" {
      var q := QuoteChar(s[0], false);
      if |q| > 1 {
        PlainOrEscape(s[0]);
      } else {
        assert Encode(q) == EncodeChar(q[0]) + Encode(q[1..]);
        HeadOfEncoded(q[0], []);
      }
      Bytes(q, QuoteBody(s[1..], false));
      QuoteBound(s[1..]);
    }
  }

  lemma PlainOrEscape(c: char)
    requires |QuoteChar(c, false)| > 1
    ensures |Encode(QuoteChar(c, false))| <= 6
  {
    AsciiBytes(QuoteChar(c, false));
  }

  lemma {:induction false} AsciiBytes(s: string)
    requires forall i | 0 <= i < |s| :: s[i] as int < 0x80
    ensures |Encode(s)| == |s|
  {
    if s != "" {
      AsciiBytes(s[1..]);
    }
  }

  /** Size of a list, item by item. */
  function ItemsSize(items: seq<Json>, style: Style): nat {
    |Encode(DumpItems(items, style))|
  }

  lemma {:induction false} ItemsGrow(items: seq<Json>, last: Json, style: Style)
    ensures ItemsSize(items, style) <= ItemsSize(items + [last], style)
  {
    if |items| == 1 {
      assert (items + [last])[0] == items[0];
      Bytes(Dump(items[0], style), style.comma + DumpItems((items + [last])[1..], style));
    } else if |items| > 1 {
      var more := items + [last];
      assert more[1..] == items[1..] + [last];
      ItemsGrow(items[1..], last, style);
      Bytes(Dump(items[0], style), style.comma + DumpItems(items[1..], style));
      Bytes(Dump(items[0], style), style.comma + DumpItems(more[1..], style));
      Bytes(style.comma, DumpItems(items[1..], style));
      Bytes(style.comma, DumpItems(more[1..], style));
    }
  }

  predicate IsScalar(j: Json) {
    j.JNull? || j.JBool? || j.JInt? || j.JStr?
  }

  /** Bounds on the pieces of a list of scalars. */
  function PieceBound(j: Json): nat {
    match j
    case JStr(s) => if Plain(s) then |s| + 2 else 6 * |s| + 2
    case JInt(n) => if n < 0 then 0 else |Decimal(n)|
    case JBool(_) => 5
    case _ => 4
  }

  /** `PieceBound` without its case split. */
  lemma PieceAtMost(j: Json)
    ensures j.JStr? ==> PieceBound(j) <= 6 * |j.text| + 2
    ensures j.JNull? || j.JBool? || j == JArr([]) ==> PieceBound(j) <= 5
  {
  }

  function RowBound(items: seq<Json>): nat {
    if items == [] then 0 else PieceBound(items[0]) + 1 + RowBound(items[1..])
  }

  /** A scalar whose written size `PieceBound` covers in this style. */
  predicate Bounded(j: Json, style: Style) {
    && (IsScalar(j) || j == JArr([]))
    && (j.JInt? ==> j.number >= 0)
    && (j.JStr? && style.ascii ==> Plain(j.text))
  }

  lemma PieceSize(j: Json, style: Style)
    requires Bounded(j, style)
    ensures |Encode(Dump(j, style))| <= PieceBound(j)
  {
    match j
    case JStr(s) =>
      if Plain(s) {
        PlainText(s, style.ascii);
      } else {
        QuoteBound(s);
      }
      Bytes("\"", QuoteBody(s, style.ascii));
      Bytes("\"" + QuoteBody(s, style.ascii), "\"");
    case JInt(n) =>
      DecimalPlain(n);
      PlainText(Decimal(n), false);
    case JNull => AsciiBytes("null");
    case JBool(b) => AsciiBytes(if b then "true" else "false");
    case JArr(_) => ArraySize([], style);
    case JObj(_) =>
  }

  lemma {:induction false} RowSize(items: seq<Json>, style: Style)
    requires style.comma == "," && forall i | 0 <= i < |items| :: Bounded(items[i], style)
    ensures |Encode(DumpItems(items, style))| <= RowBound(items)
  {
    if items != [] {
      PieceSize(items[0], style);
      if |items| > 1 {
        RowSize(items[1..], style);
        Bytes(Dump(items[0], style), "," + DumpItems(items[1..], style));
        Bytes(",", DumpItems(items[1..], style));
      }
    }
  }

  lemma RowBoundFirst(a: Json, rest: seq<Json>)
    ensures RowBound([a] + rest) == PieceBound(a) + 1 + RowBound(rest)
  {
    assert ([a] + rest)[1..] == rest;
  }

  lemma ListSize(items: seq<Json>, style: Style)
    requires style.comma == "," && forall i | 0 <= i < |items| :: Bounded(items[i], style)
    ensures Size(JArr(items), style) <= RowBound(items) + 2
  {
    RowSize(items, style);
    Bytes("[", DumpItems(items, style));
    Bytes("[" + DumpItems(items, style), "]");
    AsciiBytes("[");
    AsciiBytes("]");
  }

  function FieldsBound(fields: seq<Field>): nat {
    if fields == [] then 0
    else 6 * |fields[0].name| + 4 + PieceBound(fields[0].value) + FieldsBound(fields[1..])
  }

  lemma {:induction false} FieldsSize(fields: seq<Field>)
    requires forall i | 0 <= i < |fields| :: Bounded(fields[i].value, COMPACT)
    ensures |Encode(DumpFields(fields, COMPACT))| <= FieldsBound(fields)
  {
    if fields != [] {
      var name, value := fields[0].name, fields[0].value;
      var quoted, written := Quote(name, false), Dump(value, COMPACT);
      PieceSize(value, COMPACT);
      PieceSize(JStr(name), COMPACT);
      Bytes(quoted, ":" + written);
      Bytes(":", written);
      AsciiBytes(":");
      AsciiBytes(",");
      if |fields| > 1 {
        FieldsSize(fields[1..]);
        var rest := DumpFields(fields[1..], COMPACT);
        Bytes(quoted + (":" + written), "," + rest);
        Bytes(",", rest);
      }
    }
  }

  /** A flat object of scalars stays within the sum of its parts' bounds. */
  lemma ObjectSize(fields: seq<Field>)
    requires forall i | 0 <= i < |fields| :: Bounded(fields[i].value, COMPACT)
    ensures Size(JObj(fields), COMPACT) <= FieldsBound(fields) + 2
  {
    FieldsSize(fields);
    Bytes("{", DumpFields(fields, COMPACT));
    Bytes("{" + DumpFields(fields, COMPACT), "}");
    AsciiBytes("{");
    AsciiBytes("}");
  }

  lemma FieldsBoundFirst(f: Field, rest: seq<Field>)
    ensures FieldsBound([f] + rest) == 6 * |f.name| + 4 + PieceBound(f.value) + FieldsBound(rest)
  {
    assert ([f] + rest)[1..] == rest;
  }

  /** Lists and objects grow with their parts. */
  lemma {:induction false} ItemsPointwise(a: seq<Json>, b: seq<Json>, style: Style)
    requires |a| == |b| && forall i | 0 <= i < |a| :: Size(a[i], style) <= Size(b[i], style)
    ensures ItemsSize(a, style) <= ItemsSize(b, style)
  {
    if |a| > 1 {
      ItemsPointwise(a[1..], b[1..], style);
      SplitItems(a, style);
      SplitItems(b, style);
    }
  }

  lemma SplitItems(a: seq<Json>, style: Style)
    requires |a| > 1
    ensures ItemsSize(a, style) == Size(a[0], style) + |Encode(style.comma)| + ItemsSize(a[1..], style)
  {
    Bytes(Dump(a[0], style), style.comma + DumpItems(a[1..], style));
    Bytes(style.comma, DumpItems(a[1..], style));
  }

  lemma ArraySize(items: seq<Json>, style: Style)
    ensures Size(JArr(items), style) == ItemsSize(items, style) + 2
  {
    Bytes("[", DumpItems(items, style));
    Bytes("[" + DumpItems(items, style), "]");
    AsciiBytes("[");
    AsciiBytes("]");
  }

  function FieldsSizeOf(fields: seq<Field>, style: Style): nat {
    |Encode(DumpFields(fields, style))|
  }

  function FieldSize(f: Field, style: Style): nat {
    |Encode(Quote(f.name, style.ascii))| + |Encode(style.colon)| + Size(f.value, style)
  }

  lemma SplitFields(f: seq<Field>, style: Style)
    requires f != []
    ensures FieldsSizeOf(f, style) == FieldSize(f[0], style)
            + if |f| == 1 then 0 else |Encode(style.comma)| + FieldsSizeOf(f[1..], style)
  {
    var name, value := Quote(f[0].name, style.ascii), Dump(f[0].value, style);
    Bytes(name, style.colon + value);
    Bytes(style.colon, value);
    if |f| > 1 {
      Bytes(name + (style.colon + value), style.comma + DumpFields(f[1..], style));
      Bytes(style.comma, DumpFields(f[1..], style));
    }
  }

  lemma {:induction false} FieldsPointwise(f: seq<Field>, g: seq<Field>, style: Style)
    requires |f| == |g|
    requires forall i | 0 <= i < |f| :: f[i].name == g[i].name && Size(f[i].value, style) <= Size(g[i].value, style)
    ensures FieldsSizeOf(f, style) <= FieldsSizeOf(g, style)
  {
    if f != [] {
      SplitFields(f, style);
      SplitFields(g, style);
      FieldsPointwise(f[1..], g[1..], style);
    }
  }

  lemma ObjectSizeOf(fields: seq<Field>, style: Style)
    ensures Size(JObj(fields), style) == FieldsSizeOf(fields, style) + 2
  {
    Bytes("{", DumpFields(fields, style));
    Bytes("{" + DumpFields(fields, style), "}");
    AsciiBytes("{");
    AsciiBytes("}");
  }

  /** Leaving out the blanks behind commas and colons never takes more bytes. */
  lemma {:induction false} CompactIsSmaller(j: Json)
    ensures Size(j, COMPACT) <= Size(j, SPACED)
    decreases j, 1
  {
    hide Encode;
    match j
    case JArr(items) =>
      CompactItems(items);
      ArraySize(items, COMPACT);
      ArraySize(items, SPACED);
    case JObj(fields) =>
      CompactFields(fields);
      ObjectSizeOf(fields, COMPACT);
      ObjectSizeOf(fields, SPACED);
    case _ =>
  }

  lemma {:induction false} CompactItems(items: seq<Json>)
    ensures ItemsSize(items, COMPACT) <= ItemsSize(items, SPACED)
    decreases items, 0
  {
    if items != [] {
      CompactIsSmaller(items[0]);
      if |items| > 1 {
        CompactItems(items[1..]);
        SplitItems(items, COMPACT);
        SplitItems(items, SPACED);
        Separators();
      }
    }
  }

  lemma Separators()
    ensures |Encode(COMPACT.comma)| == 1 && |Encode(SPACED.comma)| == 2
    ensures |Encode(COMPACT.colon)| == 1 && |Encode(SPACED.colon)| == 2
  {
    AsciiBytes(COMPACT.comma);
    AsciiBytes(SPACED.comma);
    AsciiBytes(COMPACT.colon);
    AsciiBytes(SPACED.colon);
  }

  lemma {:induction false} CompactFields(fields: seq<Field>)
    ensures FieldsSizeOf(fields, COMPACT) <= FieldsSizeOf(fields, SPACED)
    decreases fields, 0
  {
    if fields != [] {
      CompactIsSmaller(fields[0].value);
      CompactFields(fields[1..]);
      SplitFields(fields, COMPACT);
      SplitFields(fields, SPACED);
      Separators();
    }
  }

  function Sum(slack: seq<nat>): nat {
    if slack == [] then 0 else slack[0] + Sum(slack[1..])
  }

  /** Fields that exceed others by at most some slack each exceed them by at most the sum. */
  lemma {:induction false} FieldsWithin(f: seq<Field>, g: seq<Field>, slack: seq<nat>, style: Style)
    requires |f| == |g| == |slack|
    requires forall i | 0 <= i < |f| ::
               f[i].name == g[i].name && Size(f[i].value, style) <= Size(g[i].value, style) + slack[i]
    ensures FieldsSizeOf(f, style) <= FieldsSizeOf(g, style) + Sum(slack)
  {
    if f != [] {
      SplitFields(f, style);
      SplitFields(g, style);
      FieldsWithin(f[1..], g[1..], slack[1..], style);
    }
  }
}
