/** A reader for what `json.dumps` writes, with or without characters outside ASCII, with or without blanks
    behind commas and colons: whatever is written is read back. */
module JsonReader {
  import opened Wrappers
  import opened Utf8
  import opened Characters
  import opened Json

  predicate IsRow(items: seq<Json>) {
    forall i | 0 <= i < |items| :: IsScalar(items[i])
  }

  /** The two styles cursors are written in. */
  predicate CursorStyle(style: Style) {
    style == COMPACT || style == COMPACT_ASCII
  }

  // ---- strings ----

  function HexValue(c: char): (n: Option<int>)
    ensures n.Some? ==> 0 <= n.value < 16
  {
    if IsDigit(c) then Some(c as int - '0' as int)
    else if 'a' <= c <= 'f' then Some(c as int - 'a' as int + 10)
    else None
  }

  /** The number behind `\u`. */
  function FourHex(s: string): (n: Option<int>)
    ensures n.Some? ==> |s| >= 4 && 0 <= n.value < 0x10000
  {
    if |s| < 4 then None
    else
      var a, b, c, d := HexValue(s[0]), HexValue(s[1]), HexValue(s[2]), HexValue(s[3]);
      if a.None? || b.None? || c.None? || d.None? then None
      else Some(a.value * 4096 + b.value * 256 + c.value * 16 + d.value)
  }

  /** The character an escape stands for, and the text behind it. */
  function Escape(s: string): (r: Option<(char, string)>)
    requires s != ""
    ensures r.Some? ==> |r.value.1| < |s|
  {
    match s[0]
    case '"' => Some(('"', s[1..]))
    case '\\' => Some(('\\', s[1..]))
    case 'n' => Some(('\n', s[1..]))
    case 'r' => Some(('\r', s[1..]))
    case 't' => Some(('\t', s[1..]))
    case 'b' => Some((8 as char, s[1..]))
    case 'f' => Some((12 as char, s[1..]))
    case 'u' => UnicodeOf(s[1..])
    case _ => None
  }

  /** One `\u` escape, or the two of a surrogate pair. */
  function UnicodeOf(s: string): (r: Option<(char, string)>)
    ensures r.Some? ==> |r.value.1| < |s|
  {
    var n := FourHex(s);
    if n.None? then None
    else if n.value < 0xD800 || 0xE000 <= n.value then Some((n.value as char, s[4..]))
    else if n.value < 0xDC00 && |s| >= 6 && s[4] == '\\' && s[5] == 'u' then
      var low := FourHex(s[6..]);
      if low.None? || low.value < 0xDC00 || 0xE000 <= low.value then None
      else Some(((0x10000 + (n.value - 0xD800) * 1024 + low.value - 0xDC00) as char, s[10..]))
    else None
  }

  /** The rest of a string whose opening quote has been read, and the text behind it. */
  function ReadString(s: string): (r: Option<(string, string)>)
    ensures r.Some? ==> |r.value.1| < |s|
    decreases |s|
  {
    if s == "" then None
    else if s[0] == '"' then Some(("", s[1..]))
    else if s[0] == '\\' then
      if |s| == 1 then None
      else match Escape(s[1..]) {
        case None => None
        case Some((c, rest)) => Before(c, ReadString(rest))
      }
    else Before(s[0], ReadString(s[1..]))
  }

  function Before(c: char, r: Option<(string, string)>): (r': Option<(string, string)>)
    ensures r'.Some? ==> r.Some? && r'.value.1 == r.value.1
  {
    match r
    case None => None
    case Some((text, rest)) => Some(([c] + text, rest))
  }

  lemma HexBack(n: int)
    requires 0 <= n < 16
    ensures HexValue(HexDigit(n)) == Some(n)
  {
  }

  lemma FourHexBack(n: int, rest: string)
    requires 0 <= n < 0x10000
    ensures UnicodeEscape(n) + rest == ['\\', 'u'] + (UnicodeEscape(n)[2..] + rest)
    ensures FourHex(UnicodeEscape(n)[2..] + rest) == Some(n)
    ensures (UnicodeEscape(n)[2..] + rest)[4..] == rest
  {
    var s := UnicodeEscape(n)[2..] + rest;
    HexBack(n / 4096);
    HexBack(n / 256 % 16);
    HexBack(n / 16 % 16);
    HexBack(n % 16);
    assert s[0] == HexDigit(n / 4096) && s[1] == HexDigit(n / 256 % 16);
    assert s[2] == HexDigit(n / 16 % 16) && s[3] == HexDigit(n % 16);
    assert n / 256 == n / 4096 * 16 + n / 256 % 16;
    assert n / 16 == n / 256 * 16 + n / 16 % 16;
  }

  lemma UnicodeBack(n: int, rest: string)
    requires 0 <= n < 0xD800 || 0xE000 <= n < 0x10000
    ensures var s := UnicodeEscape(n) + rest;
            s[0] == '\\' && s[1] == 'u' && Escape(s[1..]) == Some((n as char, rest))
  {
    hide UnicodeEscape, FourHex;
    FourHexBack(n, rest);
    var t := UnicodeEscape(n)[2..] + rest;
    assert (['\\', 'u'] + t)[1..] == ['u'] + t && (['u'] + t)[1..] == t;
  }

  lemma PairBack(n: int, rest: string)
    requires 0x10000 <= n < 0x11_0000
    ensures var s := UnicodeEscape(0xD800 + (n - 0x10000) / 1024) + UnicodeEscape(0xDC00 + (n - 0x10000) % 1024) + rest;
            s[0] == '\\' && s[1] == 'u' && Escape(s[1..]) == Some((n as char, rest))
  {
    hide UnicodeEscape, FourHex;
    var high, low := 0xD800 + (n - 0x10000) / 1024, 0xDC00 + (n - 0x10000) % 1024;
    var behind := UnicodeEscape(low) + rest;
    FourHexBack(high, behind);
    FourHexBack(low, rest);
    var s := UnicodeEscape(high) + UnicodeEscape(low) + rest;
    assert s == UnicodeEscape(high) + behind;
    var t := UnicodeEscape(high)[2..] + behind;
    assert (['\\', 'u'] + t)[1..] == ['u'] + t && (['u'] + t)[1..] == t;
    var u := UnicodeEscape(low)[2..] + rest;
    assert t[4..] == behind == ['\\', 'u'] + u;
    assert t[4] == behind[0] && t[5] == behind[1] && t[6..] == behind[2..] == u;
    assert t[10..] == u[4..];
  }

  /** One written character is read back, whatever follows. */
  lemma CharBack(c: char, ascii: bool, rest: string)
    ensures ReadString(QuoteChar(c, ascii) + rest) == Before(c, ReadString(rest))
  {
    hide Escape, UnicodeEscape;
    var n := c as int;
    var s := QuoteChar(c, ascii) + rest;
    if c == '"' || c == '\\' || c == '\n' || c == '\r' || c == '\t' || n == 8 || n == 12 {
      ShortBack(c, ascii, rest);
    } else if n < 0x20 || (ascii && 0x7E < n < 0x10000) {
      UnicodeBack(n, rest);
    } else if ascii && n >= 0x10000 {
      PairBack(n, rest);
    } else {
      assert s[0] == c && s[1..] == rest;
    }
  }

  lemma ShortBack(c: char, ascii: bool, rest: string)
    requires c == '"' || c == '\\' || c == '\n' || c == '\r' || c == '\t' || c as int == 8 || c as int == 12
    ensures var s := QuoteChar(c, ascii) + rest;
            |s| > 1 && s[0] == '\\' && Escape(s[1..]) == Some((c, rest))
  {
    var s := QuoteChar(c, ascii) + rest;
    assert s[1..] == [s[1]] + rest && s[1..][1..] == rest;
  }

  lemma {:induction false} StringBack(text: string, ascii: bool, rest: string)
    ensures ReadString(QuoteBody(text, ascii) + ("\"" + rest)) == Some((text, rest))
  {
    hide QuoteChar;
    if text == "" {
      assert "" + ("\"" + rest) == "\"" + rest && ("\"" + rest)[1..] == rest;
    } else {
      var later := QuoteBody(text[1..], ascii) + ("\"" + rest);
      assert QuoteBody(text, ascii) + ("\"" + rest) == QuoteChar(text[0], ascii) + later;
      CharBack(text[0], ascii, later);
      StringBack(text[1..], ascii, rest);
      assert text == [text[0]] + text[1..];
    }
  }

  // ---- values ----

  /** A scalar, and the text behind it. */
  function ReadScalar(s: string): (r: Option<(Json, string)>)
    ensures r.Some? ==> |r.value.1| < |s|
  {
    if s == "" then None
    else if s[0] == 'n' && "null" <= s then Some((JNull, s[4..]))
    else if s[0] == 't' && "true" <= s then Some((JBool(true), s[4..]))
    else if s[0] == 'f' && "false" <= s then Some((JBool(false), s[5..]))
    else if s[0] == '"' then
      match ReadString(s[1..]) {
        case None => None
        case Some((text, rest)) => Some((JStr(text), rest))
      }
    else if IsDigit(s[0]) then Some((JInt(DigitsValue(s[..DigitRun(s)])), s[DigitRun(s)..]))
    else if s[0] == '-' then
      var n := DigitRun(s[1..]);
      Some((JInt(-DigitsValue(s[1..][..n])), s[1..][n..]))
    else None
  }

  /** Behind a comma or a colon there may be a blank. */
  function Skip(s: string): (t: string)
    ensures |t| <= |s|
  {
    if s != "" && s[0] == ' ' then s[1..] else s
  }

  /** Any value, and the text behind it. */
  function ReadValue(s: string): (r: Option<(Json, string)>)
    ensures r.Some? ==> |r.value.1| < |s|
    decreases |s|, 1
  {
    if s == "" then None
    else if s[0] == '[' then
      if |s| > 1 && s[1] == ']' then Some((JArr([]), s[2..]))
      else match ReadItems(s[1..]) {
        case None => None
        case Some((items, rest)) => Some((JArr(items), rest))
      }
    else if s[0] == '{' then
      if |s| > 1 && s[1] == '}' then Some((JObj([]), s[2..]))
      else match ReadFields(s[1..]) {
        case None => None
        case Some((fields, rest)) => Some((JObj(fields), rest))
      }
    else ReadScalar(s)
  }

  /** The values up to the closing bracket, once there is at least one. */
  function ReadItems(s: string): (r: Option<(seq<Json>, string)>)
    ensures r.Some? ==> |r.value.1| < |s|
    decreases |s|, 2
  {
    match ReadValue(s)
    case None => None
    case Some((first, rest)) =>
      if rest == "" then None
      else if rest[0] == ']' then Some(([first], rest[1..]))
      else if rest[0] != ',' then None
      else match ReadItems(Skip(rest[1..])) {
        case None => None
        case Some((later, end)) => Some(([first] + later, end))
      }
  }

  /** The fields up to the closing brace, once there is at least one. */
  function ReadFields(s: string): (r: Option<(seq<Field>, string)>)
    ensures r.Some? ==> |r.value.1| < |s|
    decreases |s|, 2
  {
    match ReadField(s)
    case None => None
    case Some((first, rest)) =>
      if rest == "" then None
      else if rest[0] == '}' then Some(([first], rest[1..]))
      else if rest[0] != ',' then None
      else match ReadFields(Skip(rest[1..])) {
        case None => None
        case Some((later, end)) => Some(([first] + later, end))
      }
  }

  function ReadField(s: string): (r: Option<(Field, string)>)
    ensures r.Some? ==> |r.value.1| < |s|
    decreases |s|, 0
  {
    if s == "" || s[0] != '"' then None
    else match ReadString(s[1..]) {
      case None => None
      case Some((name, behind)) =>
        if behind == "" || behind[0] != ':' then None
        else match ReadValue(Skip(behind[1..])) {
          case None => None
          case Some((value, rest)) => Some((Field(name, value), rest))
        }
    }
  }

  /** The whole text is one value. */
  function ReadAll(s: string): Option<Json> {
    match ReadValue(s)
    case None => None
    case Some((j, rest)) => if rest == "" then Some(j) else None
  }

  // ---- what is written is read back ----

  /** The three styles in which values are written. */
  predicate KnownStyle(style: Style) {
    style == COMPACT || style == COMPACT_ASCII || style == SPACED
  }

  /** What may follow a value. */
  predicate Ends(rest: string) {
    rest == "" || rest[0] == ',' || rest[0] == ']' || rest[0] == '}'
  }

  lemma ScalarBack(j: Json, style: Style, rest: string)
    requires IsScalar(j) && Ends(rest)
    ensures ReadScalar(Dump(j, style) + rest) == Some((j, rest))
  {
    hide ReadString, Quote, Integer, Decimal, DigitRun, DigitsValue, Ends;
    var s := Dump(j, style) + rest;
    match j
    case JNull => assert s[4..] == rest;
    case JBool(b) =>
      assert b ==> s[4..] == rest;
      assert !b ==> s[5..] == rest;
    case JStr(text) => QuotedBack(text, style.ascii, rest);
    case JInt(n) => NumberBack(n, rest);
  }

  lemma QuotedBack(text: string, ascii: bool, rest: string)
    ensures ReadScalar(Quote(text, ascii) + rest) == Some((JStr(text), rest))
  {
    hide ReadString, QuoteBody, DigitRun, DigitsValue;
    var s := Quote(text, ascii) + rest;
    assert s == "\"" + (QuoteBody(text, ascii) + ("\"" + rest));
    assert s[1..] == QuoteBody(text, ascii) + ("\"" + rest);
    StringBack(text, ascii, rest);
  }

  lemma NumberBack(n: int, rest: string)
    requires Ends(rest)
    ensures ReadScalar(Integer(n) + rest) == Some((JInt(n), rest))
  {
    var m := if n < 0 then -n else n;
    var d := Decimal(m);
    DecimalReads(m);
    DigitsBack(d, rest);
    hide Decimal, DigitsValue, Digits, DigitRun, ReadString;
    assert IsDigit(d[0]) ==> d[0] != 'n' && d[0] != 't' && d[0] != 'f' && d[0] != '"' && d[0] != '-';
    if n < 0 {
      assert Integer(n) + rest == "-" + (d + rest) && ("-" + (d + rest))[1..] == d + rest;
    } else {
      assert (d + rest)[0] == d[0];
    }
  }

  lemma DigitsBack(d: string, rest: string)
    requires d != "" && Digits(d) && (rest == "" || !IsDigit(rest[0]))
    ensures IsDigit(d[0]) && DigitRun(d + rest) == |d| && (d + rest)[..|d|] == d && (d + rest)[|d|..] == rest
  {
    DigitRunOf(d, rest);
  }

  /** No value begins like what may follow one, or with a blank. */
  lemma DumpBegins(j: Json, style: Style)
    ensures Dump(j, style) != "" && Dump(j, style)[0] !in {' ', ']', '}', ','}
    ensures IsScalar(j) ==> Dump(j, style)[0] != '[' && Dump(j, style)[0] != '{'
  {
    if j.JInt? {
      var m := if j.number < 0 then -j.number else j.number;
      DecimalReads(m);
      hide Decimal, DigitsValue;
      assert IsDigit(Decimal(m)[0]);
    }
  }

  lemma Skipped(separator: string, c: string, t: string)
    requires separator == c || separator == c + " "
    requires |c| == 1 && t != "" && t[0] != ' '
    ensures var u := separator + t; u != "" && u[0] == c[0] && Skip(u[1..]) == t
  {
    var u := separator + t;
    if separator == c {
      assert u[1..] == t;
    } else {
      assert u[1..] == " " + t && (" " + t)[1..] == t;
    }
  }

  lemma {:induction false} ValueBack(j: Json, style: Style, rest: string)
    requires KnownStyle(style) && Ends(rest)
    ensures ReadValue(Dump(j, style) + rest) == Some((j, rest))
    decreases j, 2
  {
    hide ReadItems, ReadFields, ReadScalar;
    DumpBegins(j, style);
    match j
    case JArr(items) =>
      if items == [] {
        assert Dump(j, style) + rest == "[]" + rest && ("[]" + rest)[2..] == rest;
      } else {
        ItemsBack(items, style, rest);
        ListOpens(items, style, rest);
      }
    case JObj(fields) =>
      if fields == [] {
        assert Dump(j, style) + rest == "{}" + rest && ("{}" + rest)[2..] == rest;
      } else {
        FieldsBack(fields, style, rest);
        ObjectOpens(fields, style, rest);
      }
    case _ =>
      ScalarBack(j, style, rest);
      assert (Dump(j, style) + rest)[0] == Dump(j, style)[0];
  }

  lemma ListOpens(items: seq<Json>, style: Style, rest: string)
    requires items != []
    ensures var s := Dump(JArr(items), style) + rest;
            |s| > 1 && s[0] == '[' && s[1] != ']' && s[1..] == DumpItems(items, style) + ("]" + rest)
  {
    var s := Dump(JArr(items), style) + rest;
    assert s == "[" + (DumpItems(items, style) + ("]" + rest));
    DumpBegins(items[0], style);
    assert DumpItems(items, style)[0] == Dump(items[0], style)[0];
  }

  lemma ObjectOpens(fields: seq<Field>, style: Style, rest: string)
    requires fields != []
    ensures var s := Dump(JObj(fields), style) + rest;
            |s| > 1 && s[0] == '{' && s[1] != '}' && s[1..] == DumpFields(fields, style) + ("}" + rest)
  {
    var s := Dump(JObj(fields), style) + rest;
    assert s == "{" + (DumpFields(fields, style) + ("}" + rest));
    assert Quote(fields[0].name, style.ascii)[0] == '"';
    assert DumpFields(fields, style)[0] == '"';
  }

  lemma {:induction false} ItemsBack(items: seq<Json>, style: Style, rest: string)
    requires items != [] && KnownStyle(style)
    ensures ReadItems(DumpItems(items, style) + ("]" + rest)) == Some((items, rest))
    decreases items, 0
  {
    hide ReadValue, Dump, Skip;
    if |items| == 1 {
      ValueBack(items[0], style, "]" + rest);
      assert DumpItems(items, style) == Dump(items[0], style) && items == [items[0]];
      assert ("]" + rest)[1..] == rest;
    } else {
      var later := DumpItems(items[1..], style) + ("]" + rest);
      assert DumpItems(items, style) + ("]" + rest) == Dump(items[0], style) + (style.comma + later);
      DumpBegins(items[1], style);
      assert later[0] == DumpItems(items[1..], style)[0] == Dump(items[1], style)[0];
      Skipped(style.comma, ",", later);
      ValueBack(items[0], style, style.comma + later);
      ItemsBack(items[1..], style, rest);
      assert items == [items[0]] + items[1..];
    }
  }

  lemma {:induction false} FieldBack(f: Field, style: Style, rest: string)
    requires KnownStyle(style) && Ends(rest)
    ensures ReadField(Quote(f.name, style.ascii) + (style.colon + Dump(f.value, style)) + rest) == Some((f, rest))
    decreases f, 1
  {
    hide ReadValue, ReadString, Dump, Skip;
    var value := Dump(f.value, style) + rest;
    var behind := style.colon + value;
    FieldRegroups(QuoteBody(f.name, style.ascii), style.colon, Dump(f.value, style), rest);
    hide QuoteBody;
    StringBack(f.name, style.ascii, behind);
    DumpBegins(f.value, style);
    Skipped(style.colon, ":", value);
    ValueBack(f.value, style, rest);
  }

  lemma FieldRegroups(name: string, colon: string, value: string, rest: string)
    ensures var s := "\"" + name + "\"" + (colon + value) + rest;
            s != "" && s[0] == '"' && s[1..] == name + ("\"" + (colon + (value + rest)))
  {
    var s := "\"" + name + "\"" + (colon + value) + rest;
    assert s == "\"" + (name + ("\"" + (colon + (value + rest))));
  }

  lemma {:induction false} FieldsBack(fields: seq<Field>, style: Style, rest: string)
    requires fields != [] && KnownStyle(style)
    ensures ReadFields(DumpFields(fields, style) + ("}" + rest)) == Some((fields, rest))
    decreases fields, 0
  {
    hide ReadField, Dump, Quote, Skip;
    var first := Quote(fields[0].name, style.ascii) + (style.colon + Dump(fields[0].value, style));
    if |fields| == 1 {
      FieldBack(fields[0], style, "}" + rest);
      assert DumpFields(fields, style) == first && fields == [fields[0]];
      assert ("}" + rest)[1..] == rest;
    } else {
      var later := DumpFields(fields[1..], style) + ("}" + rest);
      assert DumpFields(fields, style) + ("}" + rest) == first + (style.comma + later);
      FieldsBegin(fields[1..], style);
      assert later[0] == DumpFields(fields[1..], style)[0];
      Skipped(style.comma, ",", later);
      FieldBack(fields[0], style, style.comma + later);
      FieldsBack(fields[1..], style, rest);
      assert fields == [fields[0]] + fields[1..];
    }
  }

  lemma FieldsBegin(fields: seq<Field>, style: Style)
    requires fields != []
    ensures DumpFields(fields, style) != "" && DumpFields(fields, style)[0] == '"'
  {
    assert Quote(fields[0].name, style.ascii)[0] == '"';
  }

  /** What `json.dumps` writes in any of its three styles is read back as the value it was written from, with
      every name, every value and their order. */
  lemma WrittenIsRead(j: Json, style: Style)
    requires KnownStyle(style)
    ensures ReadAll(Dump(j, style)) == Some(j)
  {
    hide ReadValue, Dump;
    ValueBack(j, style, "");
    assert Dump(j, style) + "" == Dump(j, style);
  }

  // ---- rows ----

  function ReadRow(s: string): Option<Json> {
    match ReadAll(s)
    case Some(JArr(items)) => Some(JArr(items))
    case _ => None
  }

  /** Every row written for a cursor is read back as itself. */
  lemma RowBack(items: seq<Json>, style: Style)
    requires CursorStyle(style)
    ensures ReadRow(Dump(JArr(items), style)) == Some(JArr(items))
  {
    hide ReadAll, Dump;
    WrittenIsRead(JArr(items), style);
  }
}
