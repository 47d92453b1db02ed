/** Base64 with the URL-safe alphabet (section 5 of RFC 4648), written without padding and
    read back after the padding has been recomputed from the length. */
module Base64Url {
  import opened Wrappers
  import opened Utf8

  function Symbol(n: int): char
    requires 0 <= n < 64
  {
    if n < 26 then ('A' as int + n) as char
    else if n < 52 then ('a' as int + n - 26) as char
    else if n < 62 then ('0' as int + n - 52) as char
    else if n == 62 then '-' else '_'
  }

  /** The reader also takes `+` and `/`, because it maps `-` and `_` onto them first. */
  function Digit(c: char): (r: Option<int>)
    ensures r.Some? ==> 0 <= r.value < 64
  {
    if 'A' <= c <= 'Z' then Some(c as int - 'A' as int)
    else if 'a' <= c <= 'z' then Some(c as int - 'a' as int + 26)
    else if '0' <= c <= '9' then Some(c as int - '0' as int + 52)
    else if c == '-' || c == '+' then Some(62)
    else if c == '_' || c == '/' then Some(63)
    else None
  }

  function EncodeGroup(a: byte, b: byte, c: byte): (text: string)
    ensures |text| == 4
  {
    [Symbol(a / 4), Symbol(a % 4 * 16 + b / 16), Symbol(b % 16 * 4 + c / 64), Symbol(c % 64)]
  }

  /** `base64.urlsafe_b64encode(data).decode().rstrip("=")`. */
  function Encode(data: seq<byte>): string {
    if |data| == 0 then ""
    else if |data| == 1 then EncodeGroup(data[0], 0, 0)[..2]
    else if |data| == 2 then EncodeGroup(data[0], data[1], 0)[..3]
    else EncodeGroup(data[0], data[1], data[2]) + Encode(data[3..])
  }

  /** `"=" * (-len(text) % 4)`. */
  function Padding(length: nat): string {
    if length % 4 == 1 then "===" else if length % 4 == 2 then "==" else if length % 4 == 3 then "=" else ""
  }

  function DecodeGroup(w: int, x: int, y: int, z: int): seq<byte>
    requires 0 <= w < 64 && 0 <= x < 64 && 0 <= y < 64 && 0 <= z < 64
  {
    [w * 4 + x / 16, x % 16 * 16 + y / 4, y % 4 * 64 + z]
  }

  /** Strict padded base64: padding only at the very end, and never more than two of it. */
  function DecodePadded(text: string): Option<seq<byte>> {
    if text == "" then Some([])
    else if |text| < 4 then None
    else
      var w, x, y, z := Digit(text[0]), Digit(text[1]), Digit(text[2]), Digit(text[3]);
      if w.None? || x.None? then None
      else if |text| == 4 && text[2..] == "==" then Some(DecodeGroup(w.value, x.value, 0, 0)[..1])
      else if y.None? then None
      else if |text| == 4 && text[3] == '=' then Some(DecodeGroup(w.value, x.value, y.value, 0)[..2])
      else if z.None? then None
      else match DecodePadded(text[4..]) {
        case None => None
        case Some(rest) => Some(DecodeGroup(w.value, x.value, y.value, z.value) + rest)
      }
  }

  function Decode(text: string): Option<seq<byte>> {
    DecodePadded(text + Padding(|text|))
  }

  lemma DigitOfSymbol(n: int)
    requires 0 <= n < 64
    ensures Digit(Symbol(n)) == Some(n)
  {
  }

  lemma GroupRoundTrip(a: byte, b: byte, c: byte)
    ensures DecodeGroup(a / 4, a % 4 * 16 + b / 16, b % 16 * 4 + c / 64, c % 64) == [a, b, c]
  {
    assert (a % 4 * 16 + b / 16) / 16 == a % 4;
    assert (b % 16 * 4 + c / 64) / 4 == b % 16;
  }

  lemma GroupSymbols(a: byte, b: byte, c: byte)
    ensures var t := EncodeGroup(a, b, c);
            && Digit(t[0]) == Some(a / 4) && Digit(t[1]) == Some(a % 4 * 16 + b / 16)
            && Digit(t[2]) == Some(b % 16 * 4 + c / 64) && Digit(t[3]) == Some(c % 64)
  {
    DigitOfSymbol(a / 4);
    DigitOfSymbol(a % 4 * 16 + b / 16);
    DigitOfSymbol(b % 16 * 4 + c / 64);
    DigitOfSymbol(c % 64);
  }

  lemma {:induction false} EncodedLength(data: seq<byte>)
    ensures |Encode(data)| == (4 * |data| + 2) / 3
  {
    if |data| > 2 {
      EncodedLength(data[3..]);
    }
  }

  lemma TwoBytes(a: byte, b: byte)
    ensures Decode(Encode([a, b])) == Some([a, b])
  {
    var group := EncodeGroup(a, b, 0);
    var padded := Encode([a, b]) + "=";
    assert padded == [group[0], group[1], group[2], '='];
    GroupSymbols(a, b, 0);
    assert padded[2..] == [group[2], '='] && group[2] != '=';
    GroupRoundTrip(a, b, 0);
    assert [a, b, 0][..2] == [a, b];
  }

  lemma NoBytes()
    ensures Decode(Encode([])) == Some([])
  {
  }

  lemma OneByte(a: byte)
    ensures Decode(Encode([a])) == Some([a])
  {
    var group := EncodeGroup(a, 0, 0);
    var padded := Encode([a]) + "==";
    assert padded == [group[0], group[1], '=', '='];
    GroupSymbols(a, 0, 0);
    assert padded[2..] == "==";
    GroupRoundTrip(a, 0, 0);
    assert [a, 0, 0][..1] == [a];
  }

  lemma ThreeBytes(a: byte, b: byte, c: byte, rest: string)
    requires DecodePadded(rest).Some?
    ensures DecodePadded(EncodeGroup(a, b, c) + rest) == Some([a, b, c] + DecodePadded(rest).value)
  {
    var padded := EncodeGroup(a, b, c) + rest;
    GroupSymbols(a, b, c);
    GroupRoundTrip(a, b, c);
    assert padded[4..] == rest;
    assert padded[2..][0] == EncodeGroup(a, b, c)[2];
  }

  lemma GroupThenText(a: byte, b: byte, c: byte, text: string)
    requires Decode(text).Some?
    ensures Decode(EncodeGroup(a, b, c) + text) == Some([a, b, c] + Decode(text).value)
  {
    hide EncodeGroup, DecodePadded;
    ThreeBytes(a, b, c, text + Padding(|text|));
    var all := EncodeGroup(a, b, c) + text;
    assert Padding(|all|) == Padding(|text|);
    assert all + Padding(|all|) == EncodeGroup(a, b, c) + (text + Padding(|text|));
  }

  /** Every byte string is read back as itself, although the padding was dropped. */
  lemma {:induction false} RoundTrip(data: seq<byte>)
    ensures Decode(Encode(data)) == Some(data)
  {
    hide EncodeGroup, Decode;
    if |data| == 0 {
      NoBytes();
    } else if |data| == 1 {
      OneByte(data[0]);
      assert data == [data[0]];
    } else if |data| == 2 {
      TwoBytes(data[0], data[1]);
      assert data == [data[0], data[1]];
    } else if |data| > 2 {
      RoundTrip(data[3..]);
      GroupThenText(data[0], data[1], data[2], Encode(data[3..]));
      assert data == [data[0], data[1], data[2]] + data[3..];
    }
  }

  /** An encoded text never holds a character outside the URL-safe alphabet. */
  lemma {:induction false} EncodedAlphabet(data: seq<byte>)
    ensures forall c | c in Encode(data) :: Digit(c).Some? && c != '+' && c != '/'
  {
    if |data| > 2 {
      EncodedAlphabet(data[3..]);
      GroupSymbols(data[0], data[1], data[2]);
    }
  }

  /** Examples of section 10 of RFC 4648, and the two characters in which the URL-safe alphabet differs. */
  lemma Examples()
    ensures Encode([0x66]) == "Zg" && Encode([0x66, 0x6F]) == "Zm8" && Encode([0x66, 0x6F, 0x6F]) == "Zm9v"
    ensures Encode([0xFB, 0xFF]) == "-_8"
  {
    assert [0x66 as byte, 0x6F, 0x6F][3..] == [];
    assert EncodeGroup(0x66, 0, 0) == "Zg" + "AA" && EncodeGroup(0x66, 0x6F, 0) == "Zm8" + "A";
    assert EncodeGroup(0x66, 0x6F, 0x6F) == "Zm9v" && EncodeGroup(0xFB, 0xFF, 0) == "-_8" + "A";
  }
}
