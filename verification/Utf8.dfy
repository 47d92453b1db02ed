/** UTF-8 as section 3 of RFC 3629 defines it, and the two decoders Python offers:
    `bytes.decode()` and `bytes.decode(errors="ignore")`. */
module Utf8 {
  import opened Wrappers

  type byte = x: int | 0 <= x < 256

  function EncodeChar(c: char): seq<byte> {
    var n := c as int;
    if n < 0x80 then [n]
    else if n < 0x800 then [0xC0 + n / 64, 0x80 + n % 64]
    else if n < 0x10000 then [0xE0 + n / 4096, 0x80 + n / 64 % 64, 0x80 + n % 64]
    else [0xF0 + n / 262144, 0x80 + n / 4096 % 64, 0x80 + n / 64 % 64, 0x80 + n % 64]
  }

  function Encode(s: string): seq<byte> {
    if s == [] then [] else EncodeChar(s[0]) + Encode(s[1..])
  }

  predicate Continues(b: seq<byte>, i: nat) {
    i < |b| && 0x80 <= b[i] < 0xC0
  }

  function Scalar2(a: int, b: int): int { (a - 0xC0) * 64 + (b - 0x80) }

  function Scalar3(a: int, b: int, c: int): int { (a - 0xE0) * 4096 + (b - 0x80) * 64 + (c - 0x80) }

  function Scalar4(a: int, b: int, c: int, d: int): int {
    (a - 0xF0) * 262144 + (b - 0x80) * 4096 + (c - 0x80) * 64 + (d - 0x80)
  }

  /** The well-formed sequence at the front of `b`, as its character and its width. */
  function Head(b: seq<byte>): (r: Option<(char, nat)>)
    ensures r.Some? ==> 0 < r.value.1 <= |b|
  {
    if b == [] then None
    else if b[0] < 0x80 then Some((b[0] as char, 1))
    else if 0xC2 <= b[0] < 0xE0 && Continues(b, 1) then
      Some((Scalar2(b[0], b[1]) as char, 2))
    else if 0xE0 <= b[0] < 0xF0 && Continues(b, 1) && Continues(b, 2) then
      var n := Scalar3(b[0], b[1], b[2]);
      if n < 0x800 || 0xD800 <= n < 0xE000 then None else Some((n as char, 3))
    else if 0xF0 <= b[0] < 0xF5 && Continues(b, 1) && Continues(b, 2) && Continues(b, 3) then
      var n := Scalar4(b[0], b[1], b[2], b[3]);
      if n < 0x10000 || 0x11_0000 <= n then None else Some((n as char, 4))
    else None
  }

  /** `bytes.decode()`: None where Python raises UnicodeDecodeError. */
  function Decode(b: seq<byte>): Option<string> {
    if b == [] then Some([])
    else match Head(b) {
      case None => None
      case Some((c, n)) =>
        match Decode(b[n..]) {
          case None => None
          case Some(rest) => Some([c] + rest)
        }
    }
  }

  /** `bytes.decode(errors="ignore")`: a byte that starts no well-formed sequence is skipped. */
  function DecodeIgnore(b: seq<byte>): string {
    if b == [] then []
    else match Head(b) {
      case None => DecodeIgnore(b[1..])
      case Some((c, n)) =>
        [c] + DecodeIgnore(b[n..])
    }
  }

  lemma HeadOfEncoded(c: char, rest: seq<byte>)
    ensures 1 <= |EncodeChar(c)| <= 4
    ensures Head(EncodeChar(c) + rest) == Some((c, |EncodeChar(c)|))
  {
    var n := c as int;
    var b := EncodeChar(c) + rest;
    if n < 0x80 {
    } else if n < 0x800 {
      assert Scalar2(b[0], b[1]) == n;
    } else if n < 0x10000 {
      ThreeByteForm(n);
      hide Scalar3;
      assert Scalar3(b[0], b[1], b[2]) == n;
    } else {
      FourByteForm(n);
      hide Scalar4;
      assert Scalar4(b[0], b[1], b[2], b[3]) == n;
    }
  }

  lemma ThreeByteForm(n: int)
    requires 0 <= n < 0x10000
    ensures Scalar3(0xE0 + n / 4096, 0x80 + n / 64 % 64, 0x80 + n % 64) == n
  {
    assert n / 4096 * 64 + n / 64 % 64 == n / 64;
  }

  lemma FourByteForm(n: int)
    requires 0 <= n < 0x11_0000
    ensures Scalar4(0xF0 + n / 262144, 0x80 + n / 4096 % 64, 0x80 + n / 64 % 64, 0x80 + n % 64) == n
  {
    assert n / 262144 * 64 + n / 4096 % 64 == n / 4096;
    assert n / 4096 * 64 + n / 64 % 64 == n / 64;
  }

  /** The three multi-byte layouts, read and written back. */
  lemma Digits2(a: int, b: int)
    requires 0xC2 <= a < 0xE0 && 0x80 <= b < 0xC0
    ensures var n := Scalar2(a, b); 0x80 <= n < 0x800 && 0xC0 + n / 64 == a && 0x80 + n % 64 == b
  {
  }

  lemma Digits3(a: int, b: int, c: int)
    requires 0xE0 <= a < 0xF0 && 0x80 <= b < 0xC0 && 0x80 <= c < 0xC0
    ensures var n := Scalar3(a, b, c);
            0 <= n < 0x10000 && 0xE0 + n / 4096 == a && 0x80 + n / 64 % 64 == b && 0x80 + n % 64 == c
  {
    var n := Scalar3(a, b, c);
    assert n / 64 == (a - 0xE0) * 64 + (b - 0x80);
    assert n / 4096 == a - 0xE0;
  }

  lemma Digits4(a: int, b: int, c: int, d: int)
    requires 0xF0 <= a < 0xF5 && 0x80 <= b < 0xC0 && 0x80 <= c < 0xC0 && 0x80 <= d < 0xC0
    ensures var n := Scalar4(a, b, c, d);
            && 0xF0 + n / 262144 == a && 0x80 + n / 4096 % 64 == b
            && 0x80 + n / 64 % 64 == c && 0x80 + n % 64 == d
  {
    var n := Scalar4(a, b, c, d);
    assert n / 64 == (a - 0xF0) * 4096 + (b - 0x80) * 64 + (c - 0x80);
    assert n / 4096 == (a - 0xF0) * 64 + (b - 0x80);
    assert n / 262144 == a - 0xF0;
  }

  lemma HeadIsEncoded(b: seq<byte>)
    requires Head(b).Some?
    ensures var (c, n) := Head(b).value; b[..n] == EncodeChar(c)
  {
    if b[0] < 0x80 {
    } else if b[0] < 0xE0 {
      Digits2(b[0], b[1]);
    } else if b[0] < 0xF0 {
      Digits3(b[0], b[1], b[2]);
    } else {
      Digits4(b[0], b[1], b[2], b[3]);
    }
  }

  lemma {:induction false} EncodeConcat(s: string, t: string)
    ensures Encode(s + t) == Encode(s) + Encode(t)
  {
    hide EncodeChar;
    if s == [] {
      assert s + t == t;
    } else {
      EncodeConcat(s[1..], t);
      assert (s + t)[1..] == s[1..] + t && (s + t)[0] == s[0];
      Associative(EncodeChar(s[0]), Encode(s[1..]), Encode(t));
    }
  }

  lemma Associative(a: seq<byte>, b: seq<byte>, c: seq<byte>)
    ensures a + (b + c) == a + b + c
  {
  }

  /** Strict decoding inverts encoding: the decoder accepts exactly the encoded strings. */
  lemma {:induction false} DecodeInvertsEncode(s: string)
    ensures Decode(Encode(s)) == Some(s)
  {
    if s != [] {
      HeadOfEncoded(s[0], Encode(s[1..]));
      DecodeInvertsEncode(s[1..]);
      assert Encode(s)[|EncodeChar(s[0])|..] == Encode(s[1..]);
      assert s == [s[0]] + s[1..];
    }
  }

  lemma {:induction false} EncodeInvertsDecode(b: seq<byte>)
    requires Decode(b).Some?
    ensures Encode(Decode(b).value) == b
  {
    hide Head, EncodeChar;
    if b != [] {
      HeadIsEncoded(b);
      var (c, n) := Head(b).value;
      EncodeInvertsDecode(b[n..]);
      var s := Decode(b).value;
      assert s[1..] == Decode(b[n..]).value;
      assert b == b[..n] + b[n..];
    }
  }

  /** A proper prefix of one character's bytes is no character and leaves nothing behind. */
  lemma TruncatedChar(c: char, n: nat)
    requires n < |EncodeChar(c)|
    ensures DecodeIgnore(EncodeChar(c)[..n]) == []
  {
    var b := EncodeChar(c)[..n];
    if n > 0 {
      assert Head(b).None?;
      Continuations(b[1..]);
    }
  }

  lemma {:induction false} Continuations(b: seq<byte>)
    requires forall i | 0 <= i < |b| :: 0x80 <= b[i] < 0xC0
    ensures DecodeIgnore(b) == []
  {
    if b != [] {
      Continuations(b[1..]);
    }
  }

  /** How many characters of `s` fit whole into `room` bytes. */
  function Fitting(s: string, room: int): (k: nat)
    ensures k <= |s|
  {
    if s == [] || |EncodeChar(s[0])| > room then 0
    else 1 + Fitting(s[1..], room - |EncodeChar(s[0])|)
  }

  /** Decoding a byte prefix while ignoring errors keeps exactly the characters that fit whole. */
  lemma {:induction false} DecodePrefix(s: string, room: nat)
    ensures DecodeIgnore(Prefix(Encode(s), room)) == s[..Fitting(s, room)]
  {
    hide Head, EncodeChar, DecodeIgnore;
    if s == [] {
      Continuations([]);
    } else {
      var e := EncodeChar(s[0]);
      HeadOfEncoded(s[0], []);
      if |e| > room {
        assert Prefix(Encode(s), room) == e[..room];
        TruncatedChar(s[0], room);
      } else {
        var tail := Prefix(Encode(s[1..]), room - |e|);
        assert Prefix(Encode(s), room) == e + tail;
        DecodeEncodedFirst(s[0], tail);
        DecodePrefix(s[1..], room - |e|);
      }
    }
  }

  /** `b[:room]` in Python. */
  function Prefix<T>(b: seq<T>, room: nat): seq<T> {
    if room <= |b| then b[..room] else b
  }

  lemma DecodeEncodedFirst(c: char, rest: seq<byte>)
    ensures DecodeIgnore(EncodeChar(c) + rest) == [c] + DecodeIgnore(rest)
  {
    HeadOfEncoded(c, rest);
    assert (EncodeChar(c) + rest)[|EncodeChar(c)|..] == rest;
  }

  /** The kept characters use at most `room` bytes, and stop short of it by at most three
      unless the whole string fits. */
  lemma {:induction false} FittingFills(s: string, room: int)
    requires room >= 0
    ensures |Encode(s[..Fitting(s, room)])| <= room
    ensures Fitting(s, room) < |s| ==> room - 3 <= |Encode(s[..Fitting(s, room)])|
  {
    if s != [] {
      HeadOfEncoded(s[0], []);
      var e := EncodeChar(s[0]);
      if |e| <= room {
        FittingFills(s[1..], room - |e|);
        var kept := s[..Fitting(s, room)];
        assert kept[1..] == s[1..][..Fitting(s[1..], room - |e|)];
      }
    }
  }

  /** The most characters of `s` that `room` bytes hold. */
  predicate IsCut(s: string, k: nat, room: nat) {
    k <= |s| && |Encode(s[..k])| <= room && (k < |s| ==> |Encode(s[..k + 1])| > room)
  }

  lemma OneCut(s: string, j: nat, k: nat, room: nat)
    requires IsCut(s, j, room) && IsCut(s, k, room)
    ensures j == k
  {
    hide Encode;
    if j < k {
      PrefixNoLonger(s, j + 1, k);
    } else if k < j {
      PrefixNoLonger(s, k + 1, j);
    }
  }

  lemma PrefixNoLonger(s: string, m: nat, n: nat)
    requires m <= n <= |s|
    ensures |Encode(s[..m])| <= |Encode(s[..n])|
  {
    assert s[..n] == s[..m] + s[m..n];
    EncodeConcat(s[..m], s[m..n]);
  }

  lemma {:induction false} FittingIsCut(s: string, room: nat)
    ensures IsCut(s, Fitting(s, room), room)
  {
    hide EncodeChar;
    if s != [] {
      var e := EncodeChar(s[0]);
      assert s[..1][1..] == [] && s[..1][0] == s[0];
      if |e| <= room {
        FittingIsCut(s[1..], room - |e|);
        var k := Fitting(s[1..], room - |e|);
        assert s[..k + 1][1..] == s[1..][..k];
        assert k + 1 < |s| ==> s[..k + 2][1..] == s[1..][..k + 1];
      }
    }
  }

  /** A byte offset is a character boundary exactly when the bytes before it decode. */
  lemma BoundaryIff(s: string, offset: nat)
    requires offset <= |Encode(s)|
    ensures Decode(Encode(s)[..offset]).Some? <==>
            exists k :: 0 <= k <= |s| && |Encode(s[..k])| == offset
  {
    var b := Encode(s);
    if Decode(b[..offset]).Some? {
      var t := Decode(b[..offset]).value;
      EncodeInvertsDecode(b[..offset]);
      PrefixOfEncoded(t, s, b[offset..]);
      assert |Encode(s[..|t|])| == offset;
    }
    forall k | 0 <= k <= |s| && |Encode(s[..k])| == offset ensures Decode(b[..offset]).Some? {
      EncodeConcat(s[..k], s[k..]);
      assert s == s[..k] + s[k..];
      assert b[..offset] == Encode(s[..k]);
      DecodeInvertsEncode(s[..k]);
    }
  }

  lemma {:induction false} PrefixOfEncoded(t: string, s: string, rest: seq<byte>)
    requires Encode(t) + rest == Encode(s)
    ensures |t| <= |s| && s[..|t|] == t
  {
    hide Head, EncodeChar;
    if t != [] {
      HeadOfEncoded(t[0], Encode(t[1..]) + rest);
      assert Encode(s) == EncodeChar(t[0]) + (Encode(t[1..]) + rest);
      HeadOfEncoded(t[0], []);
      assert s != [];
      HeadOfEncoded(s[0], Encode(s[1..]));
      assert t[0] == s[0];
      var n := |EncodeChar(t[0])|;
      assert Encode(s)[n..] == Encode(t[1..]) + rest;
      assert Encode(s)[n..] == Encode(s[1..]);
      PrefixOfEncoded(t[1..], s[1..], rest);
      assert s == [s[0]] + s[1..];
    }
  }

  /** Encoded lengths tell prefixes of one string apart. */
  lemma {:induction false} PrefixLengthsIncrease(s: string, j: nat, k: nat)
    requires j < k <= |s|
    ensures |Encode(s[..j])| < |Encode(s[..k])|
  {
    HeadOfEncoded(s[j], []);
    assert s[..k] == s[..j] + s[j..k];
    EncodeConcat(s[..j], s[j..k]);
    assert Encode(s[j..k]) == EncodeChar(s[j]) + Encode(s[j..k][1..]);
  }

  lemma {:induction false} BytesAtLeastCharacters(s: string)
    ensures |Encode(s)| >= |s|
  {
    if s != "" {
      HeadOfEncoded(s[0], []);
      BytesAtLeastCharacters(s[1..]);
    }
  }

  /** Examples of section 7 of RFC 3629: one, two, three and four bytes. */
  lemma Examples()
    ensures Encode("A\U{2262}\U{391}.") == [0x41, 0xE2, 0x89, 0xA2, 0xCE, 0x91, 0x2E]
    ensures Encode("\U{233B4}") == [0xF0, 0xA3, 0x8E, 0xB4]
  {
    EncodedFirst('A', "\U{2262}\U{391}.");
    EncodedFirst('\U{2262}', "\U{391}.");
    EncodedFirst('\U{391}', ".");
    EncodedFirst('.', "");
    EncodedFirst('\U{233B4}', "");
  }

  lemma EncodedFirst(c: char, rest: string)
    ensures Encode([c] + rest) == EncodeChar(c) + Encode(rest)
  {
    assert ([c] + rest)[1..] == rest;
  }
}
