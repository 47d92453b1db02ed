/** `_terminal_safe` of `client/veetbot_client/chat.py`: the scanner that removes terminal control sequences
    from text the client prints. */
module TerminalSafe {

  const ESC: char := '\U{1B}'
  const BEL: char := '\U{07}'
  const CSI: char := '\U{9B}'
  const ST: char := '\U{9C}'

  /** The one-character openings of the C1 control strings: DCS, SOS, OSC, PM, APC. */
  const STRING_OPENERS: set<char> := {'\U{90}', '\U{98}', '\U{9D}', '\U{9E}', '\U{9F}'}

  /** The letters that open the same strings behind an escape character. */
  const STRING_MARKERS: set<char> := {']', 'P', '^', '_', 'X'}

  /** Unicode category Cc. */
  predicate IsControl(c: char) {
    c as int < 0x20 || 0x7F <= c as int <= 0x9F
  }

  predicate IsPrinted(c: char) {
    c == '\n' || c == '\t' || !IsControl(c)
  }

  predicate IsFinal(c: char) {
    0x40 <= c as int <= 0x7E
  }

  // ---- the text as a whole ----

  /** What follows the final byte of a control sequence. */
  function AfterFinal(s: string): (r: string)
    ensures |r| <= |s|
  {
    if s == "" then "" else if IsFinal(s[0]) then s[1..] else AfterFinal(s[1..])
  }

  /** What follows a control string that an escape character opened. */
  function AfterEscString(s: string): (r: string)
    ensures |r| <= |s|
  {
    if s == "" then ""
    else if s[0] == BEL then s[1..]
    else if |s| > 1 && s[0] == ESC && s[1] == '\\' then s[2..]
    else AfterEscString(s[1..])
  }

  /** What follows a control string that a C1 character opened. */
  function AfterC1String(s: string): (r: string)
    ensures |r| <= |s|
  {
    if s == "" then "" else if s[0] == BEL || s[0] == ST then s[1..] else AfterC1String(s[1..])
  }

  function Safe(s: string): string
    decreases |s|
  {
    if s == "" then ""
    else if s[0] == ESC then
      if |s| == 1 then ""
      else if s[1] == '[' then Safe(AfterFinal(s[2..]))
      else if s[1] in STRING_MARKERS then Safe(AfterEscString(s[2..]))
      else Safe(s[2..])
    else if s[0] == CSI then Safe(AfterFinal(s[1..]))
    else if s[0] in STRING_OPENERS then Safe(AfterC1String(s[1..]))
    else (if IsPrinted(s[0]) then [s[0]] else "") + Safe(s[1..])
  }

  // ---- the scanner ----

  method SkipFinal(value: string, from: nat) returns (index: nat)
    requires from <= |value|
    ensures from <= index <= |value| && value[index..] == AfterFinal(value[from..])
  {
    index := from;
    while index < |value|
      invariant from <= index <= |value| && AfterFinal(value[from..]) == AfterFinal(value[index..])
    {
      var final := value[index];
      index := index + 1;
      if IsFinal(final) {
        return;
      }
    }
  }

  method SkipEscString(value: string, from: nat) returns (index: nat)
    requires from <= |value|
    ensures from <= index <= |value| && value[index..] == AfterEscString(value[from..])
  {
    index := from;
    while index < |value|
      invariant from <= index <= |value| && AfterEscString(value[from..]) == AfterEscString(value[index..])
    {
      if value[index] == BEL {
        index := index + 1;
        return;
      }
      if index + 1 < |value| && value[index] == ESC && value[index + 1] == '\\' {
        assert value[index..][2..] == value[index + 2..];
        index := index + 2;
        return;
      }
      index := index + 1;
    }
  }

  method SkipC1String(value: string, from: nat) returns (index: nat)
    requires from <= |value|
    ensures from <= index <= |value| && value[index..] == AfterC1String(value[from..])
  {
    index := from;
    while index < |value| && value[index] != BEL && value[index] != ST
      invariant from <= index <= |value| && AfterC1String(value[from..]) == AfterC1String(value[index..])
    {
      index := index + 1;
    }
    if index < |value| {
      index := index + 1;
    }
  }

  /** `_terminal_safe` */
  method TerminalSafe(value: string) returns (result: string)
    ensures result == Safe(value)
  {
    hide AfterFinal, AfterEscString, AfterC1String, IsPrinted;
    result := "";
    var index := 0;
    while index < |value|
      invariant 0 <= index <= |value| && result + Safe(value[index..]) == Safe(value)
      decreases |value| - index
    {
      var c := value[index];
      var rest := value[index..];
      assert rest[1..] == value[index + 1..];
      if c == ESC {
        index := index + 1;
        if index >= |value| {
          break;
        }
        var marker := value[index];
        index := index + 1;
        assert rest[2..] == value[index..] && rest[1] == marker;
        if marker == '[' {
          index := SkipFinal(value, index);
        } else if marker in STRING_MARKERS {
          index := SkipEscString(value, index);
        }
        continue;
      }
      if c == CSI {
        index := SkipFinal(value, index + 1);
        continue;
      }
      if c in STRING_OPENERS {
        index := SkipC1String(value, index + 1);
        continue;
      }
      if IsPrinted(c) {
        assert result + ([c] + Safe(value[index + 1..])) == result + [c] + Safe(value[index + 1..]);
        result := result + [c];
      } else {
        assert "" + Safe(value[index + 1..]) == Safe(value[index + 1..]);
      }
      index := index + 1;
    }
  }

  // ---- what it guarantees ----

  predicate AllPrinted(s: string) {
    forall i | 0 <= i < |s| :: IsPrinted(s[i])
  }

  /** Nothing that could begin a control sequence is ever printed: no control character at all is left,
      apart from line feeds and tabs. */
  lemma {:induction false} SafeIsPrinted(s: string)
    ensures AllPrinted(Safe(s))
    decreases |s|
  {
    if s != "" {
      if s[0] == ESC {
        if |s| > 1 {
          SafeIsPrinted(if s[1] == '[' then AfterFinal(s[2..])
                        else if s[1] in STRING_MARKERS then AfterEscString(s[2..]) else s[2..]);
        }
      } else if s[0] == CSI {
        SafeIsPrinted(AfterFinal(s[1..]));
      } else if s[0] in STRING_OPENERS {
        SafeIsPrinted(AfterC1String(s[1..]));
      } else {
        SafeIsPrinted(s[1..]);
      }
    }
  }

  lemma {:induction false} PrintedStays(before: string, rest: string)
    requires AllPrinted(before)
    ensures Safe(before + rest) == before + Safe(rest)
    decreases |before|
  {
    if before == "" {
      assert before + rest == rest;
    } else {
      assert (before + rest)[1..] == before[1..] + rest;
      PrintedStays(before[1..], rest);
      assert before == [before[0]] + before[1..];
      assert [before[0]] + (before[1..] + Safe(rest)) == before + Safe(rest);
    }
  }

  /** Text is passed through unchanged exactly when it holds no such character; and a second pass over any
      text finds nothing more to remove. */
  lemma UnchangedIff(s: string)
    ensures Safe(s) == s <==> AllPrinted(s)
    ensures Safe(Safe(s)) == Safe(s)
  {
    SafeIsPrinted(s);
    forall t | AllPrinted(t) ensures Safe(t) == t {
      PrintedStays(t, "");
      assert t + "" == t;
    }
  }

  // ---- control sequences ----

  /** CSI, as one character or two, parameters, and a final byte from `@` to `~`. */
  predicate IsCsi(q: string) {
    && Opening(q) > 0 && q[..Opening(q)] in {"\U{9B}", "\U{1B}["}
    && Opening(q) < |q| && '@' <= q[|q| - 1] <= '~'
    && forall i | Opening(q) <= i < |q| - 1 :: !('@' <= q[i] <= '~')
  }

  /** How many characters open a sequence. */
  function Opening(q: string): (n: nat)
    ensures n <= |q|
  {
    if q == "" then 0 else if q[0] == '\U{1B}' && |q| > 1 then 2 else 1
  }

  /** A control string opened by DCS, SOS, OSC, PM or APC, up to the first BEL or ST. */
  predicate IsC1String(q: string) {
    && |q| > 1 && q[0] in {'\U{90}', '\U{98}', '\U{9D}', '\U{9E}', '\U{9F}'} && q[|q| - 1] in {'\U{07}', '\U{9C}'}
    && forall i | 0 < i < |q| - 1 :: q[i] !in {'\U{07}', '\U{9C}'}
  }

  predicate EndsAt(q: string, i: nat) {
    || (i < |q| && q[i] == '\U{07}')
    || (i + 1 < |q| && q[i] == '\U{1B}' && q[i + 1] == '\\')
  }

  /** The same opened by an escape character, up to the first BEL or escaped backslash. */
  predicate IsEscString(q: string) {
    && |q| > 2 && q[0] == '\U{1B}' && q[1] in {'P', 'X', ']', '^', '_'}
    && exists n | 2 <= n < |q| ::
         EndsAt(q, n) && |q| == n + (if q[n] == '\U{07}' then 1 else 2) && forall i | 2 <= i < n :: !EndsAt(q, i)
  }

  /** Any other escape takes one character with it. */
  predicate IsEscape(q: string) {
    |q| == 2 && q[0] == '\U{1B}' && q[1] !in {'[', 'P', 'X', ']', '^', '_'}
  }

  predicate IsSequence(q: string) {
    IsCsi(q) || IsC1String(q) || IsEscString(q) || IsEscape(q)
  }

  lemma {:induction false} FinalEnds(s: string, rest: string)
    requires s != "" && '@' <= s[|s| - 1] <= '~' && forall i | 0 <= i < |s| - 1 :: !('@' <= s[i] <= '~')
    ensures AfterFinal(s + rest) == rest
  {
    assert (s + rest)[1..] == s[1..] + rest;
    if |s| > 1 {
      FinalEnds(s[1..], rest);
    } else {
      assert s[1..] + rest == rest;
    }
  }

  lemma {:induction false} C1StringEnds(s: string, rest: string)
    requires s != "" && s[|s| - 1] in {'\U{07}', '\U{9C}'}
    requires forall i | 0 <= i < |s| - 1 :: s[i] !in {'\U{07}', '\U{9C}'}
    ensures AfterC1String(s + rest) == rest
  {
    assert (s + rest)[1..] == s[1..] + rest;
    if |s| > 1 {
      C1StringEnds(s[1..], rest);
    } else {
      assert s[1..] + rest == rest;
    }
  }

  lemma {:induction false} EscStringEnds(q: string, from: nat, n: nat, rest: string)
    requires from <= n < |q| && EndsAt(q, n) && |q| == n + (if q[n] == '\U{07}' then 1 else 2)
    requires forall i | from <= i < n :: !EndsAt(q, i)
    ensures AfterEscString(q[from..] + rest) == rest
    decreases n - from
  {
    var s := q[from..] + rest;
    if from < n {
      assert !EndsAt(q, from) && s[1..] == q[from + 1..] + rest;
      assert s[0] == q[from] && s[1] == q[from + 1];
      EscStringEnds(q, from + 1, n, rest);
    } else {
      assert s[|q| - n..] == rest;
    }
  }

  lemma CsiAtFront(q: string, rest: string)
    requires IsCsi(q)
    ensures Safe(q + rest) == Safe(rest)
  {
    hide AfterFinal;
    var n := Opening(q);
    assert (q + rest)[n..] == q[n..] + rest;
    FinalEnds(q[n..], rest);
  }

  lemma C1AtFront(q: string, rest: string)
    requires IsC1String(q)
    ensures Safe(q + rest) == Safe(rest)
  {
    hide AfterC1String;
    assert (q + rest)[1..] == q[1..] + rest;
    C1StringEnds(q[1..], rest);
  }

  lemma EscapeAtFront(q: string, rest: string)
    requires IsEscString(q) || IsEscape(q)
    ensures Safe(q + rest) == Safe(rest)
  {
    hide AfterFinal, AfterEscString, EndsAt;
    assert (q + rest)[2..] == q[2..] + rest && (q + rest)[1] == q[1];
    if IsEscString(q) {
      var n :| 2 <= n < |q| && EndsAt(q, n) && |q| == n + (if q[n] == '\U{07}' then 1 else 2)
               && forall i | 2 <= i < n :: !EndsAt(q, i);
      EscStringEnds(q, 2, n, rest);
    } else {
      assert q[2..] + rest == rest;
    }
  }

  /** Between printed text, a complete sequence disappears and takes nothing with it. */
  lemma SequenceDisappears(before: string, q: string, rest: string)
    requires AllPrinted(before) && IsSequence(q)
    ensures Safe(before + q + rest) == before + Safe(rest)
  {
    hide Safe, IsCsi, IsC1String, IsEscString, IsEscape;
    assert before + q + rest == before + (q + rest);
    PrintedStays(before, q + rest);
    if IsCsi(q) {
      CsiAtFront(q, rest);
    } else if IsC1String(q) {
      C1AtFront(q, rest);
    } else {
      EscapeAtFront(q, rest);
    }
  }

  /** A sequence that has begun and does not end. */
  predicate IsLeftOpen(q: string) {
    || q == "\U{1B}"
    || (Opening(q) > 0 && q[..Opening(q)] in {"\U{9B}", "\U{1B}["}
        && forall i | Opening(q) <= i < |q| :: !('@' <= q[i] <= '~'))
    || (q != "" && q[0] in {'\U{90}', '\U{98}', '\U{9D}', '\U{9E}', '\U{9F}'}
        && forall i | 0 < i < |q| :: q[i] !in {'\U{07}', '\U{9C}'})
    || (|q| > 1 && q[0] == '\U{1B}' && q[1] in {'P', 'X', ']', '^', '_'} && forall i | 2 <= i < |q| :: !EndsAt(q, i))
  }

  lemma {:induction false} NeverFinal(s: string)
    requires forall i | 0 <= i < |s| :: !('@' <= s[i] <= '~')
    ensures AfterFinal(s) == ""
  {
    if s != "" {
      NeverFinal(s[1..]);
    }
  }

  lemma {:induction false} C1StringLeftOpen(s: string)
    requires forall i | 0 <= i < |s| :: s[i] !in {'\U{07}', '\U{9C}'}
    ensures AfterC1String(s) == ""
  {
    if s != "" {
      C1StringLeftOpen(s[1..]);
    }
  }

  lemma {:induction false} EscStringLeftOpen(q: string, from: nat)
    requires from <= |q| && forall i | from <= i < |q| :: !EndsAt(q, i)
    ensures AfterEscString(q[from..]) == ""
    decreases |q| - from
  {
    if from < |q| {
      assert !EndsAt(q, from) && q[from..][1..] == q[from + 1..];
      EscStringLeftOpen(q, from + 1);
    }
  }

  /** A sequence left open takes the rest of the text with it. */
  lemma OpenSequenceSwallows(before: string, q: string)
    requires AllPrinted(before) && IsLeftOpen(q)
    ensures Safe(before + q) == before
  {
    hide Safe, IsLeftOpen;
    PrintedStays(before, q);
    NothingIsLeft(q);
    assert before + "" == before;
  }

  lemma NothingIsLeft(q: string)
    requires IsLeftOpen(q)
    ensures Safe(q) == ""
  {
    hide AfterFinal, AfterEscString, AfterC1String, EndsAt;
    if |q| > 1 && q[0] == '\U{1B}' {
      if q[1] == '[' {
        NeverFinal(q[2..]);
      } else {
        EscStringLeftOpen(q, 2);
      }
    } else if q[0] == '\U{9B}' {
      NeverFinal(q[1..]);
    } else if q != "\U{1B}" {
      C1StringLeftOpen(q[1..]);
    }
  }
}
