/** The terminal control strings of elka.py: the CSI introducer, the fixed
    cursor and screen sequences, the SGR reset and the 256-colour foreground
    SGR `ESC [ 38 ; 5 ; n m` (ECMA-48 section 8.3.117, with the xterm
    256-colour extension). Also a parser for the two SGR forms, which is the
    inverse that the row encoder's round trip rests on. */
module Ansi {
  import opened Maybe

  const Esc: char := '\U{1B}'
  const Csi: string := [Esc, '[']
  const HideCursor: string := Csi + "?25l"
  const ShowCursor: string := Csi + "?25h"
  const Clear: string := Csi + "2J"
  const Home: string := Csi + "H"
  const Reset: string := Csi + "0m"
  /** The fixed part of a foreground colour sequence, before the number. */
  const FgPrefix: string := Csi + "38;5;"

  predicate IsDigit(c: char) {
    '0' <= c <= '9'
  }

  function DigitChar(d: nat): (c: char)
    requires d < 10
    ensures IsDigit(c) && c as int - '0' as int == d
  {
    ('0' as int + d) as char
  }

  /** Python's `str(n)` for a non-negative integer: decimal, no leading zeros. */
  function Decimal(n: nat): (s: string)
    ensures 1 <= |s|
    ensures forall k :: 0 <= k < |s| ==> IsDigit(s[k])
    ensures s[0] == '0' ==> n == 0
  {
    if n < 10 then [DigitChar(n)] else Decimal(n / 10) + [DigitChar(n % 10)]
  }

  /** The value of a string of decimal digits. */
  function DigitsValue(s: string): nat
    requires forall k :: 0 <= k < |s| ==> IsDigit(s[k])
  {
    if s == [] then 0
    else
      assert IsDigit(s[|s| - 1]);
      DigitsValue(s[..|s| - 1]) * 10 + (s[|s| - 1] as int - '0' as int)
  }

  /** Number of leading decimal digits of `s`. */
  function DigitRun(s: string): (n: nat)
    ensures n <= |s|
    ensures forall k :: 0 <= k < n ==> IsDigit(s[k])
    ensures n < |s| ==> !IsDigit(s[n])
  {
    if s == [] || !IsDigit(s[0]) then 0 else 1 + DigitRun(s[1..])
  }

  /** `color_fg(code)`: the SGR sequence selecting palette entry `code`. */
  function ColorFg(code: nat): (s: string)
    ensures |s| > |FgPrefix| && s[..|FgPrefix|] == FgPrefix && s[|s| - 1] == 'm'
  {
    FgPrefix + Decimal(code) + "m"
  }

  /** The escape sequence the row encoder emits on a change to `colour`:
      the reset when the new colour is None, `color_fg` otherwise. */
  function Sgr(colour: Option<nat>): string {
    match colour
    case None => Reset
    case Some(code) => ColorFg(code)
  }

  /** Reads one SGR sequence at the head of `s`: the colour it selects
      (None for a reset) and the number of characters it spans. Anything
      else, including an unterminated or unknown sequence, is rejected. */
  function ParseEscape(s: string): (r: Option<(Option<nat>, nat)>)
    ensures r.Some? ==> 0 < r.value.1 <= |s| && s[0] == Esc
  {
    if |s| >= |Reset| && s[..|Reset|] == Reset then
      Some((None, |Reset|))
    else if |s| >= |FgPrefix| && s[..|FgPrefix|] == FgPrefix then
      var rest := s[|FgPrefix|..];
      var n := DigitRun(rest);
      if 0 < n < |rest| && rest[n] == 'm' then
        Some((Some(DigitsValue(rest[..n])), |FgPrefix| + n + 1))
      else None
    else None
  }

  lemma {:induction false} DigitsValueOfDecimal(n: nat)
    ensures DigitsValue(Decimal(n)) == n
  {
    if n >= 10 {
      var s := Decimal(n);
      DigitsValueOfDecimal(n / 10);
      assert s[..|s| - 1] == Decimal(n / 10);
    }
  }

  lemma {:induction false} DigitRunAppend(d: string, t: string)
    requires forall k :: 0 <= k < |d| ==> IsDigit(d[k])
    requires t != [] && !IsDigit(t[0])
    ensures DigitRun(d + t) == |d|
  {
    if d != [] {
      assert (d + t)[1..] == d[1..] + t;
      DigitRunAppend(d[1..], t);
    }
  }

  /** After the foreground prefix the parser reads a run of digits and
      requires an `m` right after it. */
  lemma ParseAfterFgPrefix(tail: string)
    ensures var n := DigitRun(tail);
      ParseEscape(FgPrefix + tail) ==
        if 0 < n < |tail| && tail[n] == 'm' then Some((Some(DigitsValue(tail[..n])), |FgPrefix| + n + 1)) else None
  {
    var s := FgPrefix + tail;
    assert s[..|Reset|] != Reset by {
      assert s[2] == '3' && Reset[2] == '0';
    }
    assert s[..|FgPrefix|] == FgPrefix;
    assert s[|FgPrefix|..] == tail;
  }

  /** A foreground sequence with any non-empty run of digits parses to
      the value of those digits. */
  lemma ParseFgDigits(d: string, rest: string)
    requires d != [] && forall k :: 0 <= k < |d| ==> IsDigit(d[k])
    ensures ParseEscape(FgPrefix + (d + ("m" + rest))) == Some((Some(DigitsValue(d)), |FgPrefix| + |d| + 1))
  {
    var tail := d + ("m" + rest);
    var n := DigitRun(tail);
    assert n == |d| by {
      DigitRunAppend(d, "m" + rest);
    }
    assert tail[n] == 'm' && tail[..n] == d;
    ParseAfterFgPrefix(tail);
  }

  /** The parser reads back exactly the sequence `color_fg` writes, whatever
      follows it. */
  lemma ParseColorFg(code: nat, rest: string)
    ensures ParseEscape(ColorFg(code) + rest) == Some((Some(code), |ColorFg(code)|))
  {
    var d := Decimal(code);
    assert ColorFg(code) == FgPrefix + d + "m";
    assert ColorFg(code) + rest == FgPrefix + (d + ("m" + rest));
    assert |ColorFg(code)| == |FgPrefix| + |d| + 1;
    ParseFgDigits(d, rest);
    DigitsValueOfDecimal(code);
  }

  /** The parser reads back the reset sequence, whatever follows it. */
  lemma ParseReset(rest: string)
    ensures ParseEscape(Reset + rest) == Some((None, |Reset|))
  {
    assert (Reset + rest)[..|Reset|] == Reset;
  }

  /** Every escape the encoder emits parses back to the colour it encodes. */
  lemma ParseSgr(colour: Option<nat>, rest: string)
    ensures ParseEscape(Sgr(colour) + rest) == Some((colour, |Sgr(colour)|))
  {
    match colour
    case None => ParseReset(rest);
    case Some(code) => ParseColorFg(code, rest);
  }

  /** Number of escape characters in `s`. */
  function CountEsc(s: string): (n: nat)
    ensures n <= |s|
  {
    if s == [] then 0 else (if s[0] == Esc then 1 else 0) + CountEsc(s[1..])
  }

  lemma {:induction false} CountEscAppend(a: string, b: string)
    ensures CountEsc(a + b) == CountEsc(a) + CountEsc(b)
  {
    if a == [] {
      assert a + b == b;
    } else {
      assert (a + b)[1..] == a[1..] + b;
      CountEscAppend(a[1..], b);
    }
  }

  lemma {:induction false} CountEscNone(d: string)
    requires forall k :: 0 <= k < |d| ==> d[k] != Esc
    ensures CountEsc(d) == 0
  {
    if d != [] {
      CountEscNone(d[1..]);
    }
  }

  /** Each emitted colour or reset sequence holds exactly one escape
      character, so counting escapes counts sequences. */
  lemma SgrHasOneEsc(colour: Option<nat>)
    ensures CountEsc(Sgr(colour)) == 1
  {
    match colour
    case None =>
      assert Reset == [Esc] + "[0m";
      CountEscAppend([Esc], "[0m");
      CountEscNone("[0m");
    case Some(code) =>
      var d := Decimal(code);
      assert ColorFg(code) == [Esc] + (("[38;5;" + d) + "m");
      CountEscAppend([Esc], ("[38;5;" + d) + "m");
      CountEscAppend("[38;5;" + d, "m");
      CountEscAppend("[38;5;", d);
      CountEscNone(d);
      CountEscNone("[38;5;");
      CountEscNone("m");
  }
}
