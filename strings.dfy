/**
 * The few JavaScript string primitives the core relies on: `trim`,
 * `includes`, `String(n)` for a non-negative integer, `padStart` and
 * `substring(0, n)`. Strings are sequences of characters; JavaScript's are
 * sequences of UTF-16 code units, which coincide with characters outside the
 * supplementary planes.
 */
module Strings {
  import opened Wrappers

  /** The characters `String.prototype.trim` strips: ECMAScript's WhiteSpace and LineTerminator. */
  predicate IsJsWhitespace(c: char) {
    || c == '\t' || c == '\n' || c == '\U{000B}' || c == '\U{000C}' || c == '\r' || c == ' '
    || c == '\U{00A0}' || c == '\U{1680}' || ('\U{2000}' <= c <= '\U{200A}')
    || c == '\U{2028}' || c == '\U{2029}' || c == '\U{202F}' || c == '\U{205F}'
    || c == '\U{3000}' || c == '\U{FEFF}'
  }

  /** True when `s` neither starts nor ends with whitespace. */
  predicate IsTrimmed(s: string) {
    s == [] || (!IsJsWhitespace(s[0]) && !IsJsWhitespace(s[|s| - 1]))
  }

  /** `s` without its leading whitespace. */
  function TrimStart(s: string): (r: string)
    ensures |r| <= |s| && r == s[|s| - |r|..]
    ensures r == [] || !IsJsWhitespace(r[0])
    ensures forall i :: 0 <= i < |s| - |r| ==> IsJsWhitespace(s[i])
  {
    if s == [] || !IsJsWhitespace(s[0]) then s else TrimStart(s[1..])
  }

  /** `s` without its trailing whitespace. */
  function TrimEnd(s: string): (r: string)
    ensures |r| <= |s| && r == s[..|r|]
    ensures r == [] || !IsJsWhitespace(r[|r| - 1])
    ensures forall i :: |r| <= i < |s| ==> IsJsWhitespace(s[i])
  {
    if s == [] || !IsJsWhitespace(s[|s| - 1]) then s else TrimEnd(s[..|s| - 1])
  }

  /**
   * `s.trim()`: leading whitespace goes one character at a time, then
   * trailing whitespace. The result is trimmed, made of characters of `s`,
   * and `s` itself when `s` already is trimmed.
   */
  function Trim(s: string): (r: string)
    ensures IsTrimmed(r)
    ensures |r| <= |s|
    ensures forall c :: c in r ==> c in s
    ensures IsTrimmed(s) ==> r == s
    decreases |s|
  {
    if s == [] then s
    else if IsJsWhitespace(s[0]) then Trim(s[1..])
    else if IsJsWhitespace(s[|s| - 1]) then Trim(s[..|s| - 1])
    else s
  }

  /** Trimming strips exactly the leading whitespace, then the trailing whitespace. */
  lemma {:induction false} TrimIsStartThenEnd(s: string)
    ensures Trim(s) == TrimEnd(TrimStart(s))
    decreases |s|
  {
    if s == [] {
    } else if IsJsWhitespace(s[0]) {
      TrimIsStartThenEnd(s[1..]);
    } else if IsJsWhitespace(s[|s| - 1]) {
      var init := s[..|s| - 1];
      TrimIsStartThenEnd(init);
      assert init != [] && init[0] == s[0];
    }
  }

  /** A template literal: its pieces, in order. */
  function Join(pieces: seq<string>): (r: string)
    ensures |pieces| == 1 ==> r == pieces[0]
    decreases |pieces|
  {
    if pieces == [] then "" else Join(pieces[..|pieces| - 1]) + pieces[|pieces| - 1]
  }

  /** A five-piece template is the concatenation of its pieces. */
  lemma JoinFive(a: string, b: string, c: string, d: string, e: string)
    ensures Join([a, b, c, d, e]) == a + b + c + d + e
  {
    assert Join([a, b]) == a + b by { assert [a, b][..1] == [a]; }
    assert Join([a, b, c]) == a + b + c by { assert [a, b, c][..2] == [a, b]; }
    assert Join([a, b, c, d]) == a + b + c + d by { assert [a, b, c, d][..3] == [a, b, c]; }
    assert [a, b, c, d, e][..4] == [a, b, c, d];
  }

  /** `s.startsWith(part)`. */
  predicate StartsWith(s: string, part: string) {
    |part| <= |s| && s[..|part|] == part
  }

  /** `s.includes(part)`: `part` starts at some offset of `s`. */
  predicate Contains(s: string, part: string)
    decreases |s|
  {
    StartsWith(s, part) || (s != [] && Contains(s[1..], part))
  }

  /** `part` occurring at offset `i` of `s` is found by `Contains`. */
  lemma {:induction false} ContainsAt(s: string, part: string, i: nat)
    requires i + |part| <= |s| && s[i..i + |part|] == part
    ensures Contains(s, part)
    decreases i
  {
    if i > 0 {
      assert s[1..][i - 1..i - 1 + |part|] == part;
      ContainsAt(s[1..], part, i - 1);
    }
  }

  /** `part` occurs in `s` starting at offset `i`. */
  predicate OccursAt(s: string, part: string, i: nat) {
    i + |part| <= |s| && s[i..i + |part|] == part
  }

  /** Where `part` occurs at no offset of `s`, `Contains` finds nothing. */
  lemma {:induction false} NotContains(s: string, part: string)
    requires forall i: nat :: !OccursAt(s, part, i)
    ensures !Contains(s, part)
    decreases |s|
  {
    if |part| <= |s| {
      assert !OccursAt(s, part, 0);
      assert s[0..|part|] == s[..|part|];
    }
    if s != [] {
      forall i: nat
        ensures !OccursAt(s[1..], part, i)
      {
        assert !OccursAt(s, part, i + 1);
        if i + |part| <= |s[1..]| {
          assert s[1..][i..i + |part|] == s[i + 1..i + 1 + |part|];
        }
      }
      NotContains(s[1..], part);
    }
  }

  /** What `Contains` finds does occur at some offset. */
  lemma {:induction false} ContainsOccurs(s: string, part: string) returns (i: nat)
    requires Contains(s, part)
    ensures i + |part| <= |s| && s[i..i + |part|] == part
    decreases |s|
  {
    if StartsWith(s, part) {
      i := 0;
    } else {
      var j := ContainsOccurs(s[1..], part);
      assert s[1..][j..j + |part|] == s[j + 1..j + 1 + |part|];
      i := j + 1;
    }
  }

  predicate IsDigit(c: char) {
    '0' <= c <= '9'
  }

  function DigitChar(d: nat): (c: char)
    requires d < 10
    ensures IsDigit(c)
  {
    (('0' as int) + d) as char
  }

  function DigitValue(c: char): (d: nat)
    requires IsDigit(c)
    ensures d < 10
  {
    (c as int) - ('0' as int)
  }

  /** `String(n)` for a non-negative integer: its decimal digits, without leading zeros. */
  function NatToString(n: nat): (r: string)
    ensures |r| >= 1 && forall i :: 0 <= i < |r| ==> IsDigit(r[i])
    ensures (|r| == 1) <==> (n < 10)
    ensures (r[0] == '0') <==> (n == 0)
  {
    if n < 10 then [DigitChar(n)] else NatToString(n / 10) + [DigitChar(n % 10)]
  }

  /** The number a string of decimal digits denotes. */
  function DigitsValue(s: string): nat
    requires forall i :: 0 <= i < |s| ==> IsDigit(s[i])
  {
    if s == [] then 0 else DigitsValue(s[..|s| - 1]) * 10 + DigitValue(s[|s| - 1])
  }

  /** Reading back the decimal text of `n` gives `n`. */
  lemma {:induction false} NatToStringRoundTrip(n: nat)
    ensures DigitsValue(NatToString(n)) == n
  {
    if n >= 10 {
      var r := NatToString(n);
      var p := NatToString(n / 10);
      assert r[..|r| - 1] == p;
      NatToStringRoundTrip(n / 10);
    }
  }

  /** A leading zero does not change the number a string of digits denotes. */
  lemma {:induction false} LeadingZeroValue(s: string)
    requires forall i :: 0 <= i < |s| ==> IsDigit(s[i])
    ensures DigitsValue("0" + s) == DigitsValue(s)
    decreases |s|
  {
    if s != [] {
      var init := s[..|s| - 1];
      assert ("0" + s)[..|s|] == "0" + init;
      LeadingZeroValue(init);
    }
  }

  /** Distinct numbers have distinct decimal texts. */
  lemma NatToStringInjective(m: nat, n: nat)
    requires NatToString(m) == NatToString(n)
    ensures m == n
  {
    NatToStringRoundTrip(m);
    NatToStringRoundTrip(n);
  }

  /** `s.padStart(width, fill)` with a one-character filler. */
  function PadStart(s: string, width: nat, fill: char): (r: string)
    ensures |r| == if |s| >= width then |s| else width
    ensures r[|r| - |s|..] == s
    ensures forall i :: 0 <= i < |r| - |s| ==> r[i] == fill
  {
    if |s| >= width then s else seq(width - |s|, _ => fill) + s
  }

  /** `s.substring(0, n)`: the first `n` characters, or all of `s` when it is shorter. */
  function Prefix(s: string, n: nat): (r: string)
    ensures |r| == if |s| <= n then |s| else n
    ensures r == s[..|r|]
  {
    if |s| <= n then s else s[..n]
  }

  /** `s.indexOf(c)`: the first offset holding `c`, or `None` for JavaScript's -1. */
  function IndexOf(s: string, c: char): (r: Option<nat>)
    ensures r.None? <==> c !in s
    ensures r.Some? ==> r.value < |s| && s[r.value] == c && c !in s[..r.value]
  {
    if s == [] then None
    else if s[0] == c then Some(0)
    else
      match IndexOf(s[1..], c)
      case None => None
      case Some(i) =>
        assert s[..i + 1] == [s[0]] + s[1..][..i];
        Some(i + 1)
  }
}
