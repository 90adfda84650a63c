/**
 * Base64 as the browser's `atob` reads it: the forgiving-base64 decode of the
 * WHATWG Infra standard, over the alphabet of section 4 of RFC 4648. ASCII
 * whitespace is skipped, one or two trailing `=` are accepted when the length
 * is a multiple of four, and leftover bits of a final partial group are
 * dropped. The padded encoder of the same section (what `readAsDataURL`
 * writes) is here too, with the round trip between them.
 */
module Base64 {
  import opened Wrappers
  import opened Types

  /** ASCII whitespace: TAB, LF, FF, CR and SPACE. */
  predicate IsAsciiWhitespace(c: char) {
    c == '\t' || c == '\n' || c == '\U{000C}' || c == '\r' || c == ' '
  }

  /** A character of the base64 alphabet. */
  predicate IsBase64Char(c: char) {
    ('A' <= c <= 'Z') || ('a' <= c <= 'z') || ('0' <= c <= '9') || c == '+' || c == '/'
  }

  predicate AllBase64(s: string) {
    forall i :: 0 <= i < |s| ==> IsBase64Char(s[i])
  }

  /** The 6-bit value an alphabet character stands for. */
  function SextetOf(c: char): (n: nat)
    requires IsBase64Char(c)
    ensures n < 64
  {
    if 'A' <= c <= 'Z' then (c as int) - ('A' as int)
    else if 'a' <= c <= 'z' then (c as int) - ('a' as int) + 26
    else if '0' <= c <= '9' then (c as int) - ('0' as int) + 52
    else if c == '+' then 62
    else 63
  }

  /** The alphabet character for a 6-bit value. */
  function CharOf(n: nat): (c: char)
    requires n < 64
    ensures IsBase64Char(c) && SextetOf(c) == n
  {
    if n < 26 then (('A' as int) + n) as char
    else if n < 52 then (('a' as int) + n - 26) as char
    else if n < 62 then (('0' as int) + n - 52) as char
    else if n == 62 then '+'
    else '/'
  }

  /** Step 1: drop every ASCII whitespace character. */
  function RemoveWhitespace(s: string): (r: string)
    ensures |r| <= |s|
    ensures forall i :: 0 <= i < |r| ==> !IsAsciiWhitespace(r[i])
    ensures (forall i :: 0 <= i < |s| ==> !IsAsciiWhitespace(s[i])) ==> r == s
  {
    if s == [] then []
    else if IsAsciiWhitespace(s[0]) then RemoveWhitespace(s[1..])
    else [s[0]] + RemoveWhitespace(s[1..])
  }

  /** Step 2: when the length is a multiple of four, drop one or two trailing `=`. */
  function RemovePadding(s: string): string {
    if |s| % 4 == 0 && |s| >= 2 && s[|s| - 2..] == "==" then s[..|s| - 2]
    else if |s| % 4 == 0 && |s| >= 1 && s[|s| - 1] == '=' then s[..|s| - 1]
    else s
  }

  /** The first byte of a group, from its first two characters. */
  function Byte0(c0: char, c1: char): byte
    requires IsBase64Char(c0) && IsBase64Char(c1)
  {
    (SextetOf(c0) * 4 + SextetOf(c1) / 16) as byte
  }

  /** The second byte of a group, from its second and third characters. */
  function Byte1(c1: char, c2: char): byte
    requires IsBase64Char(c1) && IsBase64Char(c2)
  {
    ((SextetOf(c1) % 16) * 16 + SextetOf(c2) / 4) as byte
  }

  /** The third byte of a group, from its last two characters. */
  function Byte2(c2: char, c3: char): byte
    requires IsBase64Char(c2) && IsBase64Char(c3)
  {
    ((SextetOf(c2) % 4) * 64 + SextetOf(c3)) as byte
  }

  /** Step 5: every four characters give three bytes; a final two or three give one or two. */
  function DecodeChars(s: string): (r: seq<byte>)
    requires AllBase64(s) && |s| % 4 != 1
    ensures |r| == (|s| / 4) * 3 + (if |s| % 4 == 0 then 0 else |s| % 4 - 1)
  {
    if |s| == 0 then []
    else if |s| == 2 then [Byte0(s[0], s[1])]
    else if |s| == 3 then [Byte0(s[0], s[1]), Byte1(s[1], s[2])]
    else [Byte0(s[0], s[1]), Byte1(s[1], s[2]), Byte2(s[2], s[3])] + DecodeChars(s[4..])
  }

  /** The forgiving-base64 decode: the bytes, or `None` where `atob` throws. */
  function ForgivingDecode(s: string): (r: Option<seq<byte>>)
    ensures r.Some? <==>
      var d := RemovePadding(RemoveWhitespace(s));
      |d| % 4 != 1 && AllBase64(d)
  {
    var d := RemovePadding(RemoveWhitespace(s));
    if |d| % 4 == 1 then None
    else if !AllBase64(d) then None
    else Some(DecodeChars(d))
  }

  /** A text without whitespace whose length is one more than a multiple of four is rejected. */
  lemma OneOverFails(s: string)
    requires forall i :: 0 <= i < |s| ==> !IsAsciiWhitespace(s[i])
    requires |s| % 4 == 1
    ensures Atob(s).None?
  {
    assert RemoveWhitespace(s) == s;
    assert RemovePadding(s) == s;
  }

  /** `atob(s)`: the decoded bytes as a binary string, one character per byte. */
  function Atob(s: string): (r: Option<string>)
    ensures r.Some? <==> ForgivingDecode(s).Some?
    ensures r.Some? ==> |r.value| == |ForgivingDecode(s).value|
    ensures r.Some? ==> forall i :: 0 <= i < |r.value| ==>
      r.value[i] as int == ForgivingDecode(s).value[i] as int
  {
    match ForgivingDecode(s)
    case None => None
    case Some(bytes) => Some(seq(|bytes|, i requires 0 <= i < |bytes| => (bytes[i] as int) as char))
  }

  /** The four characters of a full three-byte group. */
  function EncodeGroup(b0: byte, b1: byte, b2: byte): (g: string)
    ensures |g| == 4 && AllBase64(g)
  {
    var n0, n1, n2 := b0 as int, b1 as int, b2 as int;
    [CharOf(n0 / 4), CharOf((n0 % 4) * 16 + n1 / 16), CharOf((n1 % 16) * 4 + n2 / 64), CharOf(n2 % 64)]
  }

  /** The two characters of a final one-byte group. */
  function EncodeOne(b0: byte): (r: string)
    ensures |r| == 2 && AllBase64(r)
  {
    [CharOf(b0 as int / 4), CharOf((b0 as int % 4) * 16)]
  }

  /** The three characters of a final two-byte group. */
  function EncodeTwo(b0: byte, b1: byte): (r: string)
    ensures |r| == 3 && AllBase64(r)
  {
    [CharOf(b0 as int / 4), CharOf((b0 as int % 4) * 16 + b1 as int / 16), CharOf((b1 as int % 16) * 4)]
  }

  /** Base64 text without padding: two or three characters for a final partial group. */
  function EncodeNoPad(b: seq<byte>): (r: string)
    ensures AllBase64(r)
    ensures |r| % 4 == (if |b| % 3 == 0 then 0 else |b| % 3 + 1)
  {
    if |b| == 0 then ""
    else if |b| == 1 then EncodeOne(b[0])
    else if |b| == 2 then EncodeTwo(b[0], b[1])
    else
      var g, rest := EncodeGroup(b[0], b[1], b[2]), EncodeNoPad(b[3..]);
      LengthsStep(|b|, |rest|);
      g + rest
  }

  /** Three bytes fewer leave the same remainder; four characters more leave the same remainder. */
  lemma LengthsStep(n: nat, k: nat)
    requires n >= 3
    ensures (n - 3) % 3 == n % 3
    ensures (4 + k) % 4 == k % 4
  {
  }

  /** The padding the encoder appends to `n` bytes of text. */
  function Padding(n: nat): (p: string)
    ensures p == "" || p == "=" || p == "=="
    ensures |p| == (if n % 3 == 0 then 0 else 3 - n % 3)
  {
    if n % 3 == 1 then "==" else if n % 3 == 2 then "=" else ""
  }

  /** Padded base64, as `btoa` and `readAsDataURL` write it. */
  function Encode(b: seq<byte>): (r: string)
    ensures |r| % 4 == 0
  {
    var body, pad := EncodeNoPad(b), Padding(|b|);
    PadFills(|body|, |pad|);
    body + pad
  }

  /** Padding that fills the last group up to four characters leaves a multiple of four. */
  lemma PadFills(k: nat, p: nat)
    requires k % 4 + p == 4 || (k % 4 == 0 && p == 0)
    ensures (k + p) % 4 == 0
  {
  }

  /** The first byte comes back from the first two characters written for it. */
  lemma FirstByteBack(b0: byte, b1: byte)
    ensures Byte0(CharOf(b0 as int / 4), CharOf((b0 as int % 4) * 16 + b1 as int / 16)) == b0
  {
    var x := (b0 as int % 4) * 16 + b1 as int / 16;
    assert x / 16 == b0 as int % 4;
  }

  /** The second byte comes back from the second and third characters written for it. */
  lemma SecondByteBack(b0: byte, b1: byte, b2: byte)
    ensures Byte1(CharOf((b0 as int % 4) * 16 + b1 as int / 16), CharOf((b1 as int % 16) * 4 + b2 as int / 64)) == b1
  {
    var x := (b0 as int % 4) * 16 + b1 as int / 16;
    var y := (b1 as int % 16) * 4 + b2 as int / 64;
    assert x % 16 == b1 as int / 16;
    assert y / 4 == b1 as int % 16;
  }

  /** The third byte comes back from the last two characters written for it. */
  lemma ThirdByteBack(b1: byte, b2: byte)
    ensures Byte2(CharOf((b1 as int % 16) * 4 + b2 as int / 64), CharOf(b2 as int % 64)) == b2
  {
    var y := (b1 as int % 16) * 4 + b2 as int / 64;
    assert y % 4 == b2 as int / 64;
  }

  /** A full group survives encoding and decoding. */
  lemma GroupRoundTrip(b0: byte, b1: byte, b2: byte)
    ensures DecodeChars(EncodeGroup(b0, b1, b2)) == [b0, b1, b2]
  {
    var g := EncodeGroup(b0, b1, b2);
    assert g[4..] == [];
    FirstByteBack(b0, b1);
    SecondByteBack(b0, b1, b2);
    ThirdByteBack(b1, b2);
  }

  /** A final group of one byte survives encoding and decoding. */
  lemma OneByteRoundTrip(b0: byte)
    ensures DecodeChars(EncodeNoPad([b0])) == [b0]
  {
    var e := EncodeNoPad([b0]);
    assert e == EncodeOne(b0);
    FirstByteBack(b0, 0);
  }

  /** A final group of two bytes survives encoding and decoding. */
  lemma TwoBytesRoundTrip(b0: byte, b1: byte)
    ensures DecodeChars(EncodeNoPad([b0, b1])) == [b0, b1]
  {
    var e := EncodeNoPad([b0, b1]);
    assert e == EncodeTwo(b0, b1);
    FirstByteBack(b0, b1);
    SecondByteBack(b0, b1, 0);
  }

  /** Decoding unpadded text gives back the bytes it encodes. */
  lemma {:induction false} DecodeEncodeNoPad(b: seq<byte>)
    ensures DecodeChars(EncodeNoPad(b)) == b
    decreases |b|
  {
    if |b| == 1 {
      assert b == [b[0]];
      OneByteRoundTrip(b[0]);
    } else if |b| == 2 {
      assert b == [b[0], b[1]];
      TwoBytesRoundTrip(b[0], b[1]);
    } else if |b| >= 3 {
      DecodeEncodeNoPad(b[3..]);
      GroupThenRestRoundTrip(b);
    }
  }

  /** A full group in front of text that decodes back survives encoding and decoding. */
  lemma GroupThenRestRoundTrip(b: seq<byte>)
    requires |b| >= 3 && DecodeChars(EncodeNoPad(b[3..])) == b[3..]
    ensures DecodeChars(EncodeNoPad(b)) == b
  {
    var g := EncodeGroup(b[0], b[1], b[2]);
    var rest := EncodeNoPad(b[3..]);
    assert EncodeNoPad(b) == g + rest;
    GroupRoundTrip(b[0], b[1], b[2]);
    DecodeGroupThen(g, rest);
    SplitThree(b);
  }

  lemma SplitThree<T>(s: seq<T>)
    requires |s| >= 3
    ensures s == [s[0], s[1], s[2]] + s[3..]
  {
    assert s == s[..3] + s[3..];
  }

  /** A full group in front decodes on its own, ahead of the rest. */
  lemma DecodeGroupThen(g: string, rest: string)
    requires |g| == 4 && AllBase64(g) && AllBase64(rest) && |rest| % 4 != 1
    ensures AllBase64(g + rest) && |g + rest| % 4 != 1
    ensures DecodeChars(g + rest) == DecodeChars(g) + DecodeChars(rest)
  {
    var e := g + rest;
    assert e[4..] == rest && g[4..] == [];
    assert e[0] == g[0] && e[1] == g[1] && e[2] == g[2] && e[3] == g[3];
  }

  /** Alphabet characters and `=` are not whitespace, so step 1 keeps such text whole. */
  lemma NoWhitespaceIn(body: string, pad: string)
    requires AllBase64(body) && (pad == "" || pad == "=" || pad == "==")
    ensures RemoveWhitespace(body + pad) == body + pad
  {
    var e := body + pad;
    forall i | 0 <= i < |e|
      ensures !IsAsciiWhitespace(e[i])
    {
      if i < |body| {
        assert e[i] == body[i];
      } else {
        assert e[i] == pad[i - |body|];
      }
    }
  }

  /** Step 2 strips exactly the padding the encoder wrote. */
  lemma PaddingOff(body: string, pad: string)
    requires AllBase64(body) && (pad == "" || pad == "=" || pad == "==")
    requires |body + pad| % 4 == 0 && (pad == "=" ==> |body| >= 1)
    ensures RemovePadding(body + pad) == body
  {
    var e := body + pad;
    if pad == "==" {
      assert e[..|e| - 2] == body && e[|e| - 2..] == pad;
    } else if pad == "=" {
      assert e[|e| - 2] == body[|body| - 1];
      assert e[..|e| - 1] == body;
    } else {
      assert e == body;
      if |body| >= 1 {
        assert IsBase64Char(body[|body| - 1]);
      }
    }
  }

  /** `atob` accepts what the padded encoder writes and gives back the same bytes. */
  lemma DecodeEncode(b: seq<byte>)
    ensures ForgivingDecode(Encode(b)) == Some(b)
  {
    var body := EncodeNoPad(b);
    var pad := Padding(|b|);
    assert Encode(b) == body + pad;
    NoWhitespaceIn(body, pad);
    PaddingOff(body, pad);
    DecodeEncodeNoPad(b);
  }
}
