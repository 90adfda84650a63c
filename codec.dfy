/**
 * Data URLs to binary objects (`dataUrlToBlob` in services/db.ts, repeated
 * with the same behaviour in services/download.ts), and the header parsing
 * the generation client shares with it: `split(",")` and the regular
 * expression `/:(.*?);/`.
 */
module Codec {
  import opened Wrappers
  import opened Types
  import opened Strings
  import Base64

  /** The first two pieces of `s.split(",")`: the header, and the payload (absent without a comma). */
  datatype Pieces = Pieces(header: string, data: Option<string>)

  function SplitComma(s: string): (p: Pieces)
    ensures ',' !in p.header
    ensures p.data.None? <==> ',' !in s
    ensures p.data.Some? ==> ',' !in p.data.value
    ensures p.data.Some? ==> StartsWith(s, p.header + "," + p.data.value)
    ensures p.data.None? ==> p.header == s
    ensures p.data.Some? ==> var end := |p.header| + 1 + |p.data.value|; end == |s| || s[end] == ','
  {
    match IndexOf(s, ',')
    case None => Pieces(s, None)
    case Some(i) =>
      var rest := s[i + 1..];
      var data := match IndexOf(rest, ',') case None => rest case Some(j) => rest[..j];
      assert s[..i + 1 + |data|] == s[..i] + "," + data;
      assert i + 1 + |data| < |s| ==> s[i + 1 + |data|] == rest[|data|];
      Pieces(s[..i], Some(data))
  }

  /** The characters the regular-expression wildcard `.` does not match. */
  predicate IsLineTerminator(c: char) {
    c == '\n' || c == '\r' || c == '\U{2028}' || c == '\U{2029}'
  }

  predicate NoLineTerminator(s: string) {
    forall i :: 0 <= i < |s| ==> !IsLineTerminator(s[i])
  }

  /**
   * The group captured by `/:(.*?);/` on `h`: the search tries each `:` from
   * the left; from one, the lazy group runs to the next `;` unless a line
   * terminator comes first, in which case the search moves on.
   */
  function MimeMatch(h: string): (r: Option<string>)
    ensures r.Some? ==> ';' !in r.value && NoLineTerminator(r.value)
    decreases |h|
  {
    match IndexOf(h, ':')
    case None => None
    case Some(p) =>
      var rest := h[p + 1..];
      match IndexOf(rest, ';')
      case None => None
      case Some(q) =>
        if NoLineTerminator(rest[..q]) then Some(rest[..q]) else MimeMatch(rest)
  }

  /** The MIME type named by a data-URL header, `"image/png"` when the pattern does not match. */
  function MimeOf(header: string): string {
    MimeMatch(header).GetOr("image/png")
  }

  /** Without a `:` followed somewhere by a `;`, the type falls back to PNG. */
  lemma {:induction false} MimeFallback(h: string)
    requires forall i, j :: 0 <= i < j < |h| && h[i] == ':' ==> h[j] != ';'
    ensures MimeOf(h) == "image/png"
    decreases |h|
  {
    match IndexOf(h, ':')
    case None =>
    case Some(p) =>
      var rest := h[p + 1..];
      assert forall j :: 0 <= j < |rest| ==> rest[j] == h[p + 1 + j];
      assert ';' !in rest;
  }

  /** The type is the text from the first `:` to the next `;`, when no line break intervenes. */
  lemma MimeBetween(h: string, p: nat, q: nat)
    requires p < q < |h| && h[p] == ':' && h[q] == ';'
    requires ':' !in h[..p] && ';' !in h[p + 1..q]
    requires NoLineTerminator(h[p + 1..q])
    ensures MimeOf(h) == h[p + 1..q]
  {
    assert h[..p] == h[..p] && IndexOf(h, ':') == Some(p);
    var rest := h[p + 1..];
    assert rest[..q - p - 1] == h[p + 1..q];
    assert IndexOf(rest, ';') == Some(q - p - 1);
  }

  /** `atob("undefined")` throws: nine characters is no valid length for base64. */
  lemma UndefinedPayloadThrows()
    ensures Base64.Atob("undefined").None?
  {
    var u := "undefined";
    assert forall i :: 0 <= i < |u| ==> 'a' <= u[i] <= 'z';
    Base64.OneOverFails(u);
  }

  /** The characters a blob type may hold: U+0020 to U+007E. */
  predicate IsPrintableAscii(c: char) {
    ' ' <= c <= '~'
  }

  /** ASCII lowercase of one character. */
  function LowerAscii(c: char): (r: char)
    ensures 'A' <= c <= 'Z' ==> r as int == c as int + 32
    ensures !('A' <= c <= 'Z') ==> r == c
  {
    if 'A' <= c <= 'Z' then (c as int + 32) as char else c
  }

  /** ASCII lowercase of every character, for a string that is printable ASCII. */
  function LowerAll(t: string): (r: string)
    ensures |r| == |t| && forall i :: 0 <= i < |t| ==> r[i] == LowerAscii(t[i])
  {
    if t == [] then [] else [LowerAscii(t[0])] + LowerAll(t[1..])
  }

  /**
   * The `type` a `new Blob(parts, { type: t })` ends up with: empty when some
   * character lies outside U+0020 to U+007E, else `t` in ASCII lowercase.
   */
  function BlobType(t: string): (r: string)
    ensures (forall i :: 0 <= i < |t| ==> IsPrintableAscii(t[i])) ==>
      |r| == |t| && forall i :: 0 <= i < |t| ==> r[i] == LowerAscii(t[i])
    ensures (exists i :: 0 <= i < |t| && !IsPrintableAscii(t[i])) ==> r == ""
  {
    if forall i :: 0 <= i < |t| ==> IsPrintableAscii(t[i]) then LowerAll(t) else ""
  }

  /** A type the Blob constructor keeps as it is: printable ASCII without upper-case letters. */
  predicate IsBlobType(t: string) {
    forall i :: 0 <= i < |t| ==> IsPrintableAscii(t[i]) && !('A' <= t[i] <= 'Z')
  }

  /** The type of a blob is always one the constructor keeps, and those it keeps unchanged. */
  lemma BlobTypeNormal(t: string)
    ensures IsBlobType(BlobType(t))
    ensures IsBlobType(t) ==> BlobType(t) == t
  {
  }

  /**
   * What `dataUrlToBlob` returns: the header's MIME type, as the Blob
   * constructor normalises it, and the bytes `atob` decodes from the payload,
   * or `None` where it throws. Without a comma the payload is `undefined`,
   * which `atob` reads as the text "undefined" and rejects
   * (`UndefinedPayloadThrows`).
   */
  function ParseBlob(dataUrl: string): (r: Option<Blob>)
    ensures r.Some? ==> r.value.mime == BlobType(MimeOf(SplitComma(dataUrl).header))
    ensures r.Some? <==> SplitComma(dataUrl).data.Some? && Base64.Atob(SplitComma(dataUrl).data.value).Some?
    ensures r.Some? ==>
      var binary := Base64.Atob(SplitComma(dataUrl).data.value).value;
      |r.value.bytes| == |binary| &&
      forall i :: 0 <= i < |binary| ==> r.value.bytes[i] as int == binary[i] as int
  {
    var pieces := SplitComma(dataUrl);
    match pieces.data
    case None => None
    case Some(payload) =>
      match Base64.ForgivingDecode(payload)
      case None => None
      case Some(bytes) => Some(Blob(BlobType(MimeOf(pieces.header)), bytes))
  }

  /** `dataUrlToBlob`: decode the payload, then copy its characters' codes into a byte array. */
  method DataUrlToBlob(dataUrl: string) returns (r: Option<Blob>)
    ensures r == ParseBlob(dataUrl)
  {
    var pieces := SplitComma(dataUrl);
    var payload := pieces.data.GetOr("undefined");
    var decoded := Base64.Atob(payload);
    if decoded.None? {
      return None;
    }
    if pieces.data.None? {
      UndefinedPayloadThrows();
      assert false;
    }
    var bytes := CopyCharCodes(decoded.value);
    assert bytes == Base64.ForgivingDecode(payload).value;
    r := Some(Blob(BlobType(MimeOf(pieces.header)), bytes));
  }

  /** The loop that fills a `Uint8Array` with `binary.charCodeAt(i)` for each `i`. */
  method CopyCharCodes(binary: string) returns (r: seq<byte>)
    requires forall i :: 0 <= i < |binary| ==> binary[i] as int < 256
    ensures |r| == |binary|
    ensures forall i :: 0 <= i < |binary| ==> r[i] as int == binary[i] as int
  {
    var buffer := new byte[|binary|];
    for i := 0 to |binary|
      invariant forall j :: 0 <= j < i ==> buffer[j] as int == binary[j] as int
    {
      buffer[i] := (binary[i] as int) as byte;
    }
    r := buffer[..];
  }

  /** Whether a data URL decodes is whether `atob` accepts its payload, `undefined` standing in for a missing one. */
  lemma ParseBlobIsAtob(dataUrl: string)
    ensures ParseBlob(dataUrl).Some? <==> Base64.Atob(SplitComma(dataUrl).data.GetOr("undefined")).Some?
  {
    UndefinedPayloadThrows();
  }

  /** The data URL `readAsDataURL` writes for a blob: `data:<mime>;base64,<payload>`. */
  function StandardDataUrl(b: Blob): string {
    "data:" + b.mime + ";base64," + Base64.Encode(b.bytes)
  }

  /** A MIME type the header grammar can carry back unchanged. */
  predicate IsPlainMime(m: string) {
    ',' !in m && ';' !in m && NoLineTerminator(m)
  }

  /**
   * Parsing the data URL of a blob gives back the same type and the same
   * bytes, for a type the Blob constructor could have produced.
   */
  lemma BlobRoundTrip(b: Blob)
    requires IsPlainMime(b.mime) && IsBlobType(b.mime)
    ensures ParseBlob(StandardDataUrl(b)) == Some(b)
  {
    var enc := Base64.Encode(b.bytes);
    var url := StandardDataUrl(b);
    var header := "data:" + b.mime + ";base64";
    assert url == header + "," + enc;
    assert ',' !in enc by {
      forall i | 0 <= i < |enc|
        ensures enc[i] != ','
      {
      }
    }
    SplitHeader(header, enc);
    assert header[5 + |b.mime|] == ';';
    MimeBetween(header, 4, 5 + |b.mime|);
    assert header[5..5 + |b.mime|] == b.mime;
    BlobTypeNormal(b.mime);
    Base64.DecodeEncode(b.bytes);
  }

  /** `split(",")` of `header + "," + data` when neither part holds a comma. */
  lemma SplitHeader(header: string, data: string)
    requires ',' !in header && ',' !in data
    ensures SplitComma(header + "," + data) == Pieces(header, Some(data))
  {
    var s := header + "," + data;
    assert s[..|header|] == header;
    assert IndexOf(s, ',') == Some(|header|);
    assert s[|header| + 1..] == data;
  }
}
