/**
 * Export naming (services/download.ts): the file extension guessed from a
 * data URL, file-name sanitising, the name of a single downloaded image, and
 * the files of a collection archive. The archive itself (JSZip), object URLs
 * and anchor clicks are not modelled; the archive is the list of files put
 * into it, plus its download name.
 */
module Download {
  import opened Wrappers
  import opened Types
  import opened Strings
  import Codec

  /** `getExtension`: the JPEG test comes first, then WebP, else PNG. It scans the whole URL. */
  function GetExtension(dataUrl: string): (r: string)
    ensures r == "jpg" || r == "webp" || r == "png"
    ensures r == "jpg" <==> Contains(dataUrl, "image/jpeg") || Contains(dataUrl, "image/jpg")
    ensures r == "webp" <==> !Contains(dataUrl, "image/jpeg") && !Contains(dataUrl, "image/jpg") && Contains(dataUrl, "image/webp")
  {
    if Contains(dataUrl, "image/jpeg") || Contains(dataUrl, "image/jpg") then "jpg"
    else if Contains(dataUrl, "image/webp") then "webp"
    else "png"
  }

  /** An occurrence of a comma-free text in `a + b`, where `a` ends with a comma, lies in `a` or in `b`. */
  lemma ContainsAcrossComma(a: string, b: string, part: string)
    requires a != [] && a[|a| - 1] == ',' && ',' !in part
    requires Contains(a + b, part)
    ensures Contains(a, part) || Contains(b, part)
  {
    var s := a + b;
    var i := ContainsOccurs(s, part);
    assert forall j :: i <= j < i + |part| ==> s[j] == part[j - i];
    assert s[|a| - 1] == ',';
    if i + |part| <= |a| {
      assert a[i..i + |part|] == s[i..i + |part|];
      ContainsAt(a, part, i);
    } else if i >= |a| {
      assert b[i - |a|..i - |a| + |part|] == s[i..i + |part|];
      ContainsAt(b, part, i - |a|);
    } else {
    }
  }

  /** The standard header of a data URL with type `mime`. */
  function Header(mime: string): string {
    "data:" + mime + ";base64,"
  }

  /** A JPEG data URL gets "jpg", whatever its payload. */
  lemma JpegExtension(mime: string, payload: string)
    requires mime == "image/jpeg" || mime == "image/jpg"
    ensures GetExtension(Header(mime) + payload) == "jpg"
  {
    var s := Header(mime) + payload;
    assert s[5..5 + |mime|] == mime;
    ContainsAt(s, mime, 5);
  }

  /** The header of a WebP or PNG data URL names no other of the three types. */
  lemma HeaderNames(mime: string, part: string)
    requires mime == "image/webp" || mime == "image/png"
    requires part == "image/jpeg" || part == "image/jpg" || (part == "image/webp" && mime == "image/png")
    ensures !Contains(Header(mime), part)
  {
    var h := Header(mime);
    forall i: nat
      ensures !OccursAt(h, part, i)
    {
      if i + |part| <= |h| {
        var w := h[i..i + |part|];
        assert w[0] == h[i] && w[6] == h[i + 6];
      }
    }
    NotContains(h, part);
  }

  /**
   * A WebP or PNG data URL gets its own extension, provided the payload does
   * not itself spell out another image type (the test scans the payload too).
   */
  lemma WebpOrPngExtension(mime: string, payload: string)
    requires mime == "image/webp" || mime == "image/png"
    requires !Contains(payload, "image/jpeg") && !Contains(payload, "image/jpg")
    requires mime == "image/png" ==> !Contains(payload, "image/webp")
    ensures GetExtension(Header(mime) + payload) == (if mime == "image/webp" then "webp" else "png")
  {
    var h := Header(mime);
    var s := h + payload;
    HeaderNames(mime, "image/jpeg");
    HeaderNames(mime, "image/jpg");
    if Contains(s, "image/jpeg") {
      ContainsAcrossComma(h, payload, "image/jpeg");
    }
    if Contains(s, "image/jpg") {
      ContainsAcrossComma(h, payload, "image/jpg");
    }
    if mime == "image/webp" {
      assert s[5..15] == "image/webp";
      ContainsAt(s, "image/webp", 5);
    } else {
      HeaderNames(mime, "image/webp");
      if Contains(s, "image/webp") {
        ContainsAcrossComma(h, payload, "image/webp");
      }
    }
  }

  /** The characters `sanitizeFileName` replaces: `< > : " / \ | ? *`. */
  predicate IsForbidden(c: char) {
    c == '<' || c == '>' || c == ':' || c == '"' || c == '/' || c == '\\' || c == '|' || c == '?' || c == '*'
  }

  /** `name.replace(/[<>:"/\\|?*]/g, '_')`. */
  function ReplaceForbidden(name: string): (r: string)
    ensures |r| == |name|
    ensures forall i :: 0 <= i < |name| ==> r[i] == (if IsForbidden(name[i]) then '_' else name[i])
  {
    if name == [] then []
    else [if IsForbidden(name[0]) then '_' else name[0]] + ReplaceForbidden(name[1..])
  }

  /** No character of `s` is forbidden in a file name. */
  predicate NoForbidden(s: string) {
    forall i :: 0 <= i < |s| ==> !IsForbidden(s[i])
  }

  /** The replacement leaves no forbidden character. */
  lemma ReplacedIsPlain(name: string)
    ensures NoForbidden(ReplaceForbidden(name))
  {
    var r := ReplaceForbidden(name);
    forall i | 0 <= i < |r|
      ensures !IsForbidden(r[i])
    {
      assert r[i] == (if IsForbidden(name[i]) then '_' else name[i]);
    }
  }

  /** A text made of characters of a plain text is plain. */
  lemma NoForbiddenWithin(s: string, r: string)
    requires NoForbidden(s)
    requires forall c :: c in r ==> c in s
    ensures NoForbidden(r)
  {
    forall i | 0 <= i < |r|
      ensures !IsForbidden(r[i])
    {
      assert r[i] in s;
      var j :| 0 <= j < |s| && s[j] == r[i];
    }
  }

  lemma NoForbiddenAppend(a: string, b: string)
    requires NoForbidden(a) && NoForbidden(b)
    ensures NoForbidden(a + b)
  {
    assert forall i :: |a| <= i < |a + b| ==> (a + b)[i] == b[i - |a|];
  }

  /** `sanitizeFileName`: forbidden characters become `_`, then surrounding whitespace goes. */
  function SanitizeFileName(name: string): (r: string)
    ensures NoForbidden(r)
    ensures IsTrimmed(r)
    ensures |r| <= |name|
  {
    var replaced := ReplaceForbidden(name);
    ReplacedIsPlain(name);
    var r := Trim(replaced);
    NoForbiddenWithin(replaced, r);
    r
  }

  /** Sanitising a sanitised name changes nothing. */
  lemma SanitizeIdempotent(name: string)
    ensures SanitizeFileName(SanitizeFileName(name)) == SanitizeFileName(name)
  {
    var once := SanitizeFileName(name);
    assert ReplaceForbidden(once) == once;
  }

  /** The ASCII upper case of a character (what `toUpperCase` does to the view names' letters). */
  function UpperAscii(c: char): (u: char)
    ensures 'a' <= c <= 'z' ==> 'A' <= u <= 'Z' && u as int == c as int - 32
    ensures !('a' <= c <= 'z') ==> u == c
  {
    if 'a' <= c <= 'z' then (c as int - 32) as char else c
  }

  /** `view.charAt(0).toUpperCase() + view.slice(1)`. */
  function Capitalize(s: string): (r: string)
    ensures |r| == |s|
    ensures s != [] ==> r[0] == UpperAscii(s[0]) && r[1..] == s[1..]
  {
    if s == [] then [] else [UpperAscii(s[0])] + s[1..]
  }

  /** The label of a view in a single download's name. */
  function ViewLabel(t: TabId): string {
    Capitalize(TabName(t))
  }

  lemma ViewLabels()
    ensures ViewLabel(Frontal) == "Frontal" && ViewLabel(Back) == "Back" && ViewLabel(Base) == "Base"
  {
    assert Capitalize("frontal") == "Frontal";
    assert Capitalize("back") == "Back";
    assert Capitalize("base") == "Base";
  }

  /** The three possible extensions hold no forbidden character. */
  lemma ExtensionIsPlain(dataUrl: string)
    ensures NoForbidden(GetExtension(dataUrl)) && '.' !in GetExtension(dataUrl)
  {
  }

  /** A view's label is one of three words. */
  lemma LabelWords(t: TabId)
    ensures var l := ViewLabel(t); l == "Frontal" || l == "Back" || l == "Base"
  {
    ViewLabels();
  }

  /** `a + m + e` starts with `a`, has `m` in the middle and ends with `e`. */
  lemma PartsOfName(a: string, m: string, e: string)
    ensures StartsWith(a + m + e, a)
    ensures (a + m + e)[|a + m + e| - |e|..] == e
    ensures (a + m + e)[|a|..|a + m + e| - |e|] == m
  {
    var r := a + m + e;
    assert r[..|a|] == a;
    assert r == (a + m) + e;
  }

  /** A name made of allowed pieces is allowed. */
  lemma NoForbiddenJoin(a: string, m: string, e: string)
    requires NoForbidden(a) && NoForbidden(m) && NoForbidden(e)
    ensures NoForbidden(a + m + e)
  {
    NoForbiddenAppend(a, m);
    NoForbiddenAppend(a + m, e);
  }

  /** A plain name, " - ", a label and a dotted extension make a plain name. */
  lemma SingleNameIsPlain(safe: string, viewLabel: string, ext: string)
    requires NoForbidden(safe)
    requires viewLabel == "Frontal" || viewLabel == "Back" || viewLabel == "Base"
    requires ext == "jpg" || ext == "webp" || ext == "png"
    ensures NoForbidden(safe + " - " + viewLabel + "." + ext)
  {
    assert NoForbidden(" - " + viewLabel) && NoForbidden("." + ext);
    NoForbiddenJoin(safe, " - " + viewLabel, "." + ext);
  }

  /**
   * The name `downloadSingleImage` gives the file: the sanitised miniature
   * name, " - ", the view's label, then the extension. It holds no forbidden
   * character.
   */
  function SingleImageFileName(dataUrl: string, miniName: string, view: TabId): (r: string)
    ensures NoForbidden(r)
  {
    var safeName := SanitizeFileName(miniName);
    var ext := GetExtension(dataUrl);
    var viewLabel := ViewLabel(view);
    LabelWords(view);
    SingleNameIsPlain(safeName, viewLabel, ext);
    safeName + " - " + viewLabel + "." + ext
  }

  /**
   * The single download's name is the sanitised miniature name, then
   * " - " and the view's label, then "." and the extension.
   */
  lemma SingleImageFileNameShape(dataUrl: string, miniName: string, view: TabId)
    ensures StartsWith(SingleImageFileName(dataUrl, miniName, view), SanitizeFileName(miniName))
    ensures var r := SingleImageFileName(dataUrl, miniName, view);
      r[|r| - |GetExtension(dataUrl)| - 1..] == "." + GetExtension(dataUrl)
    ensures var r := SingleImageFileName(dataUrl, miniName, view);
      |SanitizeFileName(miniName)| <= |r| - |GetExtension(dataUrl)| - 1 &&
      r[|SanitizeFileName(miniName)|..|r| - |GetExtension(dataUrl)| - 1] == " - " + ViewLabel(view)
  {
    var safeName := SanitizeFileName(miniName);
    var ext := GetExtension(dataUrl);
    var viewLabel := ViewLabel(view);
    SingleParts(safeName, viewLabel, ext);
  }

  /** The pieces of `a + " - " + l + "." + x`, as `downloadSingleImage` joins them. */
  lemma SingleParts(a: string, l: string, x: string)
    ensures var r := a + " - " + l + "." + x;
      StartsWith(r, a) && r[|r| - |x| - 1..] == "." + x &&
      |a| <= |r| - |x| - 1 && r[|a|..|r| - |x| - 1] == " - " + l
  {
    PartsOfName(a, " - " + l, "." + x);
    assert a + " - " + l + "." + x == a + (" - " + l) + ("." + x);
  }

  /** The three views of one image and miniature are downloaded under three different names. */
  lemma SingleImageViewsDiffer(dataUrl: string, miniName: string, v1: TabId, v2: TabId)
    requires v1 != v2
    ensures SingleImageFileName(dataUrl, miniName, v1) != SingleImageFileName(dataUrl, miniName, v2)
  {
    SingleImageFileNameShape(dataUrl, miniName, v1);
    SingleImageFileNameShape(dataUrl, miniName, v2);
    ViewLabels();
    assert (" - " + ViewLabel(v1))[3..] != (" - " + ViewLabel(v2))[3..];
  }

  /** The per-view prefix of archive file names. */
  function ViewPrefix(t: TabId): (r: string)
    ensures |r| >= 3 && '.' !in r
    ensures r[2] == (match t case Frontal => '1' case Back => '2' case Base => '3')
  {
    match t
    case Frontal => "-01-Front"
    case Back => "-02-Back"
    case Base => "-03-Base"
  }

  /**
   * The numbering of a view's files: nothing when the view has a single
   * image, otherwise "-" and the one-based index, zero-padded to two digits.
   */
  function IndexSuffix(count: nat, index: nat): (r: string)
    ensures count <= 1 ==> r == ""
    ensures count > 1 ==> 3 <= |r| && r[0] == '-' && forall k :: 1 <= k < |r| ==> IsDigit(r[k])
    ensures count > 1 ==> DigitsValue(r[1..]) == index + 1
    ensures count > 1 ==> |r| == 1 + (if |NatToString(index + 1)| < 2 then 2 else |NatToString(index + 1)|)
    ensures '.' !in r
  {
    if count > 1 then
      var padded := PadStart(NatToString(index + 1), 2, '0');
      PaddedValue(index + 1);
      assert ("-" + padded)[1..] == padded;
      "-" + padded
    else ""
  }

  /** Zero-padding the decimal text of `n` to two places gives at least two digits that still denote `n`. */
  lemma PaddedValue(n: nat)
    ensures var padded := PadStart(NatToString(n), 2, '0');
      |padded| >= 2 && '.' !in padded && (forall k :: 0 <= k < |padded| ==> IsDigit(padded[k])) &&
      DigitsValue(padded) == n
  {
    var digits := NatToString(n);
    NatToStringRoundTrip(n);
    if |digits| < 2 {
      assert PadStart(digits, 2, '0') == "0" + digits;
      LeadingZeroValue(digits);
    }
  }

  /** Zero-padding to two places keeps distinct decimal texts (without leading zeros) distinct. */
  lemma PadDigitsInjective(a: string, b: string)
    requires |a| >= 1 && |b| >= 1
    requires |a| >= 2 ==> a[0] != '0'
    requires |b| >= 2 ==> b[0] != '0'
    ensures PadStart(a, 2, '0') == PadStart(b, 2, '0') ==> a == b
  {
    var pa := PadStart(a, 2, '0');
    var pb := PadStart(b, 2, '0');
    if |a| == 1 && |b| == 1 {
      assert pa[1..] == a && pb[1..] == b;
    } else if |a| == 1 {
      assert pa[0] == '0' && pb == b;
    } else if |b| == 1 {
      assert pb[0] == '0' && pa == a;
    } else {
      assert pa == a && pb == b;
    }
  }

  /** Different indexes of a view of several images get different suffixes. */
  lemma SuffixInjective(count: nat, i: nat, j: nat)
    requires count > 1 && i != j
    ensures IndexSuffix(count, i) != IndexSuffix(count, j)
  {
    var a := NatToString(i + 1);
    var b := NatToString(j + 1);
    PadDigitsInjective(a, b);
    if a == b {
      NatToStringInjective(i + 1, j + 1);
    }
    assert IndexSuffix(count, i)[1..] == PadStart(a, 2, '0');
    assert IndexSuffix(count, j)[1..] == PadStart(b, 2, '0');
  }

  /** The archive name of the `index`-th of `count` images of view `t`. */
  function EntryName(safeMiniName: string, t: TabId, count: nat, index: nat, dataUrl: string): string {
    Join([safeMiniName, ViewPrefix(t), IndexSuffix(count, index), ".", GetExtension(dataUrl)])
  }

  /** Equal texts split at their first dot have equal heads. */
  lemma FirstDot(a: string, x: string, b: string, y: string)
    requires '.' !in a && '.' !in b
    requires a + "." + x == b + "." + y
    ensures a == b
  {
    var s := a + "." + x;
    var s' := b + "." + y;
    assert s[|a|] == '.' && s'[|b|] == '.';
    assert forall k :: 0 <= k < |a| ==> s[k] == a[k];
    assert forall k :: 0 <= k < |b| ==> s'[k] == b[k];
    assert |a| == |b|;
    assert a == s[..|a|] == b;
  }

  /**
   * Names `safe + p + x + "." + e` differ when their prefixes differ at the
   * third character, or when the prefixes agree and the dot-free middles differ.
   */
  lemma NamesDiffer(safe: string, p1: string, x1: string, e1: string, p2: string, x2: string, e2: string)
    requires |p1| >= 3 && |p2| >= 3 && '.' !in x1 && '.' !in x2
    requires p1[2] != p2[2] || (p1 == p2 && x1 != x2)
    ensures safe + p1 + x1 + "." + e1 != safe + p2 + x2 + "." + e2
  {
    var n1 := safe + p1 + x1 + "." + e1;
    var n2 := safe + p2 + x2 + "." + e2;
    assert n1 == safe + (p1 + (x1 + "." + e1));
    assert n2 == safe + (p2 + (x2 + "." + e2));
    assert n1[|safe| + 2] == p1[2];
    assert n2[|safe| + 2] == p2[2];
    if p1 == p2 && n1 == n2 {
      var k := |safe + p1|;
      assert n1[k..] == x1 + "." + e1;
      assert n2[k..] == x2 + "." + e2;
      FirstDot(x1, e1, x2, e2);
    }
  }

  /**
   * Two files of one miniature never share a name: the view prefixes differ
   * at their third character, and within a view the suffixes differ.
   */
  lemma EntryNamesDiffer(safeMiniName: string, t1: TabId, n1: nat, i1: nat, u1: string,
                                               t2: TabId, n2: nat, i2: nat, u2: string)
    requires t1 != t2 || (n1 == n2 && i1 != i2 && i1 < n1 && i2 < n2)
    ensures EntryName(safeMiniName, t1, n1, i1, u1) != EntryName(safeMiniName, t2, n2, i2, u2)
  {
    if t1 == t2 {
      SuffixInjective(n1, i1, i2);
    }
    JoinFive(safeMiniName, ViewPrefix(t1), IndexSuffix(n1, i1), ".", GetExtension(u1));
    JoinFive(safeMiniName, ViewPrefix(t2), IndexSuffix(n2, i2), ".", GetExtension(u2));
    NamesDiffer(safeMiniName, ViewPrefix(t1), IndexSuffix(n1, i1), GetExtension(u1),
                ViewPrefix(t2), IndexSuffix(n2, i2), GetExtension(u2));
  }

  /** A miniature and its images by view, as `downloadCollection` takes it. */
  datatype MiniWithImages = MiniWithImages(name: string, frontal: seq<string>, back: seq<string>, base: seq<string>)

  /** A file put into the archive: its folder, its name and its contents. */
  datatype ZipEntry = ZipEntry(folder: string, name: string, blob: Blob)

  /** What the export produces: the archive's download name and its files, in the order added. */
  datatype Archive = Archive(fileName: string, entries: seq<ZipEntry>)

  /** Every data URL decodes. */
  predicate AllDecode(urls: seq<string>) {
    forall i :: 0 <= i < |urls| ==> Codec.ParseBlob(urls[i]).Some?
  }

  predicate MiniDecodes(mini: MiniWithImages) {
    AllDecode(mini.frontal) && AllDecode(mini.back) && AllDecode(mini.base)
  }

  /**
   * A loop of the export that stops at the first throw: the files each of
   * the first `n` steps adds, in order, or `None` once a step throws. A step
   * sees a context, its index and its item.
   */
  function Collect<C, T>(ctx: C, items: seq<T>, n: nat, step: (C, nat, T) -> Option<seq<ZipEntry>>): Option<seq<ZipEntry>>
    requires n <= |items|
    decreases n
  {
    if n == 0 then Some([])
    else
      match Collect(ctx, items, n - 1, step)
      case None => None
      case Some(files) =>
        match step(ctx, n - 1, items[n - 1])
        case None => None
        case Some(more) => Some(files + more)
  }

  /** Once step `n` has thrown, the later steps are not reached. */
  lemma {:induction false} CollectStops<C, T>(ctx: C, items: seq<T>, n: nat, m: nat, step: (C, nat, T) -> Option<seq<ZipEntry>>)
    requires n < m <= |items| && step(ctx, n, items[n]).None?
    ensures Collect(ctx, items, m, step).None?
    decreases m
  {
    if m > n + 1 {
      CollectStops(ctx, items, n, m - 1, step);
    }
  }

  /** A step that adds `more` extends the files gathered so far by `more`. */
  lemma CollectExtends<C, T>(ctx: C, items: seq<T>, n: nat, step: (C, nat, T) -> Option<seq<ZipEntry>>,
                             files: seq<ZipEntry>, more: seq<ZipEntry>)
    requires n < |items| && Collect(ctx, items, n, step) == Some(files)
    requires step(ctx, n, items[n]) == Some(more)
    ensures Collect(ctx, items, n + 1, step) == Some(files + more)
  {
  }

  /** The loop completes exactly when no step throws. */
  lemma {:induction false} CollectCompletes<C, T>(ctx: C, items: seq<T>, n: nat, step: (C, nat, T) -> Option<seq<ZipEntry>>)
    requires n <= |items|
    ensures Collect(ctx, items, n, step).Some? <==> forall j :: 0 <= j < n ==> step(ctx, j, items[j]).Some?
    decreases n
  {
    if n > 0 {
      CollectCompletes(ctx, items, n - 1, step);
    }
  }

  /** When every step adds one file, the `j`-th file is the one the `j`-th step adds. */
  lemma {:induction false} CollectSingles<C, T>(ctx: C, items: seq<T>, n: nat, step: (C, nat, T) -> Option<seq<ZipEntry>>)
    requires n <= |items|
    requires forall j :: 0 <= j < n && step(ctx, j, items[j]).Some? ==> |step(ctx, j, items[j]).value| == 1
    ensures Collect(ctx, items, n, step).Some? ==>
      var files := Collect(ctx, items, n, step).value;
      |files| == n &&
      forall j :: 0 <= j < n ==>
        step(ctx, j, items[j]).Some? && |step(ctx, j, items[j]).value| == 1 && files[j] == step(ctx, j, items[j]).value[0]
    decreases n
  {
    if n > 0 {
      CollectSingles(ctx, items, n - 1, step);
    }
  }

  /** What an image's file is named after: the miniature's folder name, the view and the view's image count. */
  datatype ViewContext = ViewContext(safeMiniName: string, t: TabId, count: nat)

  /** One image of a view: its file in the miniature's folder, or `None` where decoding throws. */
  function ImageFile(ctx: ViewContext, index: nat, dataUrl: string): Option<seq<ZipEntry>> {
    match Codec.ParseBlob(dataUrl)
    case None => None
    case Some(blob) => Some([ZipEntry(ctx.safeMiniName, EntryName(ctx.safeMiniName, ctx.t, ctx.count, index, dataUrl), blob)])
  }

  /** The `forEach` over one view's images. */
  function ViewFiles(safeMiniName: string, t: TabId, urls: seq<string>): Option<seq<ZipEntry>> {
    Collect(ViewContext(safeMiniName, t, |urls|), urls, |urls|, ImageFile)
  }

  /**
   * A view's files are produced exactly when every image decodes, and then the
   * `j`-th file holds the `j`-th image under the `j`-th name, in the
   * miniature's folder.
   */
  lemma ViewFilesContents(safeMiniName: string, t: TabId, urls: seq<string>)
    ensures ViewFiles(safeMiniName, t, urls).Some? <==> AllDecode(urls)
    ensures ViewFiles(safeMiniName, t, urls).Some? ==>
      var files := ViewFiles(safeMiniName, t, urls).value;
      |files| == |urls| &&
      forall j :: 0 <= j < |urls| ==>
        files[j] == ZipEntry(safeMiniName, EntryName(safeMiniName, t, |urls|, j, urls[j]), Codec.ParseBlob(urls[j]).value)
  {
    var ctx := ViewContext(safeMiniName, t, |urls|);
    CollectCompletes(ctx, urls, |urls|, ImageFile);
    CollectSingles(ctx, urls, |urls|, ImageFile);
  }

  /** No two files of `files` share a name. */
  predicate NamesDistinct(files: seq<ZipEntry>) {
    forall i, j :: 0 <= i < j < |files| ==> files[i].name != files[j].name
  }

  /** Joining two lists without a name in common keeps names distinct. */
  lemma DistinctJoin(x: seq<ZipEntry>, y: seq<ZipEntry>)
    requires NamesDistinct(x) && NamesDistinct(y)
    requires forall i, j :: 0 <= i < |x| && 0 <= j < |y| ==> x[i].name != y[j].name
    ensures NamesDistinct(x + y)
  {
    var r := x + y;
    forall i, j | 0 <= i < j < |r|
      ensures r[i].name != r[j].name
    {
      if j < |x| {
        assert r[i] == x[i] && r[j] == x[j];
      } else if i < |x| {
        assert r[i] == x[i] && r[j] == y[j - |x|];
      } else {
        assert r[i] == y[i - |x|] && r[j] == y[j - |x|];
      }
    }
  }

  /** One view's files: one per image, all in the miniature's folder, no two with the same name. */
  lemma ViewFilesDistinct(safeMiniName: string, t: TabId, urls: seq<string>)
    requires ViewFiles(safeMiniName, t, urls).Some?
    ensures var files := ViewFiles(safeMiniName, t, urls).value;
      |files| == |urls| && (forall i :: 0 <= i < |files| ==> files[i].folder == safeMiniName) && NamesDistinct(files)
  {
    ViewFilesContents(safeMiniName, t, urls);
    var files := ViewFiles(safeMiniName, t, urls).value;
    forall i, j | 0 <= i < j < |files|
      ensures files[i].name != files[j].name
    {
      EntryNamesDiffer(safeMiniName, t, |urls|, i, urls[i], t, |urls|, j, urls[j]);
    }
  }

  /** Files of two different views never share a name. */
  lemma ViewsApart(safeMiniName: string, t1: TabId, u1: seq<string>, t2: TabId, u2: seq<string>)
    requires t1 != t2
    requires ViewFiles(safeMiniName, t1, u1).Some? && ViewFiles(safeMiniName, t2, u2).Some?
    ensures var x := ViewFiles(safeMiniName, t1, u1).value;
      var y := ViewFiles(safeMiniName, t2, u2).value;
      forall i, j :: 0 <= i < |x| && 0 <= j < |y| ==> x[i].name != y[j].name
  {
    ViewFilesContents(safeMiniName, t1, u1);
    ViewFilesContents(safeMiniName, t2, u2);
    var x := ViewFiles(safeMiniName, t1, u1).value;
    var y := ViewFiles(safeMiniName, t2, u2).value;
    forall i, j | 0 <= i < |x| && 0 <= j < |y|
      ensures x[i].name != y[j].name
    {
      EntryNamesDiffer(safeMiniName, t1, |u1|, i, u1[i], t2, |u2|, j, u2[j]);
    }
  }

  /**
   * One miniature's files: its frontal, back and base blocks, one after the
   * other, in the miniature's folder; `None` once an image throws.
   */
  function MiniFiles(mini: MiniWithImages): Option<seq<ZipEntry>> {
    var safe := SanitizeFileName(mini.name);
    match ViewFiles(safe, Frontal, mini.frontal)
    case None => None
    case Some(f) =>
      match ViewFiles(safe, Back, mini.back)
      case None => None
      case Some(b) =>
        match ViewFiles(safe, Base, mini.base)
        case None => None
        case Some(g) => Some(f + b + g)
  }

  /** A miniature's files are produced exactly when all its images decode. */
  lemma MiniFilesDecode(mini: MiniWithImages)
    ensures MiniFiles(mini).Some? <==> MiniDecodes(mini)
  {
    var safe := SanitizeFileName(mini.name);
    ViewFilesContents(safe, Frontal, mini.frontal);
    ViewFilesContents(safe, Back, mini.back);
    ViewFilesContents(safe, Base, mini.base);
  }

  /**
   * A miniature's folder gets exactly one file per image, every file in that
   * folder, and no two with the same name.
   */
  lemma MiniFilesDistinct(mini: MiniWithImages)
    requires MiniFiles(mini).Some?
    ensures var files := MiniFiles(mini).value;
      |files| == |mini.frontal| + |mini.back| + |mini.base|
    ensures var files := MiniFiles(mini).value;
      forall i :: 0 <= i < |files| ==> files[i].folder == SanitizeFileName(mini.name)
    ensures NamesDistinct(MiniFiles(mini).value)
  {
    var safe := SanitizeFileName(mini.name);
    ViewFilesDistinct(safe, Frontal, mini.frontal);
    ViewFilesDistinct(safe, Back, mini.back);
    ViewFilesDistinct(safe, Base, mini.base);
    ViewsApart(safe, Frontal, mini.frontal, Back, mini.back);
    ViewsApart(safe, Frontal, mini.frontal, Base, mini.base);
    ViewsApart(safe, Back, mini.back, Base, mini.base);
    BlocksDistinct(ViewFiles(safe, Frontal, mini.frontal).value, ViewFiles(safe, Back, mini.back).value,
                   ViewFiles(safe, Base, mini.base).value, safe);
  }

  /** Three blocks of one folder with distinct names and no name in common make one such block. */
  lemma BlocksDistinct(f: seq<ZipEntry>, b: seq<ZipEntry>, g: seq<ZipEntry>, folder: string)
    requires NamesDistinct(f) && NamesDistinct(b) && NamesDistinct(g)
    requires forall i, j :: 0 <= i < |f| && 0 <= j < |b| ==> f[i].name != b[j].name
    requires forall i, j :: 0 <= i < |f| && 0 <= j < |g| ==> f[i].name != g[j].name
    requires forall i, j :: 0 <= i < |b| && 0 <= j < |g| ==> b[i].name != g[j].name
    requires forall i :: 0 <= i < |f| ==> f[i].folder == folder
    requires forall i :: 0 <= i < |b| ==> b[i].folder == folder
    requires forall i :: 0 <= i < |g| ==> g[i].folder == folder
    ensures NamesDistinct(f + b + g)
    ensures forall i :: 0 <= i < |f + b + g| ==> (f + b + g)[i].folder == folder
  {
    DistinctJoin(f, b);
    var fb := f + b;
    assert forall i :: 0 <= i < |fb| ==> fb[i] == if i < |f| then f[i] else b[i - |f|];
    DistinctJoin(fb, g);
    var files := fb + g;
    assert forall i :: 0 <= i < |files| ==> files[i] == if i < |fb| then fb[i] else g[i - |fb|];
  }

  /** One pass of the `for...of` over the miniatures. */
  function MiniStep(u: (), i: nat, mini: MiniWithImages): Option<seq<ZipEntry>> {
    MiniFiles(mini)
  }

  /** The files of every miniature, in list order; `None` once an image throws. */
  function CollectionFiles(minis: seq<MiniWithImages>): Option<seq<ZipEntry>> {
    Collect((), minis, |minis|, MiniStep)
  }

  /** The export produces its files exactly when every image of every miniature decodes. */
  lemma CollectionFilesDecode(minis: seq<MiniWithImages>)
    ensures CollectionFiles(minis).Some? <==> forall i :: 0 <= i < |minis| ==> MiniDecodes(minis[i])
  {
    CollectCompletes((), minis, |minis|, MiniStep);
    forall i | 0 <= i < |minis|
      ensures MiniStep((), i, minis[i]).Some? <==> MiniDecodes(minis[i])
    {
      MiniFilesDecode(minis[i]);
    }
  }

  /** A dash and a decimal text hold no forbidden character. */
  lemma StampIsPlain(stamp: string)
    requires forall k :: 0 <= k < |stamp| ==> IsDigit(stamp[k])
    ensures NoForbidden("-" + stamp)
  {
    assert forall k :: 1 <= k < |"-" + stamp| ==> ("-" + stamp)[k] == stamp[k - 1];
  }

  /** The archive's download name: the sanitised collection name, a dash, the time, ".zip". */
  function ZipName(collectionName: string, now: nat): (r: string)
    ensures NoForbidden(r)
  {
    var safe := SanitizeFileName(collectionName);
    var stamp := NatToString(now);
    StampIsPlain(stamp);
    assert NoForbidden(".zip");
    NoForbiddenJoin(safe, "-" + stamp, ".zip");
    safe + "-" + stamp + ".zip"
  }

  /** The archive's name starts with the sanitised collection name and ends with ".zip". */
  lemma ZipNameShape(collectionName: string, now: nat)
    ensures StartsWith(ZipName(collectionName, now), SanitizeFileName(collectionName))
    ensures var r := ZipName(collectionName, now); r[|r| - 4..] == ".zip"
  {
    PartsOfName(SanitizeFileName(collectionName), "-" + NatToString(now), ".zip");
  }

  /** One view's `forEach`: add a file per image; an image whose decoding throws ends it (`ok` false). */
  method AddViewFiles(safeMiniName: string, t: TabId, urls: seq<string>) returns (ok: bool, files: seq<ZipEntry>)
    ensures ok <==> ViewFiles(safeMiniName, t, urls).Some?
    ensures ok ==> ViewFiles(safeMiniName, t, urls) == Some(files)
  {
    ghost var ctx := ViewContext(safeMiniName, t, |urls|);
    files := [];
    for i := 0 to |urls|
      invariant Collect(ctx, urls, i, ImageFile) == Some(files)
    {
      var blob := Codec.DataUrlToBlob(urls[i]);
      ImageStepOutcome(ctx, urls, i, files, blob);
      if blob.None? {
        return false, files;
      }
      files := files + [ZipEntry(safeMiniName, EntryName(safeMiniName, t, |urls|, i, urls[i]), blob.value)];
    }
    ok := true;
  }

  /** What one pass of a view's `forEach` does to the files gathered so far. */
  lemma ImageStepOutcome(ctx: ViewContext, urls: seq<string>, i: nat, files: seq<ZipEntry>, blob: Option<Blob>)
    requires i < |urls| && Collect(ctx, urls, i, ImageFile) == Some(files)
    requires blob == Codec.ParseBlob(urls[i])
    ensures blob.None? ==> Collect(ctx, urls, |urls|, ImageFile).None?
    ensures blob.Some? ==> Collect(ctx, urls, i + 1, ImageFile) == Some(files + [ZipEntry(ctx.safeMiniName,
      EntryName(ctx.safeMiniName, ctx.t, ctx.count, i, urls[i]), blob.value)])
  {
    if blob.None? {
      CollectStops(ctx, urls, i, |urls|, ImageFile);
    }
  }

  /** One pass of the `for...of`: the miniature's folder name, then its frontal, back and base blocks. */
  method AddMiniFiles(mini: MiniWithImages) returns (ok: bool, files: seq<ZipEntry>)
    ensures ok <==> MiniFiles(mini).Some?
    ensures ok ==> MiniFiles(mini) == Some(files)
  {
    var safeMiniName := SanitizeFileName(mini.name);
    var ok1, front := AddViewFiles(safeMiniName, Frontal, mini.frontal);
    if !ok1 {
      return false, [];
    }
    var ok2, back := AddViewFiles(safeMiniName, Back, mini.back);
    if !ok2 {
      return false, [];
    }
    var ok3, base := AddViewFiles(safeMiniName, Base, mini.base);
    if !ok3 {
      return false, [];
    }
    return true, front + back + base;
  }

  /**
   * `downloadCollection`: for each miniature, the files of its frontal, back
   * and base images in its folder; then the archive name. `None` where the
   * export rejects because an image does not decode.
   */
  method DownloadCollection(collectionName: string, minis: seq<MiniWithImages>, now: nat)
    returns (r: Option<Archive>)
    ensures r.Some? <==> CollectionFiles(minis).Some?
    ensures r.Some? ==> r.value.fileName == ZipName(collectionName, now)
    ensures r.Some? ==> r.value.entries == CollectionFiles(minis).value
  {
    var entries := AddCollectionFiles(minis);
    if entries.None? {
      return None;
    }
    var fileName := ZipName(collectionName, now);
    r := Some(Archive(fileName, entries.value));
  }

  /** The `for...of` loop over the miniatures, stopping at the first image that throws. */
  method AddCollectionFiles(minis: seq<MiniWithImages>) returns (r: Option<seq<ZipEntry>>)
    ensures r == CollectionFiles(minis)
  {
    var entries: seq<ZipEntry> := [];
    for m := 0 to |minis|
      invariant Collect((), minis, m, MiniStep) == Some(entries)
    {
      var ok, files := AddMiniFiles(minis[m]);
      MiniStepOutcome(minis, m, entries, ok, files);
      if !ok {
        return None;
      }
      entries := entries + files;
    }
    return Some(entries);
  }

  /** What one pass of the loop over the miniatures does to the files gathered so far. */
  lemma MiniStepOutcome(minis: seq<MiniWithImages>, m: nat, entries: seq<ZipEntry>, ok: bool, files: seq<ZipEntry>)
    requires m < |minis| && Collect((), minis, m, MiniStep) == Some(entries)
    requires ok <==> MiniFiles(minis[m]).Some?
    requires ok ==> MiniFiles(minis[m]) == Some(files)
    ensures !ok ==> Collect((), minis, |minis|, MiniStep).None?
    ensures ok ==> Collect((), minis, m + 1, MiniStep) == Some(entries + files)
  {
    assert MiniStep((), m, minis[m]) == MiniFiles(minis[m]);
    if !ok {
      CollectStops((), minis, m, |minis|, MiniStep);
    } else {
      CollectExtends((), minis, m, MiniStep, entries, files);
    }
  }
}
