/**
 * Choice of a file extension for a downloaded image (`infer_ext`): a recognised
 * extension at the end of the URL path wins, then the media type of the
 * Content-Type header (the text before `;`, as in section 8.3 of RFC 9110), then
 * the fallback `.jpg`.
 */
module Extension {
  import opened Wrappers
  import opened Text

  /** The alternatives of the URL pattern `\.(jpe?g|png|gif|webp|bmp|tiff?)$`, spelled out. */
  const UrlExtensions: seq<string> := [".jpg", ".jpeg", ".png", ".gif", ".webp", ".bmp", ".tif", ".tiff"]

  /** Every extension `infer_ext` can return. */
  const KnownExtensions: set<string> := {".jpg", ".jpeg", ".png", ".gif", ".webp", ".bmp", ".tif", ".tiff"}

  /** The Content-Type fallback table. */
  const MediaTypes: map<string, string> := map[
    "image/jpeg" := ".jpg",
    "image/jpg" := ".jpg",
    "image/png" := ".png",
    "image/gif" := ".gif",
    "image/webp" := ".webp",
    "image/bmp" := ".bmp",
    "image/tiff" := ".tif"
  ]

  const Fallback: string := ".jpg"

  predicate IsCut(c: char) {
    c == '?' || c == '#'
  }

  /**
   * `.*$` matches from position `k` of `s`: `.` stops at a newline and `$` matches
   * at the end or just before a final newline, so no newline may occur before the
   * last character.
   */
  predicate RestMatches(s: string, k: nat)
    requires k <= |s|
  {
    forall m :: k <= m < |s| - 1 ==> s[m] != '\n'
  }

  /** A match of `[?#].*$` starts at position `k` of `s`. */
  predicate MatchAt(s: string, k: nat) {
    k < |s| && IsCut(s[k]) && RestMatches(s, k + 1)
  }

  /** The substitution of `[?#].*$` by "", scanning for a match from position `i`. */
  function CutFrom(s: string, i: nat): string
    requires i <= |s|
    decreases |s| - i
  {
    if i == |s| then s
    else if IsCut(s[i]) && RestMatches(s, i + 1) then
      s[..i] + (if s[|s| - 1] == '\n' then "\n" else "")
    else CutFrom(s, i + 1)
  }

  /**
   * `re.sub(r"[?#].*$", "", url)`: the URL without its query and fragment
   * (sections 3.4 and 3.5 of RFC 3986).
   */
  function StripQueryAndFragment(url: string): string {
    CutFrom(url, 0)
  }

  /** Where a pattern ending in `$` must end: before a final newline, if any. */
  function BeforeFinalNewline(s: string): (r: string)
    ensures |r| <= |s|
  {
    if s != [] && s[|s| - 1] == '\n' then s[..|s| - 1] else s
  }

  /** The first of `exts` that ends the lower-cased `p`. */
  function FirstSuffix(p: string, exts: seq<string>): (r: Option<string>)
    ensures r.Some? ==> r.value in exts && EndsWith(Lower(p), r.value)
    ensures r.None? ==> forall e :: e in exts ==> !EndsWith(Lower(p), e)
  {
    if exts == [] then None
    else if EndsWith(Lower(p), exts[0]) then Some(exts[0])
    else FirstSuffix(p, exts[1..])
  }

  /**
   * `re.search(r"\.(jpe?g|png|gif|webp|bmp|tiff?)$", path, re.I)`, returning
   * `"." + m.group(1).lower()` on a match.
   */
  function UrlExtension(path: string): (ext: Option<string>)
    ensures ext.Some? ==> ext.value in KnownExtensions
    ensures ext.Some? ==> EndsWith(Lower(BeforeFinalNewline(path)), ext.value)
  {
    FirstSuffix(BeforeFinalNewline(path), UrlExtensions)
  }

  /** `s.split(";")[0]`: the text before the first `;`. */
  function BeforeSemicolon(s: string): (r: string)
    ensures |r| <= |s| && r == s[..|r|]
    ensures forall i :: 0 <= i < |r| ==> r[i] != ';'
    ensures |r| < |s| ==> s[|r|] == ';'
  {
    if s == [] || s[0] == ';' then [] else [s[0]] + BeforeSemicolon(s[1..])
  }

  /** The media type of a Content-Type value: before `;`, trimmed, lower-cased. */
  function MediaType(contentType: string): string {
    Lower(Strip(BeforeSemicolon(contentType)))
  }

  /** `infer_ext(url, content_type)`. */
  function InferExt(url: string, contentType: Option<string>): (ext: string)
    ensures ext in KnownExtensions
  {
    match UrlExtension(StripQueryAndFragment(url))
    case Some(e) => e
    case None =>
      if contentType.Some? && contentType.value != "" && MediaType(contentType.value) in MediaTypes then
        MediaTypes[MediaType(contentType.value)]
      else Fallback
  }

  /** Each known extension has its dot first and no other dot. */
  lemma DotOnlyFirst(x: string)
    requires x in KnownExtensions
    ensures x != [] && x[0] == '.'
    ensures forall i :: 0 < i < |x| ==> x[i] != '.'
  {
  }

  /** At most one known extension ends a given string. */
  lemma SuffixUnique(p: string, x: string, y: string)
    requires x in KnownExtensions && y in KnownExtensions
    requires EndsWith(p, x) && EndsWith(p, y)
    ensures x == y
  {
    DotOnlyFirst(x);
    DotOnlyFirst(y);
    assert x == p[|p| - |x|..] && y == p[|p| - |y|..];
  }

  /**
   * The URL test recognises exactly the known extensions, ignoring case: it
   * answers `x` if and only if `x` is known and ends the path (before a final
   * newline), lower-cased.
   */
  lemma UrlExtensionExactly(path: string, x: string)
    ensures UrlExtension(path) == Some(x) <==>
      x in KnownExtensions && EndsWith(Lower(BeforeFinalNewline(path)), x)
  {
    if x in KnownExtensions && EndsWith(Lower(BeforeFinalNewline(path)), x) {
      assert x in UrlExtensions;
      var r := UrlExtension(path);
      SuffixUnique(Lower(BeforeFinalNewline(path)), r.value, x);
    }
  }

  /** The scan passes over positions where no match starts. */
  lemma {:induction false} CutSkips(s: string, i: nat, j: nat)
    requires i <= j <= |s|
    requires forall k :: i <= k < j ==> !MatchAt(s, k)
    ensures CutFrom(s, i) == CutFrom(s, j)
    decreases j - i
  {
    if i < j {
      assert !MatchAt(s, i);
      CutSkips(s, i + 1, j);
    }
  }

  /**
   * The substitution cuts at the leftmost match: at the first `?` or `#` that is
   * followed by no newline other than a final one; that final newline is kept.
   * A `?` or `#` followed by a non-final newline does not match, and the scan
   * moves on to a later one.
   */
  lemma CutAtFirstMatch(s: string, j: nat)
    requires MatchAt(s, j)
    requires forall k :: 0 <= k < j ==> !MatchAt(s, k)
    ensures StripQueryAndFragment(s) == s[..j] + (if s[|s| - 1] == '\n' then "\n" else "")
  {
    CutSkips(s, 0, j);
  }

  /** Without any match the URL is left as it is. */
  lemma NoMatchUnchanged(s: string)
    requires forall k :: 0 <= k < |s| ==> !MatchAt(s, k)
    ensures StripQueryAndFragment(s) == s
  {
    CutSkips(s, 0, |s|);
  }

  /** A `?` followed by a second line does not match, so the text stays. */
  lemma MultiLineKept(s: string)
    requires s == "a?b\nc"
    ensures StripQueryAndFragment(s) == s
  {
    assert !RestMatches(s, 2) by {
      assert s[3] == '\n';
    }
    assert forall k :: 0 <= k < |s| ==> !MatchAt(s, k);
    NoMatchUnchanged(s);
  }

  /** On a later line the scan finds the `#` and cuts there. */
  lemma MultiLineCutLater(s: string)
    requires s == "a?b\nc#d"
    ensures StripQueryAndFragment(s) == "a?b\nc"
  {
    assert !RestMatches(s, 2) by {
      assert s[3] == '\n';
    }
    assert forall k :: 0 <= k < 5 ==> !MatchAt(s, k);
    assert MatchAt(s, 5);
    CutAtFirstMatch(s, 5);
  }

  /** A URL without `?` and `#` is left as it is. */
  lemma NoQueryUnchanged(url: string)
    requires forall k :: 0 <= k < |url| ==> !IsCut(url[k])
    ensures StripQueryAndFragment(url) == url
  {
    CutSkips(url, 0, |url|);
  }

  /**
   * Everything from the first `?` or `#` on is dropped, when what follows it is
   * a single line.
   */
  lemma QueryDropped(base: string, sep: char, rest: string)
    requires forall k :: 0 <= k < |base| ==> !IsCut(base[k])
    requires IsCut(sep)
    requires forall k :: 0 <= k < |rest| ==> rest[k] != '\n'
    ensures StripQueryAndFragment(base + [sep] + rest) == base
  {
    var s := base + [sep] + rest;
    CutSkips(s, 0, |base|);
    assert s[|base|] == sep;
    assert RestMatches(s, |base| + 1);
    assert s[|s| - 1] != '\n';
    assert s[..|base|] == base;
  }

  /** A string without a dot has no recognised extension. */
  lemma NoDotNoExtension(path: string)
    requires forall k :: 0 <= k < |path| ==> path[k] != '.'
    ensures UrlExtension(path) == None
  {
    var r := UrlExtension(path);
    if r.Some? {
      DotOnlyFirst(r.value);
    }
  }

  /** A recognised URL extension wins over any Content-Type. */
  lemma UrlExtensionWins(url: string, contentType: Option<string>)
    requires UrlExtension(StripQueryAndFragment(url)).Some?
    ensures InferExt(url, contentType) == UrlExtension(StripQueryAndFragment(url)).value
    ensures InferExt(url, contentType) == InferExt(url, None)
  {
  }

  /**
   * Without a URL extension, a Content-Type whose media type is in the table
   * decides; every other Content-Type, and its absence, gives `.jpg`.
   */
  lemma ContentTypeDecidesOtherwise(url: string, contentType: Option<string>)
    requires UrlExtension(StripQueryAndFragment(url)).None?
    ensures contentType.Some? && MediaType(contentType.value) in MediaTypes ==>
      InferExt(url, contentType) == MediaTypes[MediaType(contentType.value)]
    ensures (contentType.None? || MediaType(contentType.value) !in MediaTypes) ==>
      InferExt(url, contentType) == ".jpg"
  {
    if contentType.Some? && contentType.value == "" {
      assert MediaType("") == "";
    }
  }

  /** `infer_ext("http://x/y.PNG?v=2", None)` is `.png`. */
  lemma QueryStrippedExample()
    ensures InferExt("http://x/y.PNG?v=2", None) == ".png"
  {
    QueryDropped("http://x/y.PNG", '?', "v=2");
    assert "http://x/y.PNG" + ['?'] + "v=2" == "http://x/y.PNG?v=2";
    assert EndsWith(Lower("http://x/y.PNG"), ".png");
    UrlExtensionExactly("http://x/y.PNG", ".png");
  }

  /** The text before the first `;` is cut off at that `;`. */
  lemma BeforeSemicolonAt(s: string, k: nat)
    requires k < |s| && s[k] == ';'
    requires forall i :: 0 <= i < k ==> s[i] != ';'
    ensures BeforeSemicolon(s) == s[..k]
  {
  }

  /** A lower-case media type without surrounding blanks, followed by `;`, is taken as it is. */
  lemma MediaTypeBeforeParameters(s: string, k: nat)
    requires 0 < k < |s| && s[k] == ';'
    requires forall i :: 0 <= i < k ==> s[i] != ';' && !('A' <= s[i] <= 'Z')
    requires !IsSpace(s[0]) && !IsSpace(s[k - 1])
    ensures MediaType(s) == s[..k]
  {
    BeforeSemicolonAt(s, k);
    LowerUnchanged(s[..k]);
  }

  /** The media type of `image/webp; charset=binary` is `image/webp`. */
  lemma MediaTypeExample(contentType: string)
    requires contentType == "image/webp; charset=binary"
    ensures MediaType(contentType) == "image/webp"
  {
    MediaTypeBeforeParameters(contentType, 10);
    assert contentType[..10] == "image/webp";
  }

  /** `infer_ext("http://x/y", "image/webp; charset=binary")` is `.webp`. */
  lemma ContentTypeExample(url: string, contentType: string)
    requires url == "http://x/y" && contentType == "image/webp; charset=binary"
    ensures InferExt(url, Some(contentType)) == ".webp"
  {
    PlainUrl(url);
    MediaTypeExample(contentType);
  }

  /** `http://x/y` has no query, no fragment and no extension. */
  lemma PlainUrl(url: string)
    requires url == "http://x/y"
    ensures UrlExtension(StripQueryAndFragment(url)) == None
  {
    NoQueryUnchanged(url);
    NoDotNoExtension(url);
  }

  /** `infer_ext("http://x/y", None)` is `.jpg`. */
  lemma FallbackExample()
    ensures InferExt("http://x/y", None) == ".jpg"
  {
    NoQueryUnchanged("http://x/y");
    NoDotNoExtension("http://x/y");
  }

  /** `.jpeg` is kept as it is, whatever the Content-Type. */
  lemma JpegKept(contentType: Option<string>)
    ensures InferExt("http://x/y.jpeg", contentType) == ".jpeg"
  {
    NoQueryUnchanged("http://x/y.jpeg");
    assert EndsWith(Lower("http://x/y.jpeg"), ".jpeg");
    UrlExtensionExactly("http://x/y.jpeg", ".jpeg");
  }

  /** `.TIFF` becomes `.tiff`, whatever the Content-Type. */
  lemma TiffLowerCased(contentType: Option<string>)
    ensures InferExt("http://x/y.TIFF", contentType) == ".tiff"
  {
    NoQueryUnchanged("http://x/y.TIFF");
    assert EndsWith(Lower("http://x/y.TIFF"), ".tiff");
    UrlExtensionExactly("http://x/y.TIFF", ".tiff");
  }
}
