/**
 * Classification of a spreadsheet cell as a usable image URL.
 */
module UrlValidator {
  import opened Wrappers
  import opened Text

  /**
   * A cell as the downloader sees it: Python's `None`, or the text that `str()`
   * renders for the value (a float NaN renders as "nan", a bool as "True").
   */
  type Cell = Option<string>

  /** `str(value)`; `str(None)` is "None". */
  function CellText(c: Cell): string {
    match c
    case None => "None"
    case Some(s) => s
  }

  /** Cell texts that spreadsheet exports leave behind in place of a URL. */
  const NullLike: set<string> := {"", "nan", "none", "null", "na", "true", "false"}

  /** `s.strip().lower()`. */
  function Normalize(s: string): string {
    Lower(Strip(s))
  }

  predicate HasHttpScheme(s: string) {
    StartsWith(s, "http://") || StartsWith(s, "https://")
  }

  /**
   * `is_valid_url`: `None` is rejected; otherwise the trimmed, lower-cased text
   * must not be null-like and must start with `http://` or `https://`.
   */
  function IsValidUrl(cell: Cell): bool {
    if cell.None? then false
    else
      var s := Normalize(cell.value);
      if s in NullLike then false
      else StartsWith(s, "http://") || StartsWith(s, "https://")
  }

  /**
   * The null-like test never changes the verdict: a cell is valid exactly when
   * it is present and its normalized text has an http(s) scheme.
   */
  lemma IsValidUrlContract(cell: Cell)
    ensures IsValidUrl(cell) <==> cell.Some? && HasHttpScheme(Normalize(cell.value))
  {
  }

  /**
   * A valid cell's trimmed text (the URL that is fetched) starts with the
   * scheme in some mix of cases, and is non-empty.
   */
  lemma ValidCellHasScheme(cell: Cell)
    requires IsValidUrl(cell)
    ensures |Strip(CellText(cell))| >= 7
    ensures HasHttpScheme(Lower(Strip(CellText(cell))))
  {
    IsValidUrlContract(cell);
  }

  /** A missing cell is rejected. */
  lemma NoneRejected()
    ensures !IsValidUrl(None)
  {
  }

  /** A blank cell, made of whitespace only, is rejected. */
  lemma BlankRejected(s: string)
    requires forall i :: 0 <= i < |s| ==> IsSpace(s[i])
    ensures !IsValidUrl(Some(s))
  {
    assert Normalize(s) == "";
  }

  /** A word of lower-case letters is its own normal form. */
  lemma LettersNormal(w: string)
    requires forall i :: 0 <= i < |w| ==> 'a' <= w[i] <= 'z'
    ensures Normalize(w) == w
  {
    if w != [] {
      assert !IsSpace(w[0]) && !IsSpace(w[|w| - 1]);
    }
    LowerUnchanged(w);
  }

  /** The null-like words are their own normal form. */
  lemma NullLikeNormal(w: string)
    requires w in NullLike
    ensures Normalize(w) == w
  {
    assert forall i :: 0 <= i < |w| ==> 'a' <= w[i] <= 'z';
    LettersNormal(w);
  }

  /** A cell whose text is a null-like word in any mix of cases is rejected. */
  lemma NullLikeRejected(s: string)
    requires Lower(s) in NullLike
    ensures !IsValidUrl(Some(s))
  {
    UpperCaseSchemeAccepted(s);
    NullLikeNormal(Lower(s));
  }

  /** A NaN cell is rejected, whatever its case. */
  lemma NaNRejected(s: string)
    requires Lower(s) == "nan"
    ensures !IsValidUrl(Some(s))
  {
    NullLikeRejected(s);
  }

  /** A boolean cell (rendered "True" or "False") is rejected, whatever its case. */
  lemma BooleanRejected(s: string)
    requires Lower(s) == "true" || Lower(s) == "false"
    ensures !IsValidUrl(Some(s))
  {
    NullLikeRejected(s);
  }

  /** A scheme other than http(s) is rejected. */
  lemma OtherSchemeRejected()
    ensures !IsValidUrl(Some("ftp://x"))
  {
    assert Normalize("ftp://x")[0] == 'f';
  }

  /** An https URL is accepted. */
  lemma HttpsAccepted(url: string)
    requires url == "https://x/y.jpg"
    ensures IsValidUrl(Some(url))
  {
    assert Strip(url) == url;
    assert Normalize(url)[..8] == "https://";
    IsValidUrlContract(Some(url));
  }

  /**
   * The verdict depends on the cell's text only up to case: a cell is accepted
   * exactly when its lower-cased text is, so `HTTPS://` is as good as `https://`.
   */
  lemma UpperCaseSchemeAccepted(url: string)
    ensures IsValidUrl(Some(url)) == IsValidUrl(Some(Lower(url)))
  {
    LowerIdempotent(url);
    LowerStripAgree(url, Lower(url));
  }
}
