/**
 * Naming suffixes for image columns (`suffix_for_column`): `Swatch`, `Main`, or
 * the next positional `PTnn`, with the per-row counter threaded through.
 */
module Suffix {
  import opened Text
  import opened Decimal

  /** `col.strip().lower().replace("_", " ")`. */
  function NormalizeColumn(col: string): string {
    ReplaceChar(Lower(Strip(col)), '_', ' ')
  }

  /** The exact names `main image` and `image main`, or both tokens `main` and `image`. */
  predicate IsMainNamed(c: string) {
    c == "main image" || c == "image main" || ("main" in Words(c) && "image" in Words(c))
  }

  /** `f"PT{n:02d}"`. */
  function PtSuffix(n: nat): string {
    "PT" + Pad2(n)
  }

  /** The positional suffixes are those that start with `PT`. */
  predicate IsPtSuffix(s: string) {
    |s| >= 2 && s[0] == 'P' && s[1] == 'T'
  }

  /** `suffix_for_column(col, counter)`, returning the suffix and the next counter. */
  function SuffixForColumn(col: string, counter: nat): (string, nat) {
    var c := NormalizeColumn(col);
    if Contains(c, "swatch") then ("Swatch", counter)
    else if IsMainNamed(c) then ("Main", counter)
    else (PtSuffix(counter), counter + 1)
  }

  /**
   * The counter advances, by exactly one, only when a positional suffix is
   * issued for it; otherwise the suffix is `Swatch` or `Main`, and `Swatch`
   * takes precedence over `Main`.
   */
  lemma SuffixForColumnContract(col: string, counter: nat)
    ensures var r := SuffixForColumn(col, counter);
      && (IsPtSuffix(r.0) ==> r == (PtSuffix(counter), counter + 1))
      && (!IsPtSuffix(r.0) ==> r.1 == counter && (r.0 == "Swatch" || r.0 == "Main"))
      && (r.0 == "Swatch" <==> Contains(NormalizeColumn(col), "swatch"))
      && (r.0 == "Main" <==> !Contains(NormalizeColumn(col), "swatch") && IsMainNamed(NormalizeColumn(col)))
  {
    assert IsPtSuffix(PtSuffix(counter));
  }

  /** The exact-name test `c in {"main image", "image main"}` is subsumed by the token test. */
  lemma ExactMainNamesHaveBothTokens(c: string)
    requires c == "main image" || c == "image main"
    ensures "main" in Words(c) && "image" in Words(c)
  {
    if c == "main image" {
      TwoWords("main", "image");
      assert "main" + " " + "image" == c;
    } else {
      TwoWords("image", "main");
      assert "image" + " " + "main" == c;
    }
  }

  /** So the `Main` rule is exactly: both tokens `main` and `image` occur. */
  lemma MainRuleIsTokenRule(c: string)
    ensures IsMainNamed(c) <==> "main" in Words(c) && "image" in Words(c)
  {
    if c == "main image" || c == "image main" {
      ExactMainNamesHaveBothTokens(c);
    }
  }

  /** A name without the letter `n` is never a main-image name. */
  lemma WithoutNNotMain(c: string)
    requires forall i :: 0 <= i < |c| ==> c[i] != 'n'
    ensures !IsMainNamed(c)
  {
    assert "main image"[3] == 'n' && "image main"[9] == 'n';
    if "main" in Words(c) {
      WordsOccur(c, "main");
      MissingCharNotContained(c, "main", 3);
    }
  }

  /** Different counters give different positional suffixes. */
  lemma PtSuffixInjective(m: nat, n: nat)
    ensures PtSuffix(m) == PtSuffix(n) <==> m == n
  {
    assert PtSuffix(m)[2..] == Pad2(m) && PtSuffix(n)[2..] == Pad2(n);
    assert DecimalValue(Pad2(m)) == m && DecimalValue(Pad2(n)) == n;
  }

  /** A name without the letters `w` and `n` is neither a swatch nor a main-image name. */
  lemma WithoutWNPositional(c: string)
    requires forall i :: 0 <= i < |c| ==> c[i] != 'w' && c[i] != 'n'
    ensures !Contains(c, "swatch") && !IsMainNamed(c)
  {
    MissingCharNotContained(c, "swatch", 1);
    WithoutNNotMain(c);
  }

  lemma NormalizedSwatchImage(col: string)
    requires col == "Swatch Image"
    ensures NormalizeColumn(col) == "swatch image"
  {
    assert Strip(col) == col;
  }

  /** `suffix_for_column("Swatch Image", 1)` is `("Swatch", 1)`. */
  lemma SwatchExample(col: string)
    requires col == "Swatch Image"
    ensures SuffixForColumn(col, 1) == ("Swatch", 1)
  {
    NormalizedSwatchImage(col);
    assert StartsWith("swatch image", "swatch");
  }

  lemma NormalizedMainImage(col: string)
    requires col == "Main Image"
    ensures NormalizeColumn(col) == "main image"
  {
    assert Strip(col) == col;
  }

  /** `suffix_for_column("Main Image", 1)` is `("Main", 1)`. */
  lemma MainExample(col: string)
    requires col == "Main Image"
    ensures SuffixForColumn(col, 1) == ("Main", 1)
  {
    NormalizedMainImage(col);
    MissingCharNotContained("main image", "swatch", 1);
  }

  lemma NormalizedUnderscored(col: string)
    requires col == "main_image"
    ensures NormalizeColumn(col) == "main image"
  {
    assert Strip(col) == col;
  }

  /** Underscores count as spaces: `main_image` is a main-image column. */
  lemma UnderscoreExample(col: string)
    requires col == "main_image"
    ensures SuffixForColumn(col, 3) == ("Main", 3)
  {
    NormalizedUnderscored(col);
    MissingCharNotContained("main image", "swatch", 1);
  }

  lemma NormalizedSwatchMainImage(col: string)
    requires col == "Swatch Main Image"
    ensures NormalizeColumn(col) == "swatch main image"
  {
    UnpaddedNormalize(col);
  }

  /** A name without whitespace at its ends is only lower-cased and has `_` replaced. */
  lemma UnpaddedNormalize(col: string)
    requires col != [] && !IsSpace(col[0]) && !IsSpace(col[|col| - 1])
    ensures NormalizeColumn(col) == ReplaceChar(Lower(col), '_', ' ')
  {
  }

  /** `Swatch` wins over `Main`: a name that is both gives `Swatch` and keeps the counter. */
  lemma SwatchBeatsMain(col: string, counter: nat)
    requires Contains(NormalizeColumn(col), "swatch") && IsMainNamed(NormalizeColumn(col))
    ensures SuffixForColumn(col, counter) == ("Swatch", counter)
  {
    SuffixForColumnContract(col, counter);
  }

  /** `Swatch Main Image` is a swatch column. */
  lemma SwatchMainExample(col: string)
    requires col == "Swatch Main Image"
    ensures SuffixForColumn(col, 1) == ("Swatch", 1)
  {
    NormalizedSwatchMainImage(col);
    assert StartsWith("swatch main image", "swatch");
  }

  lemma NormalizedImage2(col: string)
    requires col == "Image 2"
    ensures NormalizeColumn(col) == "image 2"
  {
    assert Strip(col) == col;
  }

  /** `suffix_for_column("Image 2", 1)` is `("PT01", 2)`. */
  lemma PositionalExample(col: string)
    requires col == "Image 2"
    ensures SuffixForColumn(col, 1) == ("PT01", 2)
  {
    NormalizedImage2(col);
    WithoutWNPositional("image 2");
    assert PtSuffix(1) == "PT" + "01" == "PT01";
  }

  lemma NormalizedImage3(col: string)
    requires col == "Image 3"
    ensures NormalizeColumn(col) == "image 3"
  {
    assert Strip(col) == col;
  }

  /** `suffix_for_column("Image 3", 2)` is `("PT02", 3)`. */
  lemma SecondPositionalExample(col: string)
    requires col == "Image 3"
    ensures SuffixForColumn(col, 2) == ("PT02", 3)
  {
    NormalizedImage3(col);
    WithoutWNPositional("image 3");
    assert PtSuffix(2) == "PT" + "02" == "PT02";
  }

  lemma NormalizedHyphenated(col: string)
    requires col == "Main-Image"
    ensures NormalizeColumn(col) == "main-image"
  {
    assert Strip(col) == col;
  }

  /** `main-image` is one token, neither `main` nor `image`. */
  lemma OneTokenNotMain(c: string)
    requires c == "main-image"
    ensures !Contains(c, "swatch") && !IsMainNamed(c)
  {
    MissingCharNotContained(c, "swatch", 1);
    SingleWord(c);
    assert c[4] == '-' && "main image"[4] == ' ' && "image main"[4] == 'e';
  }

  /** `Main-Image` is a single token, so it is positional. */
  lemma HyphenatedExample(col: string)
    requires col == "Main-Image"
    ensures SuffixForColumn(col, 1) == ("PT01", 2)
  {
    NormalizedHyphenated(col);
    OneTokenNotMain(NormalizeColumn(col));
    assert PtSuffix(1) == "PT" + "01" == "PT01";
  }
}
