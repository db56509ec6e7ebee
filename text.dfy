/**
 * The handful of Python `str` operations the downloader relies on, on `string`
 * (a sequence of code points): `isspace`, `strip()`, `lower()`, `split()`,
 * `replace`, `startswith`, `endswith` and the substring test `in`.
 */
module Text {

  /** Python's `str.isspace()` for a single code point. */
  predicate IsSpace(c: char) {
    var n := c as int;
    || 0x09 <= n <= 0x0D
    || 0x1C <= n <= 0x20
    || n == 0x85 || n == 0xA0 || n == 0x1680
    || 0x2000 <= n <= 0x200A
    || n == 0x2028 || n == 0x2029 || n == 0x202F || n == 0x205F || n == 0x3000
  }

  /** Lower-casing of one character (ASCII letters only). */
  function LowerChar(c: char): char {
    if 'A' <= c <= 'Z' then (c as int - 'A' as int + 'a' as int) as char else c
  }

  /** `s.lower()`, restricted to ASCII letters. */
  function Lower(s: string): (r: string)
    ensures |r| == |s|
    ensures forall i :: 0 <= i < |s| ==> r[i] == LowerChar(s[i])
  {
    seq(|s|, i requires 0 <= i < |s| => LowerChar(s[i]))
  }

  /** `s.replace(a, b)` for single characters `a` and `b`. */
  function ReplaceChar(s: string, a: char, b: char): (r: string)
    ensures |r| == |s|
    ensures forall i :: 0 <= i < |s| ==> r[i] == (if s[i] == a then b else s[i])
  {
    seq(|s|, i requires 0 <= i < |s| => if s[i] == a then b else s[i])
  }

  /** Number of whitespace characters at the start of `s`. */
  function LeadingSpaces(s: string): (k: nat)
    ensures k <= |s|
    ensures forall i :: 0 <= i < k ==> IsSpace(s[i])
    ensures k == |s| || !IsSpace(s[k])
  {
    if s == [] || !IsSpace(s[0]) then 0 else 1 + LeadingSpaces(s[1..])
  }

  /** Number of whitespace characters at the end of `s`. */
  function TrailingSpaces(s: string): (k: nat)
    ensures k <= |s|
    ensures forall i :: |s| - k <= i < |s| ==> IsSpace(s[i])
    ensures k == |s| || !IsSpace(s[|s| - 1 - k])
  {
    if s == [] || !IsSpace(s[|s| - 1]) then 0 else 1 + TrailingSpaces(s[..|s| - 1])
  }

  /** `s.strip()`: `s` without its leading and trailing whitespace. */
  function Strip(s: string): (r: string)
    ensures |r| <= |s|
    ensures r == [] || (!IsSpace(r[0]) && !IsSpace(r[|r| - 1]))
    ensures (forall i :: 0 <= i < |s| ==> IsSpace(s[i])) ==> r == []
    ensures s != [] && !IsSpace(s[0]) && !IsSpace(s[|s| - 1]) ==> r == s
  {
    var t := s[LeadingSpaces(s)..];
    t[..|t| - TrailingSpaces(t)]
  }

  predicate StartsWith(s: string, p: string) {
    |p| <= |s| && s[..|p|] == p
  }

  predicate EndsWith(s: string, p: string) {
    |p| <= |s| && s[|s| - |p|..] == p
  }

  /** The substring test `p in s`. */
  predicate Contains(s: string, p: string)
    decreases |s|
  {
    StartsWith(s, p) || (s != [] && Contains(s[1..], p))
  }

  /** Length of the run of non-whitespace characters that starts `s`. */
  function TokenLength(s: string): (k: nat)
    ensures k <= |s|
    ensures forall i :: 0 <= i < k ==> !IsSpace(s[i])
    ensures k == |s| || IsSpace(s[k])
  {
    if s == [] || IsSpace(s[0]) then 0 else 1 + TokenLength(s[1..])
  }

  /** `s.split()`: the maximal runs of non-whitespace characters, in order. */
  function Words(s: string): (ws: seq<string>)
    ensures forall k :: 0 <= k < |ws| ==> ws[k] != []
    ensures forall k, i :: 0 <= k < |ws| && 0 <= i < |ws[k]| ==> !IsSpace(ws[k][i])
    decreases |s|
  {
    if s == [] then []
    else if IsSpace(s[0]) then Words(s[1..])
    else
      var k := TokenLength(s);
      [s[..k]] + Words(s[k..])
  }

  /** Text without upper-case ASCII letters is its own lower-casing. */
  lemma LowerUnchanged(s: string)
    requires forall i :: 0 <= i < |s| ==> !('A' <= s[i] <= 'Z')
    ensures Lower(s) == s
  {
  }

  /** Two strings with whitespace at the same positions have as much of it at each end. */
  lemma SameSpaceEnds(s: string, t: string)
    requires |s| == |t|
    requires forall i :: 0 <= i < |s| ==> IsSpace(s[i]) == IsSpace(t[i])
    ensures LeadingSpaces(s) == LeadingSpaces(t)
    ensures TrailingSpaces(s) == TrailingSpaces(t)
  {
  }

  /** Strings with whitespace at the same positions are stripped to the same span. */
  lemma SameSpaceStrip(s: string, t: string)
    requires |s| == |t|
    requires forall i :: 0 <= i < |s| ==> IsSpace(s[i]) == IsSpace(t[i])
    ensures LeadingSpaces(s) == LeadingSpaces(t)
    ensures |Strip(s)| == |Strip(t)|
  {
    SameSpaceEnds(s, t);
    StripExactly(s);
    StripExactly(t);
  }

  /** Lower-casing neither makes nor removes whitespace. */
  lemma LowerSameSpaces(s: string, t: string)
    requires Lower(s) == Lower(t)
    ensures |s| == |t|
    ensures forall i :: 0 <= i < |s| ==> IsSpace(s[i]) == IsSpace(t[i])
  {
    forall i | 0 <= i < |s|
      ensures IsSpace(s[i]) == IsSpace(t[i])
    {
      assert LowerChar(s[i]) == Lower(s)[i] == Lower(t)[i] == LowerChar(t[i]);
    }
  }

  /** Strings that agree once lower-cased agree on every slice once lower-cased. */
  lemma LowerSliceAgree(s: string, t: string, a: nat, b: nat)
    requires Lower(s) == Lower(t)
    requires a <= b <= |s|
    ensures Lower(s[a..b]) == Lower(t[a..b])
  {
    assert Lower(s[a..b]) == Lower(s)[a..b];
    assert Lower(t[a..b]) == Lower(t)[a..b];
  }

  /** The stripped text is the slice of `s` after its leading whitespace. */
  lemma StripSpan(s: string)
    ensures LeadingSpaces(s) + |Strip(s)| <= |s|
    ensures Strip(s) == s[LeadingSpaces(s)..LeadingSpaces(s) + |Strip(s)|]
  {
    StripExactly(s);
  }

  /** Strings that agree once lower-cased also agree once stripped and lower-cased. */
  lemma LowerStripAgree(s: string, t: string)
    requires Lower(s) == Lower(t)
    ensures Lower(Strip(s)) == Lower(Strip(t))
  {
    LowerSameSpaces(s, t);
    SameSpaceStrip(s, t);
    StripSpan(s);
    StripSpan(t);
    LowerSliceAgree(s, t, LeadingSpaces(s), LeadingSpaces(s) + |Strip(s)|);
  }

  /** Lower-casing twice is lower-casing once. */
  lemma LowerIdempotent(s: string)
    ensures Lower(Lower(s)) == Lower(s)
  {
  }

  /** A string that lacks one of the characters of `p` does not contain `p`. */
  lemma {:induction false} MissingCharNotContained(s: string, p: string, k: nat)
    requires k < |p|
    requires forall i :: 0 <= i < |s| ==> s[i] != p[k]
    ensures !Contains(s, p)
    decreases |s|
  {
    if s != [] {
      MissingCharNotContained(s[1..], p, k);
    }
    assert |p| <= |s| ==> s[..|p|][k] == s[k];
  }

  /** A non-empty string without whitespace is one word. */
  lemma SingleWord(s: string)
    requires s != []
    requires forall i :: 0 <= i < |s| ==> !IsSpace(s[i])
    ensures Words(s) == [s]
  {
    assert TokenLength(s) == |s|;
    assert s[..|s|] == s;
    assert Words(s[|s|..]) == [];
  }

  /** Two words joined by a space split back into those two words. */
  lemma TwoWords(a: string, b: string)
    requires a != [] && b != []
    requires forall i :: 0 <= i < |a| ==> !IsSpace(a[i])
    requires forall i :: 0 <= i < |b| ==> !IsSpace(b[i])
    ensures Words(a + " " + b) == [a, b]
  {
    var s := a + " " + b;
    var k := TokenLength(s);
    assert forall i :: 0 <= i < |a| ==> s[i] == a[i];
    assert s[|a|] == ' ';
    assert k == |a|;
    assert s[..k] == a;
    assert s[k..] == " " + b;
    assert (" " + b)[1..] == b;
    SingleWord(b);
  }

  /** Every word of `s` occurs in `s`. */
  lemma {:induction false} WordsOccur(s: string, w: string)
    requires w in Words(s)
    ensures Contains(s, w)
    decreases |s|
  {
    if IsSpace(s[0]) {
      WordsOccur(s[1..], w);
      ContainsShift(s, w);
    } else {
      var k := TokenLength(s);
      if w == s[..k] {
        assert StartsWith(s, w);
      } else {
        WordsOccur(s[k..], w);
        ContainsSuffix(s, k, w);
      }
    }
  }

  /** What a tail of `s` contains, `s` contains. */
  lemma ContainsShift(s: string, p: string)
    requires s != [] && Contains(s[1..], p)
    ensures Contains(s, p)
  {
  }

  lemma {:induction false} ContainsSuffix(s: string, k: nat, p: string)
    requires k <= |s| && Contains(s[k..], p)
    ensures Contains(s, p)
    decreases k
  {
    if k > 0 {
      assert s[1..][k - 1..] == s[k..];
      ContainsSuffix(s[1..], k - 1, p);
      ContainsShift(s, p);
    }
  }

  /**
   * `strip()` removes exactly the whitespace at both ends: the result is the
   * part of `s` after its leading whitespace, and only whitespace follows it.
   */
  lemma StripExactly(s: string)
    ensures LeadingSpaces(s) + |Strip(s)| <= |s|
    ensures Strip(s) == s[LeadingSpaces(s)..LeadingSpaces(s) + |Strip(s)|]
    ensures forall k :: 0 <= k < LeadingSpaces(s) ==> IsSpace(s[k])
    ensures forall k :: LeadingSpaces(s) + |Strip(s)| <= k < |s| ==> IsSpace(s[k])
    ensures Strip(s) == [] || (!IsSpace(Strip(s)[0]) && !IsSpace(Strip(s)[|Strip(s)| - 1]))
  {
    StripSlice(s);
    StripTrailing(s);
  }

  /** The stripped text is the slice between the leading and the trailing whitespace. */
  lemma StripSlice(s: string)
    ensures var i := LeadingSpaces(s);
            var t := s[i..];
            && Strip(s) == s[i..i + |t| - TrailingSpaces(t)]
            && i + |Strip(s)| == |s| - TrailingSpaces(t)
  {
  }

  /** Only whitespace follows the stripped text. */
  lemma StripTrailing(s: string)
    ensures forall k :: LeadingSpaces(s) + |Strip(s)| <= k < |s| ==> IsSpace(s[k])
  {
    var i := LeadingSpaces(s);
    var t := s[i..];
    var m := TrailingSpaces(t);
    StripSlice(s);
    forall k | i + |Strip(s)| <= k < |s|
      ensures IsSpace(s[k])
    {
      assert s[k] == t[k - i];
    }
  }

  /**
   * `w` stands in `s` at position `i` as a word of `split()`: a non-empty run
   * of non-whitespace characters with whitespace or an end of `s` on both sides.
   */
  predicate IsWordAt(s: string, w: string, i: nat) {
    && w != [] && i + |w| <= |s| && s[i..i + |w|] == w
    && (forall j :: 0 <= j < |w| ==> !IsSpace(w[j]))
    && (i == 0 || IsSpace(s[i - 1]))
    && (i + |w| == |s| || IsSpace(s[i + |w|]))
  }

  /** The words of `split()` are exactly the maximal non-whitespace runs of `s`. */
  lemma WordsExactly(s: string, w: string)
    ensures w in Words(s) <==> exists i: nat :: IsWordAt(s, w, i)
  {
    if w in Words(s) {
      var i := WordPosition(s, w);
    }
    if exists i: nat :: IsWordAt(s, w, i) {
      var i: nat :| IsWordAt(s, w, i);
      WordAtIsWord(s, w, i);
    }
  }

  /** Every word of `split()` is a maximal non-whitespace run of `s`. */
  lemma {:induction false} WordPosition(s: string, w: string) returns (i: nat)
    requires w in Words(s)
    ensures IsWordAt(s, w, i)
    decreases |s|, 1
  {
    if IsSpace(s[0]) {
      i := WordPositionAfterSpace(s, w);
    } else {
      var k := TokenLength(s);
      assert Words(s) == [s[..k]] + Words(s[k..]);
      if w == s[..k] {
        FirstWordAt(s);
        i := 0;
      } else {
        i := WordPositionAfterToken(s, w);
      }
    }
  }

  lemma {:induction false} WordPositionAfterSpace(s: string, w: string) returns (i: nat)
    requires s != [] && IsSpace(s[0]) && w in Words(s[1..])
    ensures IsWordAt(s, w, i)
    decreases |s|, 0
  {
    var j := WordPosition(s[1..], w);
    WordShift(s, w, 1, j);
    i := 1 + j;
  }

  lemma {:induction false} WordPositionAfterToken(s: string, w: string) returns (i: nat)
    requires s != [] && !IsSpace(s[0]) && w in Words(s[TokenLength(s)..])
    ensures IsWordAt(s, w, i)
    decreases |s|, 0
  {
    var k := TokenLength(s);
    var rest := s[k..];
    assert rest != [] && IsSpace(rest[0]);
    var j := WordPosition(rest, w);
    assert !IsSpace(rest[j]) by {
      assert rest[j] == rest[j..j + |w|][0];
    }
    WordShift(s, w, k, j);
    i := k + j;
  }

  /** The first token of a text that starts with a non-space is a word at position 0. */
  lemma FirstWordAt(s: string)
    requires s != [] && !IsSpace(s[0])
    ensures IsWordAt(s, s[..TokenLength(s)], 0)
  {
  }

  /** Every maximal non-whitespace run of `s` is a word of `split()`. */
  lemma {:induction false} WordAtIsWord(s: string, w: string, i: nat)
    requires IsWordAt(s, w, i)
    ensures w in Words(s)
    decreases |s|
  {
    assert s[i] == s[i..i + |w|][0] && !IsSpace(w[0]);
    if IsSpace(s[0]) {
      WordUnshift(s, w, 1, i);
      WordAtIsWord(s[1..], w, i - 1);
    } else {
      var k := TokenLength(s);
      if i == 0 {
        assert forall j :: 0 <= j < |w| ==> s[j] == w[j];
        TokenLengthOfRun(s, |w|);
        assert s[..k] == w;
      } else {
        assert i - 1 >= k;
        WordUnshift(s, w, k, i);
        WordAtIsWord(s[k..], w, i - k);
      }
    }
  }

  /** A word standing at `j` in `s[k..]` stands at `k + j` in `s`, given a boundary before it. */
  lemma WordShift(s: string, w: string, k: nat, j: nat)
    requires k <= |s| && IsWordAt(s[k..], w, j)
    requires j > 0 || k == 0 || IsSpace(s[k - 1])
    ensures IsWordAt(s, w, k + j)
  {
    var t := s[k..];
    assert s[k + j..k + j + |w|] == t[j..j + |w|];
    if j > 0 {
      assert s[k + j - 1] == t[j - 1];
    }
    if k + j + |w| < |s| {
      assert s[k + j + |w|] == t[j + |w|];
    }
  }

  /** A word standing at `i` in `s` stands at `i - k` in `s[k..]` when `k <= i`. */
  lemma WordUnshift(s: string, w: string, k: nat, i: nat)
    requires k <= i && IsWordAt(s, w, i)
    ensures IsWordAt(s[k..], w, i - k)
  {
    var t := s[k..];
    assert t[i - k..i - k + |w|] == s[i..i + |w|];
    if k < i {
      assert t[i - k - 1] == s[i - 1];
    }
    if i + |w| < |s| {
      assert t[i - k + |w|] == s[i + |w|];
    }
  }

  /** A run of `n` non-whitespace characters ended by whitespace or the end is the first token. */
  lemma {:induction false} TokenLengthOfRun(s: string, n: nat)
    requires n <= |s|
    requires forall j :: 0 <= j < n ==> !IsSpace(s[j])
    requires n == |s| || IsSpace(s[n])
    ensures TokenLength(s) == n
    decreases n
  {
    if n > 0 {
      assert forall j :: 0 <= j < n - 1 ==> s[1..][j] == s[j + 1];
      if n < |s| {
        assert s[1..][n - 1] == s[n];
      }
      TokenLengthOfRun(s[1..], n - 1);
    }
  }
}
