/**
 * The two pieces of `str` behaviour the chat node relies on: `str::trim`
 * (used by the command-line parser) and byte-indexed slicing of UTF-8 text
 * (used to shorten peer ids).
 */
module Text {
  import opened Wrappers

  /** The Unicode `White_Space` property, which is what `str::trim` strips. */
  predicate IsWhitespace(c: char) {
    || ('\t' <= c <= '\r')
    || c == ' '
    || c == '\U{0085}'
    || c == '\U{00A0}'
    || c == '\U{1680}'
    || ('\U{2000}' <= c <= '\U{200A}')
    || c == '\U{2028}'
    || c == '\U{2029}'
    || c == '\U{202F}'
    || c == '\U{205F}'
    || c == '\U{3000}'
  }

  predicate AllWhitespace(s: string) {
    forall i :: 0 <= i < |s| ==> IsWhitespace(s[i])
  }

  /** Neither end of `s` is whitespace. */
  predicate IsTrimmed(s: string) {
    s == [] || (!IsWhitespace(s[0]) && !IsWhitespace(s[|s| - 1]))
  }

  /**
   * `s[i..j]` is what is left of `s` once the whitespace run at each end is
   * cut off: only whitespace lies outside it, and it neither starts nor ends
   * with whitespace.
   */
  ghost predicate IsCut(s: string, i: int, j: int) {
    && 0 <= i <= j <= |s|
    && IsTrimmed(s[i..j])
    && (forall k :: 0 <= k < i ==> IsWhitespace(s[k]))
    && (forall k :: j <= k < |s| ==> IsWhitespace(s[k]))
  }

  /** Reference definition of trimming: `r` is a cut of `s`. */
  ghost predicate IsTrimOf(r: string, s: string) {
    exists i, j :: IsCut(s, i, j) && r == s[i..j]
  }

  /** Scanning forward from `i` over whitespace: where the first non-whitespace character (or the end) is. */
  function SkipLeading(s: string, i: nat): (r: nat)
    requires i <= |s|
    ensures i <= r <= |s|
    ensures forall k :: i <= k < r ==> IsWhitespace(s[k])
    ensures r < |s| ==> !IsWhitespace(s[r])
    decreases |s| - i
  {
    if i < |s| && IsWhitespace(s[i]) then SkipLeading(s, i + 1) else i
  }

  /** Scanning back from `j`, but not below `lo`, over whitespace: where the trailing run starts. */
  function SkipTrailing(s: string, lo: nat, j: nat): (r: nat)
    requires lo <= j <= |s|
    ensures lo <= r <= j
    ensures forall k :: r <= k < j ==> IsWhitespace(s[k])
    ensures r > lo ==> !IsWhitespace(s[r - 1])
    decreases j
  {
    if j > lo && IsWhitespace(s[j - 1]) then SkipTrailing(s, lo, j - 1) else j
  }

  /** `str::trim`: cut the whitespace run at the start, then the one at the end. */
  function Trim(s: string): (r: string)
    ensures IsTrimmed(r)
  {
    var i := SkipLeading(s, 0);
    s[i..SkipTrailing(s, i, |s|)]
  }

  /** Where `Trim` cuts: whitespace before `i`, whitespace from `j` on, and the trim in between. */
  lemma TrimBounds(s: string) returns (i: nat, j: nat)
    ensures i <= j <= |s| && Trim(s) == s[i..j]
    ensures forall k :: 0 <= k < i ==> IsWhitespace(s[k])
    ensures forall k :: j <= k < |s| ==> IsWhitespace(s[k])
  {
    i := SkipLeading(s, 0);
    j := SkipTrailing(s, i, |s|);
  }

  /** `Trim` meets the reference definition. */
  lemma TrimIsTrimOf(s: string)
    ensures IsTrimOf(Trim(s), s)
  {
    var i, j := TrimBounds(s);
    assert IsCut(s, i, j);
  }

  lemma SplitThree(s: string, i: nat, j: nat)
    requires i <= j <= |s|
    ensures s == s[..i] + s[i..j] + s[j..]
  {
  }

  /** A string is its trim with whitespace on either side. */
  lemma TrimSplit(s: string) returns (pre: string, post: string)
    ensures AllWhitespace(pre) && AllWhitespace(post)
    ensures s == pre + Trim(s) + post
  {
    var i, j := TrimBounds(s);
    pre, post := s[..i], s[j..];
    SplitThree(s, i, j);
    assert AllWhitespace(pre) by {
      forall k | 0 <= k < |pre| ensures IsWhitespace(pre[k]) {
        assert pre[k] == s[k];
      }
    }
    assert AllWhitespace(post) by {
      forall k | 0 <= k < |post| ensures IsWhitespace(post[k]) {
        assert post[k] == s[j + k];
      }
    }
  }

  /** Two cuts with only whitespace outside that both keep a non-whitespace character start at the same place. */
  lemma SameStart(s: string, i1: nat, i2: nat)
    requires i1 < |s| && i2 < |s| && !IsWhitespace(s[i1]) && !IsWhitespace(s[i2])
    requires forall k :: 0 <= k < i1 ==> IsWhitespace(s[k])
    requires forall k :: 0 <= k < i2 ==> IsWhitespace(s[k])
    ensures i1 == i2
  {
  }

  /** ... and end at the same place. */
  lemma SameEnd(s: string, j1: nat, j2: nat)
    requires 0 < j1 <= |s| && 0 < j2 <= |s| && !IsWhitespace(s[j1 - 1]) && !IsWhitespace(s[j2 - 1])
    requires forall k :: j1 <= k < |s| ==> IsWhitespace(s[k])
    requires forall k :: j2 <= k < |s| ==> IsWhitespace(s[k])
    ensures j1 == j2
  {
  }

  /** A cut is empty exactly when the string is all whitespace. */
  lemma CutEmptyIff(s: string, i: nat, j: nat)
    requires IsCut(s, i, j)
    ensures i == j <==> AllWhitespace(s)
  {
    if i < j {
      assert s[i..j][0] == s[i];
    }
  }

  /** Every cut of a string is its trim. */
  lemma CutIsTrim(s: string, i: nat, j: nat)
    requires IsCut(s, i, j)
    ensures s[i..j] == Trim(s)
  {
    var i0, j0 := TrimBounds(s);
    CutEmptyIff(s, i, j);
    CutEmptyIff(s, i0, j0);
    if i < j {
      // The first non-whitespace character fixes the start, the last one the end.
      assert s[i..j][0] == s[i] && s[i..j][j - i - 1] == s[j - 1];
      assert s[i0..j0][0] == s[i0] && s[i0..j0][j0 - i0 - 1] == s[j0 - 1];
      SameStart(s, i, i0);
      SameEnd(s, j, j0);
    }
  }

  /** There is only one trim of a string, so the reference definition pins `Trim` down. */
  lemma TrimOfUnique(s: string, r1: string, r2: string)
    requires IsTrimOf(r1, s) && IsTrimOf(r2, s)
    ensures r1 == r2
  {
    var i1, j1 :| IsCut(s, i1, j1) && r1 == s[i1..j1];
    var i2, j2 :| IsCut(s, i2, j2) && r2 == s[i2..j2];
    CutIsTrim(s, i1, j1);
    CutIsTrim(s, i2, j2);
  }

  /** Trimming what is already trimmed changes nothing. */
  lemma TrimOfTrimmed(s: string)
    requires IsTrimmed(s)
    ensures Trim(s) == s
  {
  }

  /** Surrounding whitespace is exactly what `Trim` removes. */
  lemma TrimPadded(pre: string, s: string, post: string)
    requires AllWhitespace(pre) && AllWhitespace(post) && IsTrimmed(s)
    ensures Trim(pre + s + post) == s
  {
    var w := pre + s + post;
    assert w[|pre|..|pre| + |s|] == s;
    assert forall k :: 0 <= k < |pre| ==> w[k] == pre[k];
    assert forall k :: |pre| + |s| <= k < |w| ==> w[k] == post[k - |pre| - |s|];
    CutIsTrim(w, |pre|, |pre| + |s|);
  }

  /** Number of bytes UTF-8 spends on one scalar value. */
  function Utf8Width(c: char): nat {
    if c as int < 0x80 then 1
    else if c as int < 0x800 then 2
    else if c as int < 0x1_0000 then 3
    else 4
  }

  /** Number of bytes in the UTF-8 encoding of `s`, which is what `str::len` reports. */
  function Utf8Length(s: string): nat {
    if s == [] then 0 else Utf8Width(s[0]) + Utf8Length(s[1..])
  }

  /**
   * `&s[..n]` on a Rust `str`: the leading characters that make up exactly
   * `n` bytes, or `None` where the slice panics because `n` is past the end or
   * falls inside a character.
   */
  function BytePrefix(s: string, n: nat): (r: Option<string>)
    ensures r.Some? ==> r.value <= s && Utf8Length(r.value) == n
  {
    if n == 0 then Some("")
    else if s == [] || Utf8Width(s[0]) > n then None
    else match BytePrefix(s[1..], n - Utf8Width(s[0]))
      case Some(p) => Some([s[0]] + p)
      case None => None
  }

  /** `BytePrefix` succeeds exactly on the prefixes of the requested byte length. */
  lemma {:induction false} BytePrefixSpec(s: string, n: nat, p: string)
    ensures BytePrefix(s, n) == Some(p) <==> p <= s && Utf8Length(p) == n
  {
    if p <= s && Utf8Length(p) == n {
      if n == 0 {
        assert p == [];
      } else {
        assert p != [] && s != [] && p[0] == s[0];
        assert p[1..] <= s[1..];
        BytePrefixSpec(s[1..], n - Utf8Width(s[0]), p[1..]);
        assert [s[0]] + p[1..] == p;
      }
    }
  }

  predicate IsAscii(s: string) {
    forall i :: 0 <= i < |s| ==> s[i] as int < 0x80
  }

  /** On ASCII text bytes and characters coincide. */
  lemma {:induction false} AsciiLength(s: string)
    requires IsAscii(s)
    ensures Utf8Length(s) == |s|
  {
    if s != [] {
      assert IsAscii(s[1..]) by {
        forall i | 0 <= i < |s[1..]| ensures s[1..][i] as int < 0x80 {
          assert s[1..][i] == s[i + 1];
        }
      }
      AsciiLength(s[1..]);
    }
  }

  /** On ASCII text the byte slice `[..n]` is the character slice, and panics only when too short. */
  lemma AsciiBytePrefix(s: string, n: nat)
    requires IsAscii(s)
    ensures BytePrefix(s, n).Some? <==> n <= |s|
    ensures n <= |s| ==> BytePrefix(s, n) == Some(s[..n])
  {
    if n <= |s| {
      assert IsAscii(s[..n]) by {
        forall i | 0 <= i < n ensures s[..n][i] as int < 0x80 {
          assert s[..n][i] == s[i];
        }
      }
      AsciiLength(s[..n]);
      BytePrefixSpec(s, n, s[..n]);
    }
  }
}
