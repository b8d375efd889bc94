/**
 * The Python string built-ins the chat handler relies on: `str.isspace` (as
 * used by `str.strip()`), `str.strip()`, `str.lower()` and the substring test
 * `kw in s`. A Dafny `string` is a sequence of Unicode scalar values: the
 * code points of a Python string other than the surrogates U+D800-U+DFFF.
 */
module PyStr {

  /** The characters for which Python's `str.isspace()` holds; `str.strip()`
      with no argument removes exactly these. */
  predicate IsSpace(c: char) {
    var n := c as int;
    if n < 0x80 then (0x09 <= n <= 0x0D) || (0x1C <= n <= 0x20) else InRanges(n, WIDE_SPACE_RANGES)
  }

  /** The code points of the non-ASCII whitespace characters, as inclusive
      ranges. */
  const WIDE_SPACE_RANGES: seq<(int, int)> := [
    (0x85, 0x85), (0xA0, 0xA0), (0x1680, 0x1680), (0x2000, 0x200A),
    (0x2028, 0x2029), (0x202F, 0x202F), (0x205F, 0x205F), (0x3000, 0x3000)
  ]

  predicate InRanges(n: int, ranges: seq<(int, int)>) {
    ranges != [] && ((ranges[0].0 <= n <= ranges[0].1) || InRanges(n, ranges[1..]))
  }

  predicate AllSpace(s: string) {
    forall k :: 0 <= k < |s| ==> IsSpace(s[k])
  }

  /** The characters of `s` from `lo` up to `hi` are all whitespace. */
  ghost predicate SpaceBetween(s: string, lo: int, hi: int) {
    forall k :: lo <= k < hi && 0 <= k < |s| ==> IsSpace(s[k])
  }

  /** `r` is the part of `s` that starts at offset `i`, is preceded and
      followed by whitespace only, and neither starts nor ends with it. */
  ghost predicate IsStripAt(r: string, s: string, i: int) {
    && 0 <= i <= |s| - |r|
    && s[i..i + |r|] == r
    && SpaceBetween(s, 0, i)
    && SpaceBetween(s, i + |r|, |s|)
    && (r == [] || (!IsSpace(r[0]) && !IsSpace(r[|r| - 1])))
  }

  /** Reference definition of stripping: `r` is what is left of `s` once the
      whitespace at both ends is gone. */
  ghost predicate IsStripOf(r: string, s: string) {
    exists i :: IsStripAt(r, s, i)
  }

  /** The end of the run of whitespace that starts at offset `k`. */
  function SpaceRunEnd(s: string, k: nat): (n: nat)
    requires k <= |s|
    ensures k <= n <= |s| && SpaceBetween(s, k, n)
    ensures n == |s| || !IsSpace(s[n])
    decreases |s| - k
  {
    if k < |s| && IsSpace(s[k]) then SpaceRunEnd(s, k + 1) else k
  }

  /** The start of the run of whitespace that ends at offset `m`, looking no
      further back than `lo`. */
  function SpaceRunStart(s: string, lo: nat, m: nat): (n: nat)
    requires lo <= m <= |s|
    ensures lo <= n <= m && SpaceBetween(s, n, m)
    ensures n == lo || !IsSpace(s[n - 1])
    decreases m - lo
  {
    if lo < m && IsSpace(s[m - 1]) then SpaceRunStart(s, lo, m - 1) else m
  }

  /** Python's `s.strip()`: the leading whitespace goes first, then the
      trailing whitespace of what is left. */
  function Strip(s: string): (r: string)
    ensures IsStripOf(r, s)
  {
    var i := SpaceRunEnd(s, 0);
    var j := SpaceRunStart(s, i, |s|);
    assert IsStripAt(s[i..j], s, i);
    s[i..j]
  }

  /** The reference definition admits one result only. */
  lemma StripOfUnique(r1: string, r2: string, s: string)
    requires IsStripOf(r1, s) && IsStripOf(r2, s)
    ensures r1 == r2
  {
    var i1 :| IsStripAt(r1, s, i1);
    var i2 :| IsStripAt(r2, s, i2);
    if r1 != [] {
      assert s[i1] == r1[0];
      assert s[i1 + |r1| - 1] == r1[|r1| - 1];
    }
    if r2 != [] {
      assert s[i2] == r2[0];
      assert s[i2 + |r2| - 1] == r2[|r2| - 1];
    }
    if r1 != [] && r2 != [] {
      // both start at the first non-blank character of s
      assert i1 == i2;
      // and end at the last one
      assert |r1| == |r2|;
    }
  }

  /** Whitespace added around a string makes no difference to `strip()`. */
  lemma StripIgnoresSurroundingSpace(lead: string, s: string, trail: string)
    requires AllSpace(lead) && AllSpace(trail)
    ensures Strip(lead + s + trail) == Strip(s)
  {
    var r := Strip(s);
    var i :| IsStripAt(r, s, i);
    StripAtEmbedded(lead, s, trail, r, i);
    StripOfUnique(Strip(lead + s + trail), r, lead + s + trail);
  }

  /** The stripped part of `s` is also the stripped part of `s` with
      whitespace around it, shifted by the leading whitespace. */
  lemma StripAtEmbedded(lead: string, s: string, trail: string, r: string, i: int)
    requires AllSpace(lead) && AllSpace(trail) && IsStripAt(r, s, i)
    ensures IsStripAt(r, lead + s + trail, |lead| + i)
  {
    var x := lead + s + trail;
    var j := |lead| + i;
    forall m | 0 <= m < |r| ensures x[j..j + |r|][m] == r[m] {
      assert x[j + m] == s[i + m];
      assert s[i..i + |r|][m] == s[i + m];
    }
    assert x[j..j + |r|] == r;
    forall k | 0 <= k < j ensures IsSpace(x[k]) {
      if k < |lead| {
        assert x[k] == lead[k];
      } else {
        assert x[k] == s[k - |lead|];
      }
    }
    forall k | j + |r| <= k < |x| ensures IsSpace(x[k]) {
      if k < |lead| + |s| {
        assert x[k] == s[k - |lead|];
      } else {
        assert x[k] == trail[k - |lead| - |s|];
      }
    }
  }

  /** `strip()` is idempotent. */
  lemma StripIdempotent(s: string)
    ensures Strip(Strip(s)) == Strip(s)
  {
    var r := Strip(s);
    var i :| IsStripAt(r, s, i);
    assert r[0..|r|] == r;
    assert IsStripAt(r, r, 0);
    StripOfUnique(Strip(r), r, r);
  }

  /** `kw` occurs in `s` at offset `i`. */
  ghost predicate OccursAt(kw: string, s: string, i: int) {
    0 <= i <= |s| - |kw| && s[i..i + |kw|] == kw
  }

  /** Python's substring test `kw in s`: `kw` occurs in `s` at some offset. */
  function Occurs(kw: string, s: string): (r: bool)
    ensures r <==> exists i :: OccursAt(kw, s, i)
    decreases |s|
  {
    if |kw| <= |s| && s[..|kw|] == kw then
      assert OccursAt(kw, s, 0);
      true
    else if s == [] then
      false
    else
      var r := Occurs(kw, s[1..]);
      assert r ==> exists i :: OccursAt(kw, s, i) by {
        if r {
          var i :| OccursAt(kw, s[1..], i);
          assert s[i + 1..i + 1 + |kw|] == s[1..][i..i + |kw|];
          assert OccursAt(kw, s, i + 1);
        }
      }
      assert (exists i :: OccursAt(kw, s, i)) ==> r by {
        if i :| OccursAt(kw, s, i) {
          assert i != 0 by {
            assert s[0..|kw|] == s[..|kw|];
          }
          assert s[1..][i - 1..i - 1 + |kw|] == s[i..i + |kw|];
          assert OccursAt(kw, s[1..], i - 1);
        }
      }
      r
  }

  /** A string occurs in any string built around it. */
  lemma OccursInMiddle(prefix: string, kw: string, suffix: string)
    ensures Occurs(kw, prefix + kw + suffix)
  {
    var x := prefix + kw + suffix;
    assert x[|prefix|..|prefix| + |kw|] == kw;
    assert OccursAt(kw, x, |prefix|);
  }

  /** A stretch of `s` that starts and ends with a non-blank character lies
      inside what `strip()` keeps. */
  lemma StripKeepsInner(r: string, s: string, j: int, lo: int, hi: int)
    requires IsStripAt(r, s, j)
    requires 0 <= lo < hi <= |s| && !IsSpace(s[lo]) && !IsSpace(s[hi - 1])
    ensures j <= lo && hi <= j + |r|
    ensures forall k :: lo <= k < hi ==> s[k] == r[k - j]
  {
    forall k | lo <= k < hi ensures s[k] == r[k - j] {
      assert r[k - j] == s[j..j + |r|][k - j];
    }
  }

  /** Stripping cannot destroy an occurrence of a word that neither starts
      nor ends with whitespace. */
  lemma OccursSurvivesStrip(kw: string, s: string)
    requires kw != [] && !IsSpace(kw[0]) && !IsSpace(kw[|kw| - 1])
    requires Occurs(kw, s)
    ensures Occurs(kw, Strip(s))
  {
    var r := Strip(s);
    var i :| OccursAt(kw, s, i);
    var j :| IsStripAt(r, s, j);
    OccursInside(kw, s, i, r, j);
  }

  lemma OccursInside(kw: string, s: string, i: int, r: string, j: int)
    requires kw != [] && !IsSpace(kw[0]) && !IsSpace(kw[|kw| - 1])
    requires OccursAt(kw, s, i) && IsStripAt(r, s, j)
    ensures OccursAt(kw, r, i - j)
  {
    assert s[i] == kw[0] && s[i + |kw| - 1] == kw[|kw| - 1];
    StripKeepsInner(r, s, j, i, i + |kw|);
  }

  /** A per-character case mapping, as `str.lower()` applies it. A mapping
      may turn one character into several (U+0130 becomes two). */
  type CaseMap = char -> string

  /** `c` with an ASCII capital turned into its small letter. */
  function AsciiLowerChar(c: char): char {
    if 'A' <= c <= 'Z' then (c as int + 32) as char else c
  }

  predicate IsAscii(s: string) {
    forall k :: 0 <= k < |s| ==> (s[k] as int) < 128
  }

  /** Reference definition of lower-casing an ASCII string. */
  function AsciiLower(s: string): (r: string)
    ensures |r| == |s|
    ensures forall k :: 0 <= k < |s| ==> r[k] == AsciiLowerChar(s[k])
  {
    seq(|s|, k requires 0 <= k < |s| => AsciiLowerChar(s[k]))
  }

  /** What every case mapping `str.lower()` may use does: ASCII capitals
      become small letters, every other ASCII character and every whitespace
      character is left alone. */
  ghost predicate ValidCaseMap(lower: CaseMap) {
    && (forall c :: (c as int) < 128 ==> lower(c) == [AsciiLowerChar(c)])
    && (forall c :: IsSpace(c) ==> lower(c) == [c])
  }

  /** Python's `s.lower()`, character by character. */
  function Lower(s: string, lower: CaseMap): string {
    if s == [] then [] else lower(s[0]) + Lower(s[1..], lower)
  }

  lemma {:induction false} LowerAppend(a: string, b: string, lower: CaseMap)
    ensures Lower(a + b, lower) == Lower(a, lower) + Lower(b, lower)
  {
    if a == [] {
      assert a + b == b;
    } else {
      assert (a + b)[0] == a[0];
      assert (a + b)[1..] == a[1..] + b;
      LowerAppend(a[1..], b, lower);
    }
  }

  /** On ASCII text a valid case mapping agrees with the reference. */
  lemma {:induction false} LowerAscii(s: string, lower: CaseMap)
    requires ValidCaseMap(lower) && IsAscii(s)
    ensures Lower(s, lower) == AsciiLower(s)
  {
    if s != [] {
      LowerAscii(s[1..], lower);
      assert AsciiLower(s) == [AsciiLowerChar(s[0])] + AsciiLower(s[1..]);
    }
  }

  /** Whitespace is its own lower case. */
  lemma {:induction false} LowerSpace(s: string, lower: CaseMap)
    requires ValidCaseMap(lower) && AllSpace(s)
    ensures Lower(s, lower) == s
  {
    if s != [] {
      assert IsSpace(s[0]);
      LowerSpace(s[1..], lower);
      assert s == [s[0]] + s[1..];
    }
  }

  /** Strings that map character by character to the same lower case have
      the same lower case. */
  lemma {:induction false} LowerPointwise(s: string, t: string, lower: CaseMap)
    requires |s| == |t|
    requires forall k :: 0 <= k < |s| ==> lower(s[k]) == lower(t[k])
    ensures Lower(s, lower) == Lower(t, lower)
  {
    if s != [] {
      assert lower(s[0]) == lower(t[0]);
      LowerPointwise(s[1..], t[1..], lower);
    }
  }
}
