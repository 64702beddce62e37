/** The three string operations the todo list relies on: `String.prototype.trim`,
    `String.prototype.toLowerCase` and `String.prototype.includes`. */
module Text {

  /** The code points ECMAScript's `trim` strips: WhiteSpace (tab, vertical tab,
      form feed, space, no-break space, byte order mark and the Zs category) and
      LineTerminator (line feed, carriage return, U+2028, U+2029). */
  predicate IsWhitespace(c: char) {
    var n := c as int;
    n == 0x09 || n == 0x0A || n == 0x0B || n == 0x0C || n == 0x0D || n == 0x20
    || n == 0xA0 || n == 0x1680 || (0x2000 <= n <= 0x200A) || n == 0x2028
    || n == 0x2029 || n == 0x202F || n == 0x205F || n == 0x3000 || n == 0xFEFF
  }

  /** Every character of `s` at positions `lo` up to `hi - 1` is whitespace. */
  predicate WhitespaceBetween(s: string, lo: int, hi: int) {
    forall k :: lo <= k < hi && 0 <= k < |s| ==> IsWhitespace(s[k])
  }

  /** The first position at or after `lo` that does not hold whitespace (|s| if none). */
  function SkipLeading(s: string, lo: nat): (i: nat)
    requires lo <= |s|
    ensures lo <= i <= |s| && WhitespaceBetween(s, lo, i)
    ensures i < |s| ==> !IsWhitespace(s[i])
    decreases |s| - lo
  {
    if lo < |s| && IsWhitespace(s[lo]) then SkipLeading(s, lo + 1) else lo
  }

  /** Scanning back from `hi` but not below `lo`: the position just after the last
      character that is not whitespace (`lo` if none). */
  function SkipTrailing(s: string, lo: nat, hi: nat): (j: nat)
    requires lo <= hi <= |s|
    ensures lo <= j <= hi && WhitespaceBetween(s, j, hi)
    ensures j > lo ==> !IsWhitespace(s[j - 1])
    decreases hi
  {
    if hi > lo && IsWhitespace(s[hi - 1]) then SkipTrailing(s, lo, hi - 1) else hi
  }

  /** `s.trim()`: the slice between the leading and the trailing whitespace. It is
      empty exactly when `s` is whitespace only, and otherwise neither starts nor
      ends with whitespace. */
  function Trim(s: string): (r: string)
    ensures r == [] <==> WhitespaceBetween(s, 0, |s|)
    ensures r != [] ==> !IsWhitespace(r[0]) && !IsWhitespace(r[|r| - 1])
  {
    var i := SkipLeading(s, 0);
    var j := SkipTrailing(s, i, |s|);
    assert i < j ==> !WhitespaceBetween(s, 0, |s|);
    s[i..j]
  }

  /** SkipLeading stops at the end of a whitespace run and nowhere else. */
  lemma {:induction false} SkipLeadingStopsAt(s: string, lo: nat, i: nat)
    requires lo <= i <= |s| && WhitespaceBetween(s, lo, i)
    requires i < |s| ==> !IsWhitespace(s[i])
    ensures SkipLeading(s, lo) == i
    decreases i - lo
  {
    if lo < i {
      SkipLeadingStopsAt(s, lo + 1, i);
    }
  }

  /** SkipTrailing stops at the start of a trailing whitespace run and nowhere else. */
  lemma {:induction false} SkipTrailingStopsAt(s: string, lo: nat, hi: nat, j: nat)
    requires lo <= j <= hi <= |s| && WhitespaceBetween(s, j, hi)
    requires j > lo ==> !IsWhitespace(s[j - 1])
    ensures SkipTrailing(s, lo, hi) == j
    decreases hi - j
  {
    if j < hi {
      SkipTrailingStopsAt(s, lo, hi - 1, j);
    }
  }

  /** Trim is determined by its description: for any split of `s` into whitespace,
      a middle that neither starts nor ends with whitespace, and whitespace, the
      middle is the trimmed form. */
  lemma TrimUnique(s: string, i: nat, j: nat)
    requires i <= j <= |s|
    requires WhitespaceBetween(s, 0, i) && WhitespaceBetween(s, j, |s|)
    requires i < j ==> !IsWhitespace(s[i]) && !IsWhitespace(s[j - 1])
    ensures Trim(s) == s[i..j]
  {
    if i < j {
      SkipLeadingStopsAt(s, 0, i);
      SkipTrailingStopsAt(s, i, |s|, j);
    } else {
      assert WhitespaceBetween(s, 0, |s|);
    }
  }

  /** Trimming twice is trimming once. */
  lemma TrimIdempotent(s: string)
    ensures Trim(Trim(s)) == Trim(s)
  {
    var r := Trim(s);
    TrimUnique(r, 0, |r|);
  }

  /** `toLowerCase` restricted to ASCII: `A`..`Z` map to `a`..`z`, every other
      character is kept. */
  function LowerChar(c: char): char {
    if 'A' <= c <= 'Z' then (c as int + 32) as char else c
  }

  function Lower(s: string): string {
    seq(|s|, i requires 0 <= i < |s| => LowerChar(s[i]))
  }

  /** A string without capitals is its own lower-case form. */
  lemma LowerWithoutCapitals(s: string)
    requires forall i :: 0 <= i < |s| ==> !('A' <= s[i] <= 'Z')
    ensures Lower(s) == s
  {
  }

  /** `needle` occurs in `hay` starting at position `k`. */
  predicate OccursAt(hay: string, needle: string, k: int) {
    0 <= k && k + |needle| <= |hay| && hay[k..k + |needle|] == needle
  }

  /** `hay.includes(needle)`, scanning start positions from the left. A needle
      longer than the haystack is never included. */
  function Includes(hay: string, needle: string): (r: bool)
    ensures r ==> |needle| <= |hay|
    decreases |hay|
  {
    needle <= hay || (hay != [] && Includes(hay[1..], needle))
  }

  /** An occurrence one position into `hay` is an occurrence in the rest of `hay`. */
  lemma OccursShift(hay: string, needle: string, k: nat)
    requires hay != []
    ensures OccursAt(hay, needle, k + 1) <==> OccursAt(hay[1..], needle, k)
  {
    if k + 1 + |needle| <= |hay| {
      assert hay[1..][k..k + |needle|] == hay[k + 1..k + 1 + |needle|];
    }
  }

  /** Includes holds exactly when the needle occurs somewhere in the haystack. */
  lemma {:induction false} IncludesIff(hay: string, needle: string)
    ensures Includes(hay, needle) <==> exists k :: OccursAt(hay, needle, k)
    decreases |hay|
  {
    if needle <= hay {
      assert hay[..|needle|] == needle;
      assert OccursAt(hay, needle, 0);
    } else if hay == [] {
    } else {
      IncludesIff(hay[1..], needle);
      if k :| OccursAt(hay, needle, k) {
        assert k != 0;
        OccursShift(hay, needle, k - 1);
      }
      if k :| OccursAt(hay[1..], needle, k) {
        OccursShift(hay, needle, k);
      }
    }
  }
}
