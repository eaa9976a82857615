/** The Python built-in string operations that the settings code calls:
    `str.split(sep)` with an explicit one-character separator, `str.strip()`
    with no argument, `str.startswith` (Dafny's prefix `<=`) and
    `str.replace(pat, "")`. `Join` (`sep.join(...)`) is not called by the
    settings code; it is defined here only to state that `Split` loses nothing
    and that re-parsing a parsed list is stable. Strings are sequences of
    Unicode scalar values; a Python 3 `str` may also hold lone surrogates,
    which none of these operations treats specially. */
module PyStr {

  /** Python's `str.isspace()` on a single character. CPython counts a code
      point as whitespace when its bidirectional class is WS, B or S or its
      general category is Zs; this is that set written out (it differs from
      the Unicode White_Space property, e.g. on U+001C..U+001F). */
  predicate IsSpace(c: char) {
    var n := c as int;
    (0x09 <= n <= 0x0D) || (0x1C <= n <= 0x20) || n == 0x85 || n == 0xA0 || n == 0x1680
    || (0x2000 <= n <= 0x200A) || n == 0x2028 || n == 0x2029 || n == 0x202F
    || n == 0x205F || n == 0x3000
  }

  /** True when every character of `s` is whitespace (vacuously for ""). */
  predicate Blank(s: string) {
    forall k :: 0 <= k < |s| ==> IsSpace(s[k])
  }

  /** Neither starts nor ends with whitespace. */
  predicate Trimmed(s: string) {
    s == [] || (!IsSpace(s[0]) && !IsSpace(s[|s| - 1]))
  }

  /** Number of occurrences of the character `c` in `s`. */
  function Count(s: string, c: char): nat {
    if s == [] then 0 else (if s[0] == c then 1 else 0) + Count(s[1..], c)
  }

  // ---------------------------------------------------------------------------
  // split and join
  // ---------------------------------------------------------------------------

  /** `s.split(sep)` for a one-character separator: k separators give k + 1
      fields, and empty fields (between adjacent separators, or at either end)
      are kept. */
  function Split(s: string, sep: char): (fields: seq<string>)
    ensures |fields| == Count(s, sep) + 1
    ensures forall i :: 0 <= i < |fields| ==> sep !in fields[i]
  {
    if s == [] then [""]
    else
      var rest := Split(s[1..], sep);
      if s[0] == sep then [""] + rest
      else [[s[0]] + rest[0]] + rest[1..]
  }

  /** `sep.join(fields)`: the fields with one separator between neighbours.
      The settings code does not call it; it is the inverse used to state
      what `Split` preserves. */
  function Join(fields: seq<string>, sep: char): string {
    if |fields| == 0 then ""
    else if |fields| == 1 then fields[0]
    else fields[0] + [sep] + Join(fields[1..], sep)
  }

  /** Joining one more field appends a separator and that field. */
  lemma {:induction false} JoinSnoc(fields: seq<string>, x: string, sep: char)
    requires fields != []
    ensures Join(fields + [x], sep) == Join(fields, sep) + [sep] + x
  {
    if |fields| > 1 {
      JoinSnoc(fields[1..], x, sep);
      assert (fields + [x])[1..] == fields[1..] + [x];
    } else {
      assert (fields + [x])[1..] == [x];
    }
  }

  /** Joining the fields of a split gives back the original string. */
  lemma {:induction false} JoinSplit(s: string, sep: char)
    ensures Join(Split(s, sep), sep) == s
  {
    if s != [] {
      var rest := Split(s[1..], sep);
      JoinSplit(s[1..], sep);
      if s[0] == sep {
        assert Split(s, sep) == [""] + rest;
        assert ([""] + rest)[1..] == rest;
      } else {
        var fields := [[s[0]] + rest[0]] + rest[1..];
        assert Split(s, sep) == fields;
        if |rest| == 1 {
          assert Join(fields, sep) == [s[0]] + rest[0];
        } else {
          assert fields[1..] == rest[1..];
          assert Join(rest, sep) == rest[0] + [sep] + Join(rest[1..], sep);
        }
      }
    }
  }

  /** Splitting a string whose first part `x` holds no separator: `x` is glued
      onto the front of the first field of the rest. */
  lemma {:induction false} SplitPrefix(x: string, t: string, sep: char)
    requires sep !in x
    ensures Split(x + t, sep) == [x + Split(t, sep)[0]] + Split(t, sep)[1..]
  {
    if x != [] {
      SplitPrefix(x[1..], t, sep);
      assert (x + t)[1..] == x[1..] + t;
      assert (x + t)[0] == x[0];
      assert [x[0]] + (x[1..] + Split(t, sep)[0]) == x + Split(t, sep)[0];
    } else {
      assert x + t == t;
      assert x + Split(t, sep)[0] == Split(t, sep)[0];
      assert Split(t, sep) == [Split(t, sep)[0]] + Split(t, sep)[1..];
    }
  }

  /** Splitting a join gives back the fields, provided there is at least one
      field and no field holds the separator. */
  lemma {:induction false} SplitJoin(fields: seq<string>, sep: char)
    requires |fields| >= 1
    requires forall i :: 0 <= i < |fields| ==> sep !in fields[i]
    ensures Split(Join(fields, sep), sep) == fields
  {
    var x := fields[0];
    if |fields| == 1 {
      SplitPrefix(x, "", sep);
      assert x + "" == x;
    } else {
      var t := Join(fields[1..], sep);
      SplitJoin(fields[1..], sep);
      assert Join(fields, sep) == x + ([sep] + t);
      SplitPrefix(x, [sep] + t, sep);
      assert ([sep] + t)[1..] == t;
      assert Split([sep] + t, sep) == [""] + fields[1..];
      assert x + "" == x;
      assert fields == [x] + fields[1..];
    }
  }

  // ---------------------------------------------------------------------------
  // strip
  // ---------------------------------------------------------------------------

  /** The first position at or after `i` that does not hold whitespace, or
      `|s|` if there is none. */
  function SkipSpaces(s: string, i: nat): (k: nat)
    requires i <= |s|
    ensures i <= k <= |s|
    ensures forall m :: i <= m < k ==> IsSpace(s[m])
    ensures k == |s| || !IsSpace(s[k])
    decreases |s| - i
  {
    if i < |s| && IsSpace(s[i]) then SkipSpaces(s, i + 1) else i
  }

  /** The least position `k` in `lo..j` such that `s[k..j]` is all
      whitespace. */
  function TrimEnd(s: string, lo: nat, j: nat): (k: nat)
    requires lo <= j <= |s|
    ensures lo <= k <= j
    ensures forall m :: k <= m < j ==> IsSpace(s[m])
    ensures k == lo || !IsSpace(s[k - 1])
    decreases j
  {
    if lo < j && IsSpace(s[j - 1]) then TrimEnd(s, lo, j - 1) else j
  }

  /** `s.strip()`: leading and trailing whitespace removed. */
  function Strip(s: string): (r: string)
    ensures |r| <= |s|
    ensures Trimmed(r)
  {
    var i := SkipSpaces(s, 0);
    s[i..TrimEnd(s, i, |s|)]
  }

  /** `Strip(s)` is the slice `s[i..j]`, and everything outside it is
      whitespace: strip removes whitespace at the ends and nothing else. */
  lemma StripSpan(s: string) returns (i: nat, j: nat)
    ensures i <= j <= |s| && Strip(s) == s[i..j]
    ensures forall k :: 0 <= k < i ==> IsSpace(s[k])
    ensures forall k :: j <= k < |s| ==> IsSpace(s[k])
  {
    i := SkipSpaces(s, 0);
    j := TrimEnd(s, i, |s|);
  }

  /** Every character of `Strip(s)` is a character of `s`. */
  lemma StripChars(s: string, c: char)
    requires c in Strip(s)
    ensures c in s
  {
    var i, j := StripSpan(s);
    var k :| 0 <= k < |Strip(s)| && Strip(s)[k] == c;
    assert s[i + k] == c;
  }

  /** A string is its own strip exactly when it neither starts nor ends with
      whitespace. */
  lemma StripFixed(s: string)
    ensures Strip(s) == s <==> Trimmed(s)
  {
    if Trimmed(s) {
      assert SkipSpaces(s, 0) == 0;
      assert TrimEnd(s, 0, |s|) == |s|;
    }
  }

  /** Stripping twice is the same as stripping once. */
  lemma StripIdempotent(s: string)
    ensures Strip(Strip(s)) == Strip(s)
  {
    StripFixed(Strip(s));
  }

  /** A string strips to "" exactly when it is blank. */
  lemma StripEmptyIffBlank(s: string)
    ensures Strip(s) == "" <==> Blank(s)
  {
    var i, j := StripSpan(s);
    if Strip(s) == "" {
      assert i == j;
      forall k | 0 <= k < |s| ensures IsSpace(s[k]) {
        if k >= i { assert k >= j; }
      }
    } else {
      assert s[i] == Strip(s)[0];
    }
  }

  // ---------------------------------------------------------------------------
  // replace(pat, "")
  // ---------------------------------------------------------------------------

  /** `pat` occurs in `s` starting at index `i`. */
  predicate OccursAt(s: string, pat: string, i: int) {
    0 <= i && i + |pat| <= |s| && s[i..i + |pat|] == pat
  }

  /** `s.replace(pat, "")` for a non-empty `pat`: occurrences of `pat` are
      removed in one left-to-right pass over `s`, without rescanning what the
      removal brings together. */
  function RemoveAll(s: string, pat: string): (r: string)
    requires pat != ""
    ensures |r| <= |s|
  {
    if s == [] then []
    else if pat <= s then RemoveAll(s[|pat|..], pat)
    else [s[0]] + RemoveAll(s[1..], pat)
  }

  /** A string in which `pat` never occurs is left unchanged. */
  lemma {:induction false} RemoveAllAbsent(s: string, pat: string)
    requires pat != ""
    requires forall i :: 0 <= i <= |s| ==> !OccursAt(s, pat, i)
    ensures RemoveAll(s, pat) == s
  {
    if s != [] {
      assert !OccursAt(s, pat, 0);
      forall i | 0 <= i <= |s[1..]| ensures !OccursAt(s[1..], pat, i) {
        assert !OccursAt(s, pat, i + 1);
        if i + |pat| <= |s[1..]| {
          assert s[1..][i..i + |pat|] == s[i + 1..i + 1 + |pat|];
        }
      }
      RemoveAllAbsent(s[1..], pat);
      assert s == [s[0]] + s[1..];
    }
  }

  /** Removing `pat` from `pat + t`, where `pat` does not occur in `t`, gives
      `t`: a leading prefix is cut off and the rest is untouched. */
  lemma RemoveLeading(pat: string, t: string)
    requires pat != ""
    requires forall i :: 0 <= i <= |t| ==> !OccursAt(t, pat, i)
    ensures RemoveAll(pat + t, pat) == t
  {
    assert (pat + t)[|pat|..] == t;
    RemoveAllAbsent(t, pat);
  }

  /** Removing `pat` from `x + pat + t`, where the first occurrence of `pat`
      starts right after `x`: `x` is kept, that occurrence is dropped, and the
      scan resumes on `t`. With `RemoveAllAbsent` this fixes `RemoveAll` on
      every input: the pass removes the leftmost occurrence and continues
      after it. */
  lemma {:induction false} RemoveAllFirst(x: string, pat: string, t: string)
    requires pat != ""
    requires forall i :: 0 <= i < |x| ==> !OccursAt(x + pat + t, pat, i)
    ensures RemoveAll(x + pat + t, pat) == x + RemoveAll(t, pat)
  {
    var s := x + pat + t;
    if x == [] {
      assert s == pat + t;
      assert s[|pat|..] == t;
    } else {
      assert !OccursAt(s, pat, 0);
      assert s[..|pat|] == s[0..|pat|];
      assert s[1..] == x[1..] + pat + t;
      forall i | 0 <= i < |x[1..]| ensures !OccursAt(x[1..] + pat + t, pat, i) {
        assert !OccursAt(s, pat, i + 1);
        if i + |pat| <= |s[1..]| {
          assert s[1..][i..i + |pat|] == s[i + 1..i + 1 + |pat|];
        }
      }
      RemoveAllFirst(x[1..], pat, t);
      assert x == [x[0]] + x[1..];
    }
  }
}
