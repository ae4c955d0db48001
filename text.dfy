/**
 * String operations with the semantics of the JavaScript built-ins the site
 * relies on: `trim`, `indexOf`, `split`, `replace` with a string pattern,
 * `split('/').pop()`, and the regex classes `\s` and `.`.
 * Strings are sequences of Unicode scalar values.
 */
module Text {

  /** The ECMAScript WhiteSpace and LineTerminator code points: what `trim` removes and regex `\s` matches. */
  predicate IsWhitespace(c: char) {
    var n := c as int;
    n == 0x09 || n == 0x0A || n == 0x0B || n == 0x0C || n == 0x0D || n == 0x20
    || n == 0xA0 || n == 0x1680 || (0x2000 <= n <= 0x200A)
    || n == 0x2028 || n == 0x2029 || n == 0x202F || n == 0x205F || n == 0x3000 || n == 0xFEFF
  }

  /** The ECMAScript LineTerminator code points: the characters regex `.` does not match. */
  predicate IsLineTerminator(c: char) {
    c == '\n' || c == '\r' || c as int == 0x2028 || c as int == 0x2029
  }

  /** Every character of `s` is whitespace (vacuously true of the empty string). */
  predicate IsBlank(s: string) {
    forall i :: 0 <= i < |s| ==> IsWhitespace(s[i])
  }

  /** `s.startsWith(p)`. */
  predicate StartsWith(s: string, p: string) {
    |p| <= |s| && s[..|p|] == p
  }

  /** `s.endsWith(t)`. */
  predicate EndsWith(s: string, t: string) {
    |t| <= |s| && s[|s| - |t|..] == t
  }

  /** Neither end of `s` is whitespace: what `trim` guarantees of its result. */
  predicate IsTrimmed(s: string) {
    s == [] || (!IsWhitespace(s[0]) && !IsWhitespace(s[|s| - 1]))
  }

  /** The first index from `k` on that is not whitespace, or the end of `s`. */
  function SkipBlankFrom(s: string, k: nat): (a: nat)
    requires k <= |s|
    ensures k <= a <= |s|
    ensures forall i :: k <= i < a ==> IsWhitespace(s[i])
    ensures a < |s| ==> !IsWhitespace(s[a])
    decreases |s| - k
  {
    if k < |s| && IsWhitespace(s[k]) then SkipBlankFrom(s, k + 1) else k
  }

  /** Going down from `k`, the first cut above `lo` whose preceding character is not whitespace, or `lo`. */
  function SkipBlankBack(s: string, lo: nat, k: nat): (b: nat)
    requires lo <= k <= |s|
    ensures lo <= b <= k
    ensures forall i :: b <= i < k ==> IsWhitespace(s[i])
    ensures b > lo ==> !IsWhitespace(s[b - 1])
    decreases k
  {
    if k > lo && IsWhitespace(s[k - 1]) then SkipBlankBack(s, lo, k - 1) else k
  }

  /** Where the text `trim` keeps begins. */
  function TrimOffset(s: string): nat {
    SkipBlankFrom(s, 0)
  }

  /** `String.prototype.trim`: `s` without its leading and trailing whitespace. */
  function Trim(s: string): (r: string)
    ensures IsTrimmed(r) && |r| <= |s|
  {
    var a := TrimOffset(s);
    var b := SkipBlankBack(s, a, |s|);
    if a == b then [] else
      assert s[a..b][0] == s[a] && s[a..b][b - a - 1] == s[b - 1];
      s[a..b]
  }

  /** What `trim` keeps is one contiguous slice of its input, and what it removes is whitespace. */
  lemma TrimSlice(s: string)
    ensures var i := TrimOffset(s); i + |Trim(s)| <= |s| && Trim(s) == s[i..i + |Trim(s)|]
    ensures var i := TrimOffset(s); IsBlank(s[..i]) && IsBlank(s[i + |Trim(s)|..])
  {
    TrimWithin(s);
  }

  /** What `trim` keeps is the slice of its input that starts at `TrimOffset`. */
  lemma TrimWithin(s: string)
    ensures var i := TrimOffset(s); i + |Trim(s)| <= |s| && Trim(s) == s[i..i + |Trim(s)|]
  {
    var a := TrimOffset(s);
    var b := SkipBlankBack(s, a, |s|);
    if a == b {
      assert Trim(s) == [];
    } else {
      assert Trim(s) == s[a..b];
    }
  }

  /** Where `SkipBlankFrom` stops is fixed by the blank run it crosses. */
  lemma {:induction false} SkipBlankFromAt(s: string, k: nat, j: nat)
    requires k <= j <= |s| && (forall i :: k <= i < j ==> IsWhitespace(s[i]))
    requires j < |s| ==> !IsWhitespace(s[j])
    ensures SkipBlankFrom(s, k) == j
    decreases j - k
  {
    if k < j {
      SkipBlankFromAt(s, k + 1, j);
    }
  }

  /** Where `SkipBlankBack` stops is fixed by the blank run it crosses. */
  lemma {:induction false} SkipBlankBackAt(s: string, lo: nat, k: nat, j: nat)
    requires lo <= j <= k <= |s| && (forall i :: j <= i < k ==> IsWhitespace(s[i]))
    requires j > lo ==> !IsWhitespace(s[j - 1])
    ensures SkipBlankBack(s, lo, k) == j
    decreases k - j
  {
    if j < k {
      SkipBlankBackAt(s, lo, k - 1, j);
    }
  }

  /** `trim` gives the empty string exactly for blank input (the `!content.trim()` guard). */
  lemma TrimEmptyIffBlank(s: string)
    ensures Trim(s) == [] <==> IsBlank(s)
  {
    if IsBlank(s) {
      SkipBlankFromAt(s, 0, |s|);
    }
  }

  /** ASCII upper-casing: the only case folding a JavaScript `/i` pattern of ASCII letters can match. */
  function Upper(c: char): (u: char)
    ensures 'a' <= c <= 'z' ==> 'A' <= u <= 'Z' && u as int == c as int - 32
    ensures !('a' <= c <= 'z') ==> u == c
  {
    if 'a' <= c <= 'z' then (c as int - 32) as char else c
  }

  /** Every character of `s` upper-cased. */
  function UpperAll(s: string): (r: string)
    ensures |r| == |s| && forall i :: 0 <= i < |s| ==> r[i] == Upper(s[i])
  {
    seq(|s|, i requires 0 <= i < |s| => Upper(s[i]))
  }

  predicate SameChar(a: char, b: char, ignoreCase: bool) {
    if ignoreCase then Upper(a) == Upper(b) else a == b
  }

  /** `pat` occurs in `s` starting at index `k`, letter case ignored when `ignoreCase`. */
  predicate MatchesAt(s: string, pat: string, k: nat, ignoreCase: bool) {
    k + |pat| <= |s| && forall t :: 0 <= t < |pat| ==> SameChar(s[k + t], pat[t], ignoreCase)
  }

  /** The first index at or after `from` where `pat` occurs, or -1 (`indexOf`, and the scan a regex search makes). */
  function Find(s: string, pat: string, from: nat, ignoreCase: bool): (r: int)
    ensures r == -1 || (from <= r && MatchesAt(s, pat, r, ignoreCase))
    ensures r == -1 ==> forall k: nat :: from <= k ==> !MatchesAt(s, pat, k, ignoreCase)
    ensures r != -1 ==> forall k: nat :: from <= k < r ==> !MatchesAt(s, pat, k, ignoreCase)
    decreases |s| - from
  {
    if from + |pat| > |s| then -1
    else if MatchesAt(s, pat, from, ignoreCase) then from
    else Find(s, pat, from + 1, ignoreCase)
  }

  /** Matching with letter case ignored is matching the upper-cased text against the upper-cased pattern. */
  lemma MatchesIgnoreCase(s: string, pat: string, k: nat)
    ensures MatchesAt(s, pat, k, true) <==> MatchesAt(UpperAll(s), UpperAll(pat), k, false)
  {
    var us, up := UpperAll(s), UpperAll(pat);
    if k + |pat| <= |s| {
      assert forall t :: 0 <= t < |pat| ==> (SameChar(s[k + t], pat[t], true) <==> SameChar(us[k + t], up[t], false));
    }
  }

  /** A case-insensitive search finds what a case-sensitive search of the upper-cased text for the upper-cased pattern finds. */
  lemma {:induction false} FindIgnoreCase(s: string, pat: string, from: nat)
    ensures Find(s, pat, from, true) == Find(UpperAll(s), UpperAll(pat), from, false)
    decreases |s| - from
  {
    if from + |pat| <= |s| {
      MatchesIgnoreCase(s, pat, from);
      if !MatchesAt(s, pat, from, true) {
        FindIgnoreCase(s, pat, from + 1);
      }
    }
  }

  /** Text without lower-case ASCII letters is its own upper-cased form. */
  lemma UpperAllFixed(s: string)
    requires forall c :: c in s ==> !('a' <= c <= 'z')
    ensures UpperAll(s) == s
  {
    forall i | 0 <= i < |s| ensures UpperAll(s)[i] == s[i] {
      assert s[i] in s;
    }
  }

  /** `s.indexOf(c)`: the first index of character `c` in `s`, or -1. */
  function IndexOf(s: string, c: char): (r: int)
    ensures r == -1 <==> c !in s
    ensures r != -1 ==> 0 <= r < |s| && s[r] == c && c !in s[..r]
  {
    var r := Find(s, [c], 0, false);
    if r == -1 then
      assert forall k :: 0 <= k < |s| ==> s[k] != c by {
        forall k | 0 <= k < |s| ensures s[k] != c { assert !MatchesAt(s, [c], k, false); }
      }
      r
    else
      assert forall k :: 0 <= k < r ==> s[..r][k] != c by {
        forall k | 0 <= k < r ensures s[..r][k] != c { assert !MatchesAt(s, [c], k, false); }
      }
      assert MatchesAt(s, [c], r, false);
      assert SameChar(s[r + 0], [c][0], false);
      assert s[r] == c;
      r
  }

  /** The pieces joined back with `sep` between them (`Array.prototype.join`). */
  function Join(parts: seq<string>, sep: string): string {
    if |parts| == 0 then ""
    else if |parts| == 1 then parts[0]
    else parts[0] + sep + Join(parts[1..], sep)
  }

  /** `s.split(sep)` for a one-character separator: at least one piece, none containing `sep`, and joining them restores `s`. */
  function Split(s: string, sep: char): (parts: seq<string>)
    ensures |parts| >= 1
    ensures forall i :: 0 <= i < |parts| ==> sep !in parts[i]
    ensures Join(parts, [sep]) == s
    decreases |s|
  {
    var k := IndexOf(s, sep);
    if k == -1 then [s]
    else
      var rest := Split(s[k + 1..], sep);
      assert s == s[..k] + [sep] + s[k + 1..];
      [s[..k]] + rest
  }

  /** `s.replace(pat, "")` with a string pattern: the first occurrence of `pat` removed, or `s` when there is none. */
  function RemoveFirst(s: string, pat: string): (r: string)
    ensures Find(s, pat, 0, false) == -1 ==> r == s
    ensures Find(s, pat, 0, false) != -1 ==>
      var k := Find(s, pat, 0, false); |r| + |pat| == |s| && s == r[..k] + pat + r[k..]
  {
    var k := Find(s, pat, 0, false);
    if k == -1 then s
    else
      assert s[k..k + |pat|] == pat;
      s[..k] + s[k + |pat|..]
  }

  /** `s.split(sep).pop()`: the text after the last `sep`, i.e. a suffix of `s` free of `sep` that follows a `sep` or is all of `s`. */
  function LastSegment(s: string, sep: char): (r: string)
    ensures |r| <= |s| && r == s[|s| - |r|..]
    ensures sep !in r
    ensures |r| < |s| ==> s[|s| - |r| - 1] == sep
    decreases |s|
  {
    var k := IndexOf(s, sep);
    if k == -1 then s
    else
      var rest := s[k + 1..];
      var r := LastSegment(rest, sep);
      SliceOfSlice(s, k + 1, |s|, |rest| - |r|, |rest|);
      assert |r| == |rest| ==> s[|s| - |r| - 1] == s[k];
      r
  }

  /** `trim` returns the non-blank core of a padded string unchanged. */
  lemma TrimPadded(a: string, t: string, b: string)
    requires IsBlank(a) && IsBlank(b) && t != [] && IsTrimmed(t)
    ensures Trim(a + t + b) == t
  {
    var s := a + t + b;
    var i, j := |a|, |a| + |t|;
    assert s[i] == t[0] && s[j - 1] == t[|t| - 1];
    assert forall x :: 0 <= x < i ==> s[x] == a[x];
    assert forall x :: j <= x < |s| ==> s[x] == b[x - j];
    SkipBlankFromAt(s, 0, i);
    SkipBlankBackAt(s, i, |s|, j);
    assert s[i..j] == t;
  }

  /** Text that is already trimmed is a fixed point of `trim`. */
  lemma TrimTrimmed(t: string)
    requires IsTrimmed(t)
    ensures Trim(t) == t
  {
    if t != [] {
      TrimPadded([], t, []);
      assert [] + t + [] == t;
    }
  }

  /** `split` undoes `join` for pieces free of the separator. */
  lemma {:induction false} SplitJoin(parts: seq<string>, sep: char)
    requires |parts| >= 1
    requires forall i :: 0 <= i < |parts| ==> sep !in parts[i]
    ensures Split(Join(parts, [sep]), sep) == parts
    decreases |parts|
  {
    var s := Join(parts, [sep]);
    if |parts| == 1 {
      assert IndexOf(s, sep) == -1;
    } else {
      var head, rest := parts[0], Join(parts[1..], [sep]);
      assert s == head + [sep] + rest;
      assert s[..|head|] == head;
      assert s[|head|] == sep;
      assert IndexOf(s, sep) == |head|;
      assert s[|head| + 1..] == rest;
      SplitJoin(parts[1..], sep);
      assert parts == [head] + parts[1..];
    }
  }

  /** Joining one more piece appends the separator and the piece. */
  lemma {:induction false} JoinSnoc(parts: seq<string>, last: string, sep: string)
    requires parts != []
    ensures Join(parts + [last], sep) == Join(parts, sep) + sep + last
    decreases |parts|
  {
    var all := parts + [last];
    assert all[0] == parts[0];
    if |parts| == 1 {
      assert all[1..] == [last];
    } else {
      assert all[1..] == parts[1..] + [last];
      JoinSnoc(parts[1..], last, sep);
    }
  }

  /** `indexOf` finds an occurrence preceded by no other. */
  lemma IndexOfAt(s: string, c: char, k: nat)
    requires k < |s| && s[k] == c && c !in s[..k]
    ensures IndexOf(s, c) == k
  {
    var r := IndexOf(s, c);
    assert s[k] in s;
    assert forall j :: 0 <= j < k ==> s[j] != c;
    assert forall j :: 0 <= j < r ==> s[j] != c;
  }

  /** A slice of a slice is a slice of the whole. */
  lemma SliceOfSlice<T>(s: seq<T>, lo: nat, hi: nat, a: nat, b: nat)
    requires lo <= hi <= |s| && a <= b <= hi - lo
    ensures s[lo..hi][a..b] == s[lo + a..lo + b]
  {
    var inner := s[lo..hi];
    forall j | 0 <= j < b - a ensures inner[a..b][j] == s[lo + a..lo + b][j] {
      assert inner[a..b][j] == inner[a + j];
    }
  }

  /** Concatenation regroups. */
  lemma ConcatAssoc<T>(h: seq<T>, x: seq<T>, y: seq<T>)
    ensures h + (x + y) == (h + x) + y
  {}

  /** The parts of a concatenation are its prefix and its suffix. */
  lemma ConcatParts(a: string, b: string)
    ensures (a + b)[..|a|] == a && (a + b)[|a|..] == b
  {}

  /** A joined text opens with its first piece and closes with its last. */
  lemma {:induction false} JoinEnds(parts: seq<string>, sep: string)
    requires parts != []
    ensures StartsWith(Join(parts, sep), parts[0])
    ensures EndsWith(Join(parts, sep), parts[|parts| - 1])
    decreases |parts|
  {
    if |parts| > 1 {
      var rest := parts[1..];
      JoinEnds(rest, sep);
      var j := Join(rest, sep);
      assert Join(parts, sep) == parts[0] + (sep + j);
      ConcatParts(parts[0], sep + j);
      ConcatParts(parts[0] + sep, j);
      assert rest[|rest| - 1] == parts[|parts| - 1];
    }
  }

  /** Joining two non-empty runs of pieces puts one separator between their joins. */
  lemma {:induction false} JoinConcat(a: seq<string>, b: seq<string>, sep: string)
    requires a != [] && b != []
    ensures Join(a + b, sep) == Join(a, sep) + sep + Join(b, sep)
    decreases |a|
  {
    var ab := a + b;
    assert ab[0] == a[0];
    if |a| == 1 {
      assert ab[1..] == b;
    } else {
      assert ab[1..] == a[1..] + b;
      JoinConcat(a[1..], b, sep);
    }
  }
}
