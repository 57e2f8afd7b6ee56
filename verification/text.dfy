/** String predicates and transformations with the meaning of the Python
    `str` methods the source uses. Character classes are ASCII. */
module Text {

  predicate StartsWith(s: string, prefix: string) {
    |prefix| <= |s| && s[..|prefix|] == prefix
  }

  predicate EndsWith(s: string, suffix: string) {
    |suffix| <= |s| && s[|s| - |suffix|..] == suffix
  }

  /** Python's `needle in s` for strings. */
  predicate Contains(s: string, needle: string)
    decreases |s|
  {
    StartsWith(s, needle) || (|s| > 0 && Contains(s[1..], needle))
  }

  /** `needle` occurs in `s` starting at position `i`. */
  predicate OccursAt(s: string, needle: string, i: nat) {
    i + |needle| <= |s| && s[i..i + |needle|] == needle
  }

  /** A substring occurrence found by `Contains` is a real one. */
  lemma {:induction false} ContainsAt(s: string, needle: string)
    requires Contains(s, needle)
    ensures exists i: nat :: OccursAt(s, needle, i)
    decreases |s|
  {
    if StartsWith(s, needle) {
      assert OccursAt(s, needle, 0);
    } else {
      ContainsAt(s[1..], needle);
      var i: nat :| OccursAt(s[1..], needle, i);
      assert s[i + 1..i + 1 + |needle|] == s[1..][i..i + |needle|];
      assert OccursAt(s, needle, i + 1);
    }
  }

  /** Every occurrence is found by `Contains`. */
  lemma {:induction false} ContainsFromOccurrence(s: string, needle: string, i: nat)
    requires OccursAt(s, needle, i)
    ensures Contains(s, needle)
    decreases i
  {
    if i > 0 {
      assert s[1..][i - 1..i - 1 + |needle|] == s[i..i + |needle|];
      ContainsFromOccurrence(s[1..], needle, i - 1);
    }
  }

  /** A string containing "geotiff" contains "tiff": the source's two tests
      for a GeoTIFF media type collapse into one. */
  lemma GeotiffMentionsTiff(s: string)
    requires Contains(s, "geotiff")
    ensures Contains(s, "tiff")
  {
    ContainsAt(s, "geotiff");
    var i: nat :| OccursAt(s, "geotiff", i);
    assert s[i + 3..i + 7] == s[i..i + 7][3..7];
    ContainsFromOccurrence(s, "tiff", i + 3);
  }

  function LowerChar(c: char): char {
    if 'A' <= c <= 'Z' then (c as int + 32) as char else c
  }

  /** `s.lower()` restricted to ASCII letters. */
  function Lower(s: string): (r: string)
    ensures |r| == |s|
    ensures forall i :: 0 <= i < |s| ==> r[i] == LowerChar(s[i])
  {
    seq(|s|, i requires 0 <= i < |s| => LowerChar(s[i]))
  }

  /** Lower-casing leaves text without capitals unchanged. */
  lemma LowerNoCapitals(s: string)
    requires forall i :: 0 <= i < |s| ==> !('A' <= s[i] <= 'Z')
    ensures Lower(s) == s
  {
  }

  /** `s.replace(pattern, "")`: every leftmost non-overlapping occurrence removed. */
  function RemoveAll(s: string, pattern: string): (r: string)
    requires |pattern| > 0
    ensures |r| <= |s|
    decreases |s|
  {
    if |s| == 0 then ""
    else if StartsWith(s, pattern) then RemoveAll(s[|pattern|..], pattern)
    else [s[0]] + RemoveAll(s[1..], pattern)
  }

  /** The characters Python's `str.isspace` accepts in the ASCII range. */
  predicate IsSpace(c: char) {
    c == ' ' || 9 <= c as int <= 13 || 28 <= c as int <= 31
  }

  function TrimStart(s: string): (r: string)
    ensures EndsWith(s, r)
    ensures |r| > 0 ==> !IsSpace(r[0])
    ensures forall i :: 0 <= i < |s| - |r| ==> IsSpace(s[i])
    decreases |s|
  {
    if |s| > 0 && IsSpace(s[0]) then TrimStart(s[1..]) else s
  }

  function TrimEnd(s: string): (r: string)
    ensures StartsWith(s, r)
    ensures |r| > 0 ==> !IsSpace(r[|r| - 1])
    ensures forall i :: |r| <= i < |s| ==> IsSpace(s[i])
    decreases |s|
  {
    if |s| > 0 && IsSpace(s[|s| - 1]) then TrimEnd(s[..|s| - 1]) else s
  }

  /** `s.strip()`: the result is the part of `s` between the leading and
      trailing whitespace runs. */
  function Strip(s: string): (r: string)
    ensures |r| > 0 ==> !IsSpace(r[0]) && !IsSpace(r[|r| - 1])
    ensures exists k: nat ::
              && OccursAt(s, r, k)
              && (forall i :: 0 <= i < k ==> IsSpace(s[i]))
              && (forall i :: k + |r| <= i < |s| ==> IsSpace(s[i]))
  {
    StripAt(s);
    TrimEnd(TrimStart(s))
  }

  /** The stripped text sits at the end of the leading whitespace run. */
  lemma StripAt(s: string)
    ensures var t := TrimStart(s);
            var r := TrimEnd(t);
            var k := |s| - |t|;
            && OccursAt(s, r, k)
            && (forall i :: 0 <= i < k ==> IsSpace(s[i]))
            && (forall i :: k + |r| <= i < |s| ==> IsSpace(s[i]))
  {
    var t := TrimStart(s);
    var r := TrimEnd(t);
    var k := |s| - |t|;
    assert t == s[k..];
    assert s[k..k + |r|] == t[..|r|];
    forall i | k + |r| <= i < |s|
      ensures IsSpace(s[i])
    {
      assert s[i] == t[i - k];
    }
  }

  /** `s[:n]`. */
  function Take(s: string, n: nat): (r: string)
    ensures |r| == if n <= |s| then n else |s|
    ensures StartsWith(s, r)
  {
    if n <= |s| then s[..n] else s
  }

  /** `sep.join(parts)`. */
  function Join(parts: seq<string>, sep: string): string {
    if |parts| == 0 then ""
    else if |parts| == 1 then parts[0]
    else parts[0] + sep + Join(parts[1..], sep)
  }

  /** `s.split(c)`: the pieces between the occurrences of `c`. */
  function Split(s: string, c: char): (r: seq<string>)
    ensures |r| > 0
    ensures forall i :: 0 <= i < |r| ==> c !in r[i]
    decreases |s|
  {
    if c in s then
      var k := IndexOf(s, c);
      [s[..k]] + Split(s[k + 1..], c)
    else [s]
  }

  /** Position of the first `c` in `s`. */
  function IndexOf(s: string, c: char): (k: nat)
    requires c in s
    ensures k < |s| && s[k] == c && c !in s[..k]
  {
    if s[0] == c then 0 else
      assert c in s[1..];
      var k := 1 + IndexOf(s[1..], c);
      assert s[..k] == [s[0]] + s[1..][..k - 1];
      k
  }

  /** Joining the pieces of a split with the separator rebuilds the string. */
  lemma {:induction false} SplitJoin(s: string, c: char)
    ensures Join(Split(s, c), [c]) == s
    decreases |s|
  {
    if c in s {
      var k := IndexOf(s, c);
      SplitJoin(s[k + 1..], c);
      var rest := Split(s[k + 1..], c);
      assert Split(s, c) == [s[..k]] + rest;
      assert s == s[..k] + [c] + s[k + 1..];
    }
  }

  /** `s.rstrip(c)` for a single character. */
  function RStripChar(s: string, c: char): (r: string)
    ensures StartsWith(s, r)
    ensures |r| > 0 ==> r[|r| - 1] != c
    decreases |s|
  {
    if |s| > 0 && s[|s| - 1] == c then RStripChar(s[..|s| - 1], c) else s
  }

  predicate IsDigit(c: char) {
    '0' <= c <= '9'
  }

  /** The digits of `s`, in order: `"".join(ch for ch in s if ch.isdigit())`. */
  function DigitsOf(s: string): (r: string)
    ensures forall i :: 0 <= i < |r| ==> IsDigit(r[i])
    ensures |r| <= |s|
  {
    if |s| == 0 then ""
    else if IsDigit(s[0]) then [s[0]] + DigitsOf(s[1..])
    else DigitsOf(s[1..])
  }

  function DigitValue(c: char): nat
    requires IsDigit(c)
  {
    c as int - '0' as int
  }

  /** `int(s)` for a string of decimal digits. */
  function DigitsValue(s: string): nat
    requires forall i :: 0 <= i < |s| ==> IsDigit(s[i])
  {
    if |s| == 0 then 0
    else DigitsValue(s[..|s| - 1]) * 10 + DigitValue(s[|s| - 1])
  }

  /** Decimal rendering of a natural number, as Python's `str(n)`. */
  function NatToString(n: nat): (r: string)
    ensures |r| > 0
    ensures forall i :: 0 <= i < |r| ==> IsDigit(r[i])
    ensures |r| > 1 ==> r[0] != '0'
  {
    if n < 10 then ["0123456789"[n]]
    else NatToString(n / 10) + ["0123456789"[n % 10]]
  }

  /** Reading back a rendered number gives the number. */
  lemma {:induction false} NatToStringRoundTrip(n: nat)
    ensures DigitsValue(NatToString(n)) == n
  {
    if n >= 10 {
      NatToStringRoundTrip(n / 10);
      var r := NatToString(n);
      assert r[..|r| - 1] == NatToString(n / 10);
    }
  }

  /** `os.path.join(a, b)` for paths with the single separator `sep`: an
      absolute `b` replaces `a`; otherwise one separator goes between them
      unless `a` is empty or already ends with one. */
  function PathJoin(a: string, b: string, sep: char): (r: string)
    ensures StartsWith(b, [sep]) ==> r == b
    ensures !StartsWith(b, [sep]) ==> StartsWith(r, a) && EndsWith(r, b)
    ensures |r| <= |a| + 1 + |b|
  {
    if |b| > 0 && b[0] == sep then b
    else if |a| == 0 || a[|a| - 1] == sep then a + b
    else a + [sep] + b
  }

  /** `os.path.basename(p)`: what follows the last separator. */
  function Basename(p: string, sep: char): (r: string)
    ensures sep !in r && EndsWith(p, r)
    decreases |p|
  {
    if |p| == 0 || p[|p| - 1] == sep then ""
    else
      var r := Basename(p[..|p| - 1], sep) + [p[|p| - 1]];
      assert p[|p| - |r|..] == p[..|p| - 1][|p| - |r|..] + [p[|p| - 1]];
      r
  }

  /** Text without a separator, placed after a separator (or at the start),
      is the basename. */
  lemma {:induction false} BasenameAfterSep(a: string, b: string, sep: char)
    requires sep !in b
    requires |a| == 0 || a[|a| - 1] == sep
    ensures Basename(a + b, sep) == b
    decreases |b|
  {
    if |b| > 0 {
      var p := a + b;
      var q := b[..|b| - 1];
      var last := b[|b| - 1];
      assert last in b;
      assert p[|p| - 1] == last;
      assert p[..|p| - 1] == a + q;
      assert forall x :: x in q ==> x in b;
      BasenameAfterSep(a, q, sep);
      BasenameStep(p, sep);
      assert b == q + [last];
    } else {
      assert a + b == a;
    }
  }

  /** A path not ending in the separator has its last character as the
      last character of its basename. */
  lemma BasenameStep(p: string, sep: char)
    requires |p| > 0 && p[|p| - 1] != sep
    ensures Basename(p, sep) == Basename(p[..|p| - 1], sep) + [p[|p| - 1]]
  {
  }

  /** Joining a plain name onto a directory yields a path whose basename is
      that name. */
  lemma JoinedBasename(a: string, b: string, sep: char)
    requires sep !in b
    ensures Basename(PathJoin(a, b, sep), sep) == b
  {
    if |a| == 0 || a[|a| - 1] == sep {
      BasenameAfterSep(a, b, sep);
    } else {
      assert a + [sep] + b == (a + [sep]) + b;
      BasenameAfterSep(a + [sep], b, sep);
    }
  }
}
