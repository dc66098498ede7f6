/** The handful of Python `str` operations the viewer relies on, over Dafny
    strings (sequences of Unicode scalar values). */
module PyText {

  /** `str.isspace()` in CPython: the characters that `str.strip()` removes and
      that the regular-expression class `\s` matches on `str` patterns. */
  predicate IsSpace(c: char) {
    || ('\t' <= c <= '\r')               // \t \n \v \f \r
    || ('\U{1C}' <= c <= '\U{1F}')       // file, group, record and unit separators
    || c == ' '
    || c == '\U{85}' || c == '\U{A0}' || c == '\U{1680}'
    || ('\U{2000}' <= c <= '\U{200A}')
    || c == '\U{2028}' || c == '\U{2029}' || c == '\U{202F}' || c == '\U{205F}'
    || c == '\U{3000}'
  }

  predicate AllSatisfy(s: string, p: char -> bool) {
    forall i :: 0 <= i < |s| ==> p(s[i])
  }

  /** The two classes of characters that Python trims: those of
      `str.strip()`, and those `int()` skips around a numeral. CPython keeps
      every character below 127 as it is before `int()` skips only the ASCII
      blanks \t \n \v \f \r and space, so the separators U+001C..U+001F,
      which `str.strip()` removes, are not skipped by `int()`. */
  datatype Blank = PySpace | IntSpace

  predicate IsBlank(b: Blank, c: char) {
    IsSpace(c) && (b == IntSpace ==> !('\U{1C}' <= c <= '\U{1F}'))
  }

  /** Every character of `s` from `lo` up to `hi` satisfies `b`. */
  predicate BlankBetween(s: string, lo: nat, hi: nat, b: Blank)
    requires lo <= hi <= |s|
  {
    forall k :: lo <= k < hi ==> IsBlank(b, s[k])
  }

  /** Removes the leading characters satisfying `b`. */
  function TrimLeft(s: string, b: Blank): (r: string)
    ensures |r| <= |s|
  {
    if s != [] && IsBlank(b, s[0]) then TrimLeft(s[1..], b) else s
  }

  /** Removes the trailing characters satisfying `b`. */
  function TrimRight(s: string, b: Blank): (r: string)
    ensures |r| <= |s|
  {
    if s != [] && IsBlank(b, s[|s| - 1]) then TrimRight(s[..|s| - 1], b) else s
  }

  /** `str.strip()` generalised to a class of characters. */
  function StripBy(s: string, b: Blank): string {
    TrimRight(TrimLeft(s, b), b)
  }

  /** Python's `str.strip()` with no argument. */
  function Strip(s: string): string {
    StripBy(s, PySpace)
  }

  lemma {:induction false} TrimLeftFacts(s: string, b: Blank)
    ensures var r := TrimLeft(s, b);
      r == s[|s| - |r|..] && BlankBetween(s, 0, |s| - |r|, b) && (r == [] || !IsBlank(b, r[0]))
  {
    if s != [] && IsBlank(b, s[0]) {
      var t := s[1..];
      TrimLeftFacts(t, b);
      var n := |t| - |TrimLeft(t, b)|;
      assert forall k :: 0 <= k < n ==> t[k] == s[k + 1];
    }
  }

  lemma {:induction false} TrimRightFacts(s: string, b: Blank)
    ensures var r := TrimRight(s, b);
      r == s[..|r|] && BlankBetween(s, |r|, |s|, b) && (r == [] || !IsBlank(b, r[|r| - 1]))
  {
    if s != [] && IsBlank(b, s[|s| - 1]) {
      var t := s[..|s| - 1];
      TrimRightFacts(t, b);
      assert forall k :: 0 <= k < |t| ==> t[k] == s[k];
    }
  }

  /** The strip of `s` is the part of `s` left between a run of stripped
      characters at each end, and it neither begins nor ends with one. */
  lemma {:induction false} StripByFacts(s: string, b: Blank)
    ensures var r := StripBy(s, b); var i := |s| - |TrimLeft(s, b)|;
      && i + |r| <= |s| && r == s[i..i + |r|]
      && BlankBetween(s, 0, i, b) && BlankBetween(s, i + |r|, |s|, b)
      && (r == [] || (!IsBlank(b, r[0]) && !IsBlank(b, r[|r| - 1])))
  {
    var l := TrimLeft(s, b);
    var i := |s| - |l|;
    var r := TrimRight(l, b);
    TrimLeftFacts(s, b);
    TrimRightFacts(l, b);
    StripCompose(s, l, r, i);
    assert forall k :: |r| <= k < |l| ==> l[k] == s[i + k];
  }

  /** A prefix `r` of the suffix `l` of `s` from `i` is the slice of `s` from
      `i`. */
  lemma StripCompose<T>(s: seq<T>, l: seq<T>, r: seq<T>, i: nat)
    requires i <= |s| && l == s[i..] && |r| <= |l| && r == l[..|r|]
    ensures i + |r| <= |s| && r == s[i..i + |r|]
    ensures r != [] ==> r[0] == l[0]
  {
  }

  /** A string that neither begins nor ends with a stripped character is its
      own strip. */
  lemma StripIdentity(s: string, b: Blank)
    requires s == [] || (!IsBlank(b, s[0]) && !IsBlank(b, s[|s| - 1]))
    ensures StripBy(s, b) == s
  {
  }

  /** ASCII `str.lower()`. */
  function LowerChar(c: char): char {
    if 'A' <= c <= 'Z' then (c as int - 'A' as int + 'a' as int) as char else c
  }

  function Lower(s: string): (r: string)
    ensures |r| == |s| && forall i :: 0 <= i < |s| ==> r[i] == LowerChar(s[i])
  {
    seq(|s|, i requires 0 <= i < |s| => LowerChar(s[i]))
  }

  /** `lower()` leaves no upper-case ASCII letter. */
  lemma LowerNoUpper(s: string)
    ensures forall i :: 0 <= i < |Lower(s)| ==> !('A' <= Lower(s)[i] <= 'Z')
  {
  }

  /** A text without upper-case ASCII letters is its own lower case. */
  lemma LowerOfLowercase(s: string)
    requires forall i :: 0 <= i < |s| ==> !('A' <= s[i] <= 'Z')
    ensures Lower(s) == s
  {
  }

  /** Lowering twice is lowering once. */
  lemma LowerIdempotent(s: string)
    ensures Lower(Lower(s)) == Lower(s)
  {
    LowerNoUpper(s);
    LowerOfLowercase(Lower(s));
  }

  /** `lower()` works character by character, so it distributes over
      concatenation. */
  lemma LowerConcat(a: string, b: string)
    ensures Lower(a + b) == Lower(a) + Lower(b)
  {
  }

  /** `sub` occurs in `s` at index `i`. */
  predicate OccursAt(s: string, sub: string, i: int) {
    0 <= i && i + |sub| <= |s| && s[i..i + |sub|] == sub
  }

  /** Python's `sub in s`. */
  function Contains(s: string, sub: string): (b: bool)
    ensures b <==> exists i :: OccursAt(s, sub, i)
    decreases |s|
  {
    if |sub| <= |s| && s[..|sub|] == sub then
      assert OccursAt(s, sub, 0);
      true
    else if s == [] then
      assert forall i :: !OccursAt(s, sub, i);
      false
    else
      var b := Contains(s[1..], sub);
      assert forall i :: OccursAt(s[1..], sub, i) <==> OccursAt(s, sub, i + 1);
      assert forall i :: OccursAt(s, sub, i) && i > 0 ==> OccursAt(s[1..], sub, i - 1);
      b
  }

  /** The first index at which `sub` occurs in `s`, as `str.find` gives it. */
  function Find(s: string, sub: string): (r: int)
    ensures -1 <= r <= |s|
    ensures r >= 0 ==> OccursAt(s, sub, r)
    ensures forall i :: 0 <= i && (r < 0 || i < r) ==> !OccursAt(s, sub, i)
    decreases |s|
  {
    if |sub| <= |s| && s[..|sub|] == sub then 0
    else if s == [] then -1
    else
      var k := Find(s[1..], sub);
      assert forall i :: OccursAt(s[1..], sub, i) <==> OccursAt(s, sub, i + 1);
      assert forall i :: OccursAt(s, sub, i) && i > 0 ==> OccursAt(s[1..], sub, i - 1);
      if k < 0 then -1 else k + 1
  }

  /** Python's `str.split(sep)` for a one-character separator. */
  function Split(s: string, sep: char): (parts: seq<string>)
    ensures |parts| >= 1
    ensures forall k :: 0 <= k < |parts| ==> sep !in parts[k]
  {
    if s == [] then [""]
    else
      var rest := Split(s[1..], sep);
      if s[0] == sep then [""] + rest
      else [[s[0]] + rest[0]] + rest[1..]
  }

  /** `sep.join(parts)` for a one-character separator. */
  function Join(parts: seq<string>, sep: char): string
    requires |parts| >= 1
  {
    if |parts| == 1 then parts[0] else parts[0] + [sep] + Join(parts[1..], sep)
  }

  /** Joining the pieces of a split gives the text back. */
  lemma {:induction false} JoinSplit(s: string, sep: char)
    ensures Join(Split(s, sep), sep) == s
  {
    if s != [] {
      JoinSplit(s[1..], sep);
      var rest := Split(s[1..], sep);
      if s[0] != sep && |rest| > 1 {
        assert Split(s, sep)[1..] == rest[1..];
      }
      assert [s[0]] + s[1..] == s;
    }
  }

  /** A character of a join is the separator or a character of a piece. */
  lemma {:induction false} JoinChars(parts: seq<string>, sep: char, i: nat)
    requires |parts| >= 1 && i < |Join(parts, sep)|
    ensures Join(parts, sep)[i] == sep || exists k, j :: 0 <= k < |parts| && 0 <= j < |parts[k]| && parts[k][j] == Join(parts, sep)[i]
  {
    if |parts| > 1 && i >= |parts[0]| + 1 {
      var i' := i - |parts[0]| - 1;
      JoinChars(parts[1..], sep, i');
      assert Join(parts, sep)[i] == Join(parts[1..], sep)[i'];
      if Join(parts[1..], sep)[i'] != sep {
        var k, j :| 0 <= k < |parts[1..]| && 0 <= j < |parts[1..][k]| && parts[1..][k][j] == Join(parts[1..], sep)[i'];
        assert parts[k + 1][j] == Join(parts, sep)[i];
      }
    } else if i < |parts[0]| {
      assert parts[0][i] == Join(parts, sep)[i];
    }
  }

  /** Splitting a join of separator-free pieces gives the pieces back. */
  lemma {:induction false} SplitJoin(parts: seq<string>, sep: char)
    requires |parts| >= 1
    requires forall k :: 0 <= k < |parts| ==> sep !in parts[k]
    ensures Split(Join(parts, sep), sep) == parts
  {
    if |parts| == 1 {
      SplitNoSep(parts[0], sep);
    } else {
      SplitJoin(parts[1..], sep);
      SplitPrefix(parts[0], Join(parts[1..], sep), sep);
    }
  }

  lemma {:induction false} SplitNoSep(s: string, sep: char)
    requires sep !in s
    ensures Split(s, sep) == [s]
  {
    if s != [] {
      SplitNoSep(s[1..], sep);
      assert [s[0]] + s[1..] == s;
    }
  }

  /** A separator-free prefix followed by the separator contributes one piece. */
  lemma {:induction false} SplitPrefix(a: string, b: string, sep: char)
    requires sep !in a
    ensures Split(a + [sep] + b, sep) == [a] + Split(b, sep)
  {
    if a == [] {
      assert a + [sep] + b == [sep] + b;
      assert ([sep] + b)[1..] == b;
    } else {
      assert (a + [sep] + b)[1..] == a[1..] + [sep] + b;
      SplitPrefix(a[1..], b, sep);
      assert [a[0]] + a[1..] == a;
    }
  }

  /** `s.replace(pat, "")`: deletes the non-overlapping occurrences of `pat`
      found left to right, without rescanning what remains. */
  function RemoveAll(s: string, pat: string): (r: string)
    requires |pat| > 0
    ensures |r| <= |s|
    decreases |s|
  {
    if |pat| <= |s| && s[..|pat|] == pat then RemoveAll(s[|pat|..], pat)
    else if s == [] then []
    else [s[0]] + RemoveAll(s[1..], pat)
  }

  /** `c * n`. */
  function Repeat(c: char, n: nat): (r: string)
    ensures |r| == n && forall i :: 0 <= i < n ==> r[i] == c
  {
    seq(n, _ => c)
  }

  /** `c * (m + n) == c * m + c * n`. */
  lemma RepeatAdd(c: char, m: nat, n: nat)
    ensures Repeat(c, m + n) == Repeat(c, m) + Repeat(c, n)
  {
  }
}
