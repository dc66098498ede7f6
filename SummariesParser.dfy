/** The summaries cache read back: the compiled text is split at every header
    matched by the pattern

        ^\s*=+\s*\n\s*RELEASE:\s*([\d\.]+)\s*\n\s*=+\s*\n

    (case-insensitive, `^` at every line start), the same way `re.split`
    splits with one capturing group, and each captured version is mapped to
    the text that follows its header.

    The pattern is matched here by hand. Each `\s*` or `=+` or `[\d\.]+` run
    that is followed by something its class cannot match has a single
    candidate length (its maximal run), so backtracking cannot change the
    outcome. The one exception is a `\s*\n` pair: `\s*` runs to the end of
    the whitespace and gives back characters until it stands before a line
    break, so the pair ends just after the LAST line break of the run. */
module SummariesParser {
  import opened Wrappers
  import opened PyText
  import opened PyInt

  /** The character classes of the pattern's repeated items. */
  datatype Run = Spaces | Equals | VersionChars

  predicate InRun(run: Run, c: char) {
    match run
    case Spaces => IsSpace(c)
    case Equals => c == '='
    case VersionChars => IsDigit(c) || c == '.'
  }

  /** End of the maximal run of `run` characters starting at `i`. */
  function SkipRun(s: string, i: nat, run: Run): (j: nat)
    requires i <= |s|
    ensures i <= j <= |s|
    decreases |s| - i
  {
    if i < |s| && InRun(run, s[i]) then SkipRun(s, i + 1, run) else i
  }

  /** The run is made of `run` characters and is maximal. */
  lemma {:induction false} SkipRunFacts(s: string, i: nat, run: Run)
    requires i <= |s|
    ensures var j := SkipRun(s, i, run);
      && (forall k :: i <= k < j ==> InRun(run, s[k]))
      && (j == |s| || !InRun(run, s[j]))
    decreases |s| - i
  {
    if i < |s| && InRun(run, s[i]) {
      SkipRunFacts(s, i + 1, run);
    }
  }

  /** The last line break in `s[lo..hi]`, or -1 when there is none. */
  function LastNewline(s: string, lo: nat, hi: nat): (k: int)
    requires lo <= hi <= |s|
    ensures k == -1 || (lo <= k < hi && s[k] == '\n')
    decreases hi - lo
  {
    if hi == lo then -1
    else if s[hi - 1] == '\n' then hi - 1
    else LastNewline(s, lo, hi - 1)
  }

  /** No line break follows the last one, and none at all when -1. */
  lemma {:induction false} LastNewlineFacts(s: string, lo: nat, hi: nat)
    requires lo <= hi <= |s|
    ensures var k := LastNewline(s, lo, hi);
      forall j :: (if k < 0 then lo else k + 1) <= j < hi ==> s[j] != '\n'
    decreases hi - lo
  {
    if hi > lo && s[hi - 1] != '\n' {
      LastNewlineFacts(s, lo, hi - 1);
    }
  }

  /** Case-insensitive equality with a letter of "RELEASE": the letter, its
      lower-case form, and for 'S' also U+017F LATIN SMALL LETTER LONG S, which
      Python's case-insensitive matching treats as the same letter. */
  predicate SameLetter(c: char, u: char) {
    || c == u
    || ('A' <= u <= 'Z' && c == LowerChar(u))
    || (u == 'S' && c == '\U{17F}')
  }

  /** "RELEASE:" starts at `t`. */
  predicate ReleaseAt(s: string, t: nat) {
    && t + 8 <= |s|
    && SameLetter(s[t], 'R') && SameLetter(s[t + 1], 'E') && SameLetter(s[t + 2], 'L')
    && SameLetter(s[t + 3], 'E') && SameLetter(s[t + 4], 'A') && SameLetter(s[t + 5], 'S')
    && SameLetter(s[t + 6], 'E') && s[t + 7] == ':'
  }

  /** A match of the header pattern: where it starts, the captured version and
      where it ends. */
  datatype Header = Header(start: nat, version: string, end: nat)

  /** `\s*=+\s*\n\s*` from `p`: the opening rule line and the space before
      "RELEASE:". Yields where "RELEASE:" must then stand. */
  function OpeningRule(s: string, p: nat): (t: Option<nat>)
    requires p <= |s|
    ensures t.Some? ==> p < t.value <= |s|
  {
    var q := SkipRun(s, p, Spaces);
    var r := SkipRun(s, q, Equals);
    var t := SkipRun(s, r, Spaces);
    if r == q || LastNewline(s, r, t) < 0 then None else Some(t)
  }

  /** `RELEASE:\s*([\d\.]+)\s*\n\s*=+\s*\n` from `t`: the captured version
      and where the match ends. */
  function ReleaseLine(s: string, t: nat): (r: Option<(string, nat)>)
    requires t <= |s|
    ensures r.Some? ==> t + 8 < r.value.1 <= |s| && s[r.value.1 - 1] == '\n' && |r.value.0| > 0
  {
    if !ReleaseAt(s, t) then None
    else
      var b := SkipRun(s, t + 8, Spaces);
      var c := SkipRun(s, b, VersionChars);
      var d := SkipRun(s, c, Spaces);
      if c == b || LastNewline(s, c, d) < 0 then None
      else
        var e := SkipRun(s, d, Equals);
        var f := SkipRun(s, e, Spaces);
        var n := LastNewline(s, e, f);
        if e == d || n < 0 then None
        else Some((s[b..c], n + 1))
  }

  /** The pattern matched at position `p`, which must be a line start. */
  function MatchAt(s: string, p: nat): (r: Option<Header>)
    requires p <= |s|
    ensures r.Some? ==> r.value.start == p < r.value.end <= |s| && s[r.value.end - 1] == '\n'
    ensures r.Some? ==> |r.value.version| > 0
    ensures r.Some? ==> p == 0 || s[p - 1] == '\n'
  {
    if !(p == 0 || s[p - 1] == '\n') then None
    else
      match OpeningRule(s, p)
      case None => None
      case Some(t) =>
        match ReleaseLine(s, t)
        case None => None
        case Some((version, end)) => Some(Header(p, version, end))
  }

  /** The positions where the pattern matches. */
  function Matches(s: string): nat -> bool {
    (p: nat) => p <= |s| && MatchAt(s, p).Some?
  }

  /** The first position in `[from, hi]` that `found` accepts, scanning
      left to right. */
  function Leftmost(found: nat -> bool, from: nat, hi: nat): (r: Option<nat>)
    ensures r.Some? ==> from <= r.value <= hi && found(r.value)
    decreases hi - from
  {
    if hi < from then None
    else if found(from) then Some(from)
    else Leftmost(found, from + 1, hi)
  }

  /** An accepted position `q` means the scan finds one, no later than `q`. */
  lemma {:induction false} LeftmostWithin(found: nat -> bool, from: nat, hi: nat, q: nat)
    requires from <= q <= hi && found(q)
    ensures Leftmost(found, from, hi).Some? && Leftmost(found, from, hi).value <= q
    decreases q - from
  {
    if !found(from) {
      LeftmostWithin(found, from + 1, hi, q);
    }
  }

  /** No position before the one found is accepted. */
  lemma {:induction false} LeftmostFirst(found: nat -> bool, from: nat, hi: nat, p: nat)
    requires Leftmost(found, from, hi).Some? && from <= p < Leftmost(found, from, hi).value
    ensures !found(p)
    decreases p - from
  {
    if from < p {
      LeftmostFirst(found, from + 1, hi, p);
    }
  }

  /** When the scan finds nothing, no position in range is accepted. */
  lemma {:induction false} LeftmostNone(found: nat -> bool, from: nat, hi: nat, p: nat)
    requires Leftmost(found, from, hi).None? && from <= p <= hi
    ensures !found(p)
    decreases p - from
  {
    if from < p {
      LeftmostNone(found, from + 1, hi, p);
    }
  }

  /** An accepted position with none accepted before it is the one found. */
  lemma {:induction false} LeftmostIs(found: nat -> bool, from: nat, hi: nat, p: nat)
    requires from <= p <= hi && found(p)
    requires forall q :: from <= q < p ==> !found(q)
    ensures Leftmost(found, from, hi) == Some(p)
    decreases p - from
  {
    if from < p {
      LeftmostIs(found, from + 1, hi, p);
    }
  }

  /** Nothing accepted in range: the scan finds nothing. */
  lemma {:induction false} LeftmostNoneIf(found: nat -> bool, from: nat, hi: nat)
    requires forall q :: from <= q <= hi ==> !found(q)
    ensures Leftmost(found, from, hi).None?
    decreases hi - from
  {
    if from <= hi {
      LeftmostNoneIf(found, from + 1, hi);
    }
  }

  /** The leftmost match at or after `from`, as `re.split` searches; the
      header found is the match at its start. */
  function NextHeader(s: string, from: nat): (r: Option<Header>)
    requires from <= |s|
    ensures r.Some? ==> from <= r.value.start < r.value.end <= |s|
    ensures r.Some? ==> MatchAt(s, r.value.start) == r
  {
    match Leftmost(Matches(s), from, |s|)
    case None => None
    case Some(p) => MatchAt(s, p)
  }

  /** A match at `q` means a header is found from any `from` up to `q`, and
      it starts no later than `q`. */
  lemma NextHeaderWithin(s: string, from: nat, q: nat)
    requires from <= q <= |s| && MatchAt(s, q).Some?
    ensures NextHeader(s, from).Some? && NextHeader(s, from).value.start <= q
  {
    LeftmostWithin(Matches(s), from, |s|, q);
  }

  /** No position before the header found matches. */
  lemma NextHeaderLeftmost(s: string, from: nat, p: nat)
    requires from <= p <= |s| && NextHeader(s, from).Some? && p < NextHeader(s, from).value.start
    ensures MatchAt(s, p).None?
  {
    LeftmostFirst(Matches(s), from, |s|, p);
  }

  /** When no header is found, no position matches. */
  lemma NextHeaderNone(s: string, from: nat, p: nat)
    requires from <= p <= |s| && NextHeader(s, from).None?
    ensures MatchAt(s, p).None?
  {
    LeftmostNone(Matches(s), from, |s|, p);
  }

  /** No match from `from` on: no header is found. */
  lemma NoMatchNoHeader(s: string, from: nat)
    requires from <= |s|
    requires forall p :: from <= p <= |s| ==> MatchAt(s, p).None?
    ensures NextHeader(s, from).None?
  {
    LeftmostNoneIf(Matches(s), from, |s|);
  }

  /** The leftmost match is the one found: a match at `p` and none in
      `[from, p)` make `p` the header `NextHeader` returns. */
  lemma NextHeaderIs(s: string, from: nat, p: nat)
    requires from <= p <= |s| && MatchAt(s, p).Some?
    requires forall p' :: from <= p' < p ==> MatchAt(s, p').None?
    ensures NextHeader(s, from) == MatchAt(s, p)
  {
    LeftmostIs(Matches(s), from, |s|, p);
  }

  /** `pattern.split(s[from..])`: the text before the first header, then for
      each header its version followed by the text up to the next header. */
  function SplitFrom(s: string, from: nat): (parts: seq<string>)
    requires from <= |s|
    ensures |parts| >= 1
    decreases |s| - from
  {
    match NextHeader(s, from)
    case None => [s[from..]]
    case Some(h) => [s[from..h.start], h.version] + SplitFrom(s, h.end)
  }

  /** The number of headers `re.split` finds from `from` on. */
  function HeaderCount(s: string, from: nat): nat
    requires from <= |s|
    decreases |s| - from
  {
    match NextHeader(s, from)
    case None => 0
    case Some(h) => 1 + HeaderCount(s, h.end)
  }

  /** A text part around each header: one part more than there are versions. */
  lemma {:induction false} SplitFromLength(s: string, from: nat)
    requires from <= |s|
    ensures |SplitFrom(s, from)| == 2 * HeaderCount(s, from) + 1
    decreases |s| - from
  {
    match NextHeader(s, from)
    case None =>
    case Some(h) =>
      SplitFromLength(s, h.end);
  }

  function RegexSplit(s: string): seq<string> {
    SplitFrom(s, 0)
  }

  /** The dictionary after the first `n` rounds of the loop over the odd
      indices of `parts`: round `k` stores the stripped `parts[2k + 1]` as
      key of `parts[2k + 2]`, when that index exists. */
  function PairsMap(parts: seq<string>, n: nat): map<string, string> {
    if n == 0 then map[]
    else
      var i := 2 * n - 1;
      var m := PairsMap(parts, n - 1);
      if i + 1 < |parts| then m[Strip(parts[i]) := parts[i + 1]] else m
  }

  /** The versions the same rounds insert into the release list, in order,
      repeats included. */
  function ListedVersions(parts: seq<string>, n: nat): seq<string> {
    if n == 0 then []
    else
      var prev := ListedVersions(parts, n - 1);
      if 2 * n < |parts| then prev + [Strip(parts[2 * n - 1])] else prev
  }

  /** The release list names exactly the keys of the dictionary. */
  lemma {:induction false} ListedVersionsKeys(parts: seq<string>, n: nat, key: string)
    ensures key in PairsMap(parts, n) <==> key in ListedVersions(parts, n)
  {
    if n > 0 {
      ListedVersionsKeys(parts, n - 1, key);
    }
  }

  /** The dictionary built from a whole split. */
  function Summaries(parts: seq<string>): map<string, string> {
    PairsMap(parts, |parts| / 2)
  }

  /** The summaries of a cache text. */
  function ParseSummaries(content: string): map<string, string> {
    Summaries(RegexSplit(content))
  }

  /** Round `k` stores `key`: its text part exists and its version, stripped,
      is `key`. */
  predicate KeyAt(parts: seq<string>, k: nat, key: string) {
    2 * k + 2 < |parts| && Strip(parts[2 * k + 1]) == key
  }

  /** The keys after `n` rounds are the stripped versions of those rounds. */
  lemma {:induction false} PairsMapKeys(parts: seq<string>, n: nat, key: string)
    ensures key in PairsMap(parts, n) <==> exists k :: 0 <= k < n && KeyAt(parts, k, key)
  {
    if n > 0 {
      PairsMapKeys(parts, n - 1, key);
      if KeyAt(parts, n - 1, key) {
        assert key in PairsMap(parts, n);
      }
    }
  }

  /** A later duplicate wins: a key maps to the text after its LAST header. */
  lemma {:induction false} PairsMapLaterWins(parts: seq<string>, n: nat, k: nat, key: string)
    requires k < n && KeyAt(parts, k, key)
    requires forall k' :: k < k' < n ==> !KeyAt(parts, k', key)
    ensures key in PairsMap(parts, n) && PairsMap(parts, n)[key] == parts[2 * k + 2]
  {
    if k < n - 1 {
      assert !KeyAt(parts, n - 1, key);
      PairsMapLaterWins(parts, n - 1, k, key);
    }
  }

  /** Keys of the summaries: the stripped captured versions. */
  lemma SummariesKeys(parts: seq<string>, key: string)
    requires |parts| % 2 == 1
    ensures key in Summaries(parts) <==>
      exists k :: 0 <= k < |parts| / 2 && Strip(parts[2 * k + 1]) == key
  {
    PairsMapKeys(parts, |parts| / 2, key);
    if exists k :: 0 <= k < |parts| / 2 && Strip(parts[2 * k + 1]) == key {
      var k :| 0 <= k < |parts| / 2 && Strip(parts[2 * k + 1]) == key;
      assert KeyAt(parts, k, key);
    }
  }

  /** Values of the summaries: the text after the last header of that version. */
  lemma SummariesLaterWins(parts: seq<string>, k: nat)
    requires |parts| % 2 == 1 && k < |parts| / 2
    requires forall k' :: k < k' < |parts| / 2 ==> Strip(parts[2 * k' + 1]) != Strip(parts[2 * k + 1])
    ensures Strip(parts[2 * k + 1]) in Summaries(parts)
    ensures Summaries(parts)[Strip(parts[2 * k + 1])] == parts[2 * k + 2]
  {
    var key := Strip(parts[2 * k + 1]);
    forall k' | k < k' < |parts| / 2 ensures !KeyAt(parts, k', key) {
    }
    PairsMapLaterWins(parts, |parts| / 2, k, key);
  }

  /** A text without any header gives an empty dictionary. */
  lemma NoHeaderNoSummaries(content: string)
    requires forall p :: 0 <= p <= |content| ==> MatchAt(content, p).None?
    ensures ParseSummaries(content) == map[]
  {
    NoMatchNoHeader(content, 0);
  }

  /** A match needs "RELEASE:" somewhere at or after its start. */
  lemma MatchNeedsRelease(s: string, p: nat)
    requires p <= |s| && MatchAt(s, p).Some?
    ensures exists t :: p <= t && ReleaseAt(s, t)
  {
    var t := OpeningRule(s, p).value;
    assert ReleaseAt(s, t);
  }

  /** Text holding no "RELEASE:" (in any case) has no header. */
  lemma NoReleaseNoSummaries(content: string)
    requires forall t :: 0 <= t <= |content| ==> !ReleaseAt(content, t)
    ensures ParseSummaries(content) == map[]
  {
    forall p | 0 <= p <= |content| ensures MatchAt(content, p).None? {
      if MatchAt(content, p).Some? {
        MatchNeedsRelease(content, p);
      }
    }
    NoHeaderNoSummaries(content);
  }
}
