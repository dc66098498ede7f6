/** The summaries document read back: parsing what the compiler wrote gives
    one entry per selected release, under its version, and, when the bodies
    are regular enough that the header pattern's leading and trailing `\s*`
    take nothing from them, exactly the bodies that were written. */
module RoundTrip {
  import opened Wrappers
  import opened PyText
  import opened PyInt
  import opened SummariesParser
  import opened Subsequences
  import opened ReleaseNotesCompiler

  /** No case-insensitive "RELEASE:" anywhere in the text. */
  predicate NoReleaseToken(body: string) {
    forall t :: 0 <= t <= |body| ==> !ReleaseAt(body, t)
  }

  /** A non-empty run of digits and dots, as `[\d\.]+` captures. */
  predicate IsVersionText(v: string) {
    |v| > 0 && forall i :: 0 <= i < |v| ==> InRun(VersionChars, v[i])
  }

  /** A release the parser can find again: a version it captures whole and
      a body that cannot be mistaken for a header. */
  predicate Separable(r: Release) {
    IsVersionText(r.version) && NoReleaseToken(r.body)
  }

  /** A body the header pattern leaves untouched: it starts with a
      non-space character, so the header's trailing `\s*\n` stops before
      it, and it ends with one line break after a non-space character, so
      the next header's leading `^\s*` starts just after it. */
  predicate Exact(body: string) {
    |body| >= 2 && !IsSpace(body[0]) && body[|body| - 1] == '\n' && !IsSpace(body[|body| - 2])
  }

  // ---------------------------------------------------------------------
  // Runs and line breaks over a known stretch of text

  lemma {:induction false} SkipRunOver(s: string, i: nat, j: nat, run: Run)
    requires i <= j <= |s|
    requires forall k :: i <= k < j ==> InRun(run, s[k])
    requires j == |s| || !InRun(run, s[j])
    ensures SkipRun(s, i, run) == j
    decreases j - i
  {
    if i < j {
      SkipRunOver(s, i + 1, j, run);
    }
  }

  lemma SkipRunAtLeast(s: string, i: nat, j: nat, run: Run)
    requires i <= j <= |s|
    requires forall k :: i <= k < j ==> InRun(run, s[k])
    ensures j <= SkipRun(s, i, run)
  {
    SkipRunFacts(s, i, run);
  }

  lemma SkipRunStops(s: string, i: nat, k: nat, run: Run)
    requires i <= k < |s| && !InRun(run, s[k])
    ensures SkipRun(s, i, run) <= k
  {
    SkipRunFacts(s, i, run);
  }

  lemma LastNewlineAtLeast(s: string, lo: nat, hi: nat, k: nat)
    requires lo <= k < hi <= |s| && s[k] == '\n'
    ensures LastNewline(s, lo, hi) >= k
  {
    LastNewlineFacts(s, lo, hi);
  }

  /** The characters of "RELEASE:" are neither line breaks nor spaces. */
  lemma ReleaseAtChars(s: string, t: nat)
    requires ReleaseAt(s, t)
    ensures forall k :: t <= k < t + 8 ==> s[k] != '\n' && !InRun(Spaces, s[k]) && !InRun(Equals, s[k])
  {
  }

  // ---------------------------------------------------------------------
  // Where everything stands in a block

  /** The length of the header of version `v`. */
  function HeaderLength(v: string): nat {
    115 + |v|
  }

  lemma HeaderTextLength(v: string)
    ensures |HeaderText(v)| == HeaderLength(v)
  {
  }

  /** The characters of a header, offset by offset. */
  lemma HeaderTextChars(v: string)
    ensures var h := HeaderText(v); var m := |v|;
      && |h| == 115 + m
      && h[0] == '\n'
      && (forall k :: 1 <= k < 51 ==> h[k] == '=')
      && h[51] == '\n' && h[52] == ' '
      && h[53..61] == "RELEASE:"
      && h[61] == ' '
      && h[62..62 + m] == v
      && h[62 + m] == '\n'
      && (forall k :: 63 + m <= k < 113 + m ==> h[k] == '=')
      && h[113 + m] == '\n' && h[114 + m] == '\n'
  {
    var m := |v|;
    var h := HeaderText(v);
    var a := "\n" + Rule + "\n RELEASE: ";
    assert |a| == 62;
    assert h == a + v + "\n" + Rule + "\n\n";
    assert forall k :: 1 <= k < 51 ==> a[k] == Rule[k - 1];
    assert a[53..61] == "RELEASE:";
    assert forall k :: 63 + m <= k < 113 + m ==> h[k] == Rule[k - 63 - m];
  }

  /** A release's block laid out in `s` from offset `o`, character by
      character. */
  predicate BlockAt(s: string, o: nat, r: Release) {
    var m, c := |r.version|, r.body;
    && o + 115 + m + |c| <= |s|
    && s[o] == '\n'
    && (forall k :: o + 1 <= k < o + 51 ==> s[k] == '=')
    && s[o + 51] == '\n' && s[o + 52] == ' '
    && s[o + 53..o + 61] == "RELEASE:"
    && s[o + 61] == ' '
    && s[o + 62..o + 62 + m] == r.version
    && s[o + 62 + m] == '\n'
    && (forall k :: o + 63 + m <= k < o + 113 + m ==> s[k] == '=')
    && s[o + 113 + m] == '\n' && s[o + 114 + m] == '\n'
    && s[o + 115 + m..o + 115 + m + |c|] == c
  }

  /** Where a block ends. */
  function BlockEnd(o: nat, r: Release): nat {
    o + HeaderLength(r.version) + |r.body|
  }

  /** At `z` the next block starts, or the text ends. */
  predicate NextBlockOrEnd(s: string, z: nat) {
    z == |s| || (z + 2 <= |s| && s[z] == '\n' && s[z + 1] == '=')
  }

  lemma BlockFacts(s: string, w: string, r: Release, rest: string)
    requires s == w + BlockText(r) + rest
    ensures BlockAt(s, |w|, r) && BlockEnd(|w|, r) == |w + BlockText(r)|
    ensures s[..|w|] == w && s[BlockEnd(|w|, r)..] == rest
  {
    var o, m, c := |w|, |r.version|, r.body;
    var h := HeaderText(r.version);
    HeaderTextChars(r.version);
    assert s == w + h + c + rest;
    assert forall k :: 0 <= k < 115 + m ==> s[o + k] == h[k];
    assert s[o + 53..o + 61] == h[53..61];
    assert s[o + 62..o + 62 + m] == h[62..62 + m];
    assert s[o + 115 + m..o + 115 + m + |c|] == c;
  }

  /** No character of a header other than the 'R' of "RELEASE:" can start
      "RELEASE:". */
  lemma HeaderHasOneR(s: string, o: nat, r: Release, t: nat)
    requires BlockAt(s, o, r) && IsVersionText(r.version)
    requires o <= t < o + HeaderLength(r.version) && t != o + 53
    ensures !SameLetter(s[t], 'R')
  {
    var m := |r.version|;
    if o + 53 < t < o + 61 {
      assert s[t] == s[o + 53..o + 61][t - o - 53];
    } else if o + 62 <= t < o + 62 + m {
      assert s[t] == s[o + 62..o + 62 + m][t - o - 62];
    }
  }

  /** `\s*=+\s*\n\s*` from the line break that opens a block, or from the
      line of '=' after it, ends at "RELEASE:". */
  lemma OpeningAtBlock(s: string, o: nat, r: Release)
    requires BlockAt(s, o, r)
    ensures OpeningRule(s, o) == Some(o + 53)
    ensures OpeningRule(s, o + 1) == Some(o + 53)
  {
    assert SkipRun(s, o + 1, Spaces) == o + 1;
    SkipRunOver(s, o, o + 1, Spaces);
    SkipRunOver(s, o + 1, o + 51, Equals);
    assert s[o + 53] == s[o + 53..o + 61][0];
    SkipRunOver(s, o + 51, o + 53, Spaces);
    assert LastNewline(s, o + 51, o + 53) == o + 51;
  }

  /** `ReleaseLine` from the positions its runs reach. */
  lemma ReleaseLineBy(s: string, t: nat, b: nat, c: nat, d: nat, e: nat)
    requires t + 8 <= |s| && ReleaseAt(s, t)
    requires SkipRun(s, t + 8, Spaces) == b && SkipRun(s, b, VersionChars) == c && c != b
    requires SkipRun(s, c, Spaces) == d && LastNewline(s, c, d) >= 0
    requires SkipRun(s, d, Equals) == e && e != d && LastNewline(s, e, SkipRun(s, e, Spaces)) >= 0
    ensures ReleaseLine(s, t) == Some((s[b..c], LastNewline(s, e, SkipRun(s, e, Spaces)) + 1))
  {
  }

  /** The end of the match after the closing rule of a block: just after the
      last line break of the space that follows it. */
  function EndAfterRule(s: string, e: nat): int
    requires e <= |s|
  {
    LastNewline(s, e, SkipRun(s, e, Spaces)) + 1
  }

  lemma ReleaseTokenAtBlock(s: string, o: nat, r: Release)
    requires BlockAt(s, o, r)
    ensures ReleaseAt(s, o + 53)
  {
    var t := o + 53;
    var u := s[o + 53..o + 61];
    assert s[t] == u[0] && s[t + 1] == u[1] && s[t + 2] == u[2] && s[t + 3] == u[3];
    assert s[t + 4] == u[4] && s[t + 5] == u[5] && s[t + 6] == u[6] && s[t + 7] == u[7];
  }

  /** A run over a stretch of text known as a sequence. */
  lemma SkipRunOverSlice(s: string, i: nat, v: string, run: Run)
    requires i + |v| < |s| && s[i..i + |v|] == v
    requires forall k :: 0 <= k < |v| ==> InRun(run, v[k])
    requires !InRun(run, s[i + |v|])
    ensures SkipRun(s, i, run) == i + |v|
  {
    forall k | i <= k < i + |v| ensures InRun(run, s[k]) {
      assert s[k] == s[i..i + |v|][k - i];
    }
    SkipRunOver(s, i, i + |v|, run);
  }

  /** `\s*([\d\.]+)` after "RELEASE:" reaches the end of the version. */
  lemma VersionRunAtBlock(s: string, o: nat, r: Release)
    requires BlockAt(s, o, r) && IsVersionText(r.version)
    ensures SkipRun(s, o + 61, Spaces) == o + 62
    ensures SkipRun(s, o + 62, VersionChars) == o + 62 + |r.version|
  {
    var m := |r.version|;
    assert s[o + 62] == s[o + 62..o + 62 + m][0];
    SkipRunOver(s, o + 61, o + 62, Spaces);
    SkipRunOverSlice(s, o + 62, r.version, VersionChars);
  }

  /** `\s*\n\s*=+` after the version reaches the end of the closing rule,
      and the space after it holds a line break. */
  lemma ClosingRuleAtBlock(s: string, o: nat, r: Release)
    requires BlockAt(s, o, r)
    ensures var m := o + 62 + |r.version|;
      && SkipRun(s, m, Spaces) == m + 1 && LastNewline(s, m, m + 1) == m
      && SkipRun(s, m + 1, Equals) == m + 51
      && LastNewline(s, m + 51, SkipRun(s, m + 51, Spaces)) >= m + 52
  {
    var m := |r.version|;
    SkipRunOver(s, o + 62 + m, o + 63 + m, Spaces);
    assert LastNewline(s, o + 62 + m, o + 63 + m) == o + 62 + m;
    SkipRunOver(s, o + 63 + m, o + 113 + m, Equals);
    var e := o + 113 + m;
    SkipRunAtLeast(s, e, e + 2, Spaces);
    LastNewlineAtLeast(s, e, SkipRun(s, e, Spaces), e + 1);
  }

  /** The rest of the pattern from "RELEASE:" captures the version. */
  lemma ReleaseLineVersion(s: string, o: nat, r: Release)
    requires BlockAt(s, o, r) && IsVersionText(r.version)
    ensures ReleaseLine(s, o + 53) == Some((r.version, EndAfterRule(s, o + 113 + |r.version|)))
  {
    var m := |r.version|;
    ReleaseTokenAtBlock(s, o, r);
    VersionRunAtBlock(s, o, r);
    ClosingRuleAtBlock(s, o, r);
    ReleaseLineBy(s, o + 53, o + 62, o + 62 + m, o + 63 + m, o + 113 + m);
  }

  /** Where that match ends: inside the space after the closing rule, just
      before the body when the body starts with a non-space character, and
      never past the line break that opens the next block. */
  lemma EndAfterRuleBounds(s: string, o: nat, r: Release)
    requires BlockAt(s, o, r) && NextBlockOrEnd(s, BlockEnd(o, r))
    ensures var e := o + 113 + |r.version|;
      && o + HeaderLength(r.version) <= EndAfterRule(s, e)
      && (BlockEnd(o, r) < |s| ==> EndAfterRule(s, e) <= BlockEnd(o, r) + 1)
      && (r.body != [] && !IsSpace(r.body[0]) ==> EndAfterRule(s, e) == o + HeaderLength(r.version))
  {
    var m, c := |r.version|, r.body;
    var e := o + 113 + m;
    var f := SkipRun(s, e, Spaces);
    SkipRunAtLeast(s, e, e + 2, Spaces);
    LastNewlineAtLeast(s, e, f, e + 1);
    if BlockEnd(o, r) < |s| {
      SkipRunStops(s, e, BlockEnd(o, r) + 1, Spaces);
    }
    if c != [] && !IsSpace(c[0]) {
      assert s[e + 2] == s[o + 115 + m..o + 115 + m + |c|][0];
      SkipRunOver(s, e, e + 2, Spaces);
    }
  }

  // ---------------------------------------------------------------------
  // Matches around a block

  /** The runs `\s*`, `=+`, `\s*` that `OpeningRule` passes over. */
  lemma OpeningRuleFacts(s: string, p: nat)
    requires p <= |s| && OpeningRule(s, p).Some?
    ensures var q := SkipRun(s, p, Spaces); var r := SkipRun(s, q, Equals); var t := OpeningRule(s, p).value;
      && q < r <= t
      && (forall k :: p <= k < q ==> IsSpace(s[k]))
      && (forall k :: q <= k < r ==> s[k] == '=')
      && (forall k :: r <= k < t ==> IsSpace(s[k]))
  {
    var q := SkipRun(s, p, Spaces);
    var r := SkipRun(s, q, Equals);
    SkipRunFacts(s, p, Spaces);
    SkipRunFacts(s, q, Equals);
    SkipRunFacts(s, r, Spaces);
  }

  lemma ReleaseLineNeedsRelease(s: string, t: nat)
    requires t <= |s| && ReleaseLine(s, t).Some?
    ensures ReleaseAt(s, t)
  {
  }

  /** The text before a block holds no "RELEASE:" from `p` on. */
  predicate NoTokenBetween(s: string, p: nat, o: nat) {
    forall t :: p <= t < o ==> !ReleaseAt(s, t)
  }

  /** A match from a stretch without "RELEASE:" up to the block's first line
      of '=' reaches the block's "RELEASE:". */
  lemma OpeningBeforeBlock(s: string, o: nat, r: Release, p: nat, p': nat)
    requires BlockAt(s, o, r) && IsVersionText(r.version)
    requires p <= p' <= o + 1 && NoTokenBetween(s, p, o)
    requires OpeningRule(s, p').Some? && ReleaseAt(s, OpeningRule(s, p').value)
    ensures OpeningRule(s, p').value == o + 53
  {
    var t := OpeningRule(s, p').value;
    OpeningRuleFacts(s, p');
    assert s[o + 53] == 'R' by {
      assert s[o + 53] == s[o + 53..o + 61][0];
    }
    if o <= t < o + 53 {
      HeaderHasOneR(s, o, r, t);
    }
  }

  /** Such a match starting before the block's line break starts in a
      stretch of space that reaches the line break. */
  lemma SpacesBeforeBlock(s: string, o: nat, r: Release, p': nat)
    requires BlockAt(s, o, r) && p' < o
    requires OpeningRule(s, p').Some? && OpeningRule(s, p').value == o + 53
    ensures forall k :: p' <= k <= o ==> IsSpace(s[k])
  {
    OpeningRuleFacts(s, p');
    var q := SkipRun(s, p', Spaces);
    assert s[o + 1] == '=' && s[o] == '\n';
    assert q == o + 1;
  }

  /** Every match that starts before the block, from a stretch without
      "RELEASE:", or on its first line of '=', is the block's header: it
      reads the block's version and ends where the block's header ends. A
      match that starts before the block's line break starts in a stretch of
      space reaching up to it. */
  lemma MatchBeforeBlock(s: string, o: nat, r: Release, p: nat, p': nat)
    requires BlockAt(s, o, r) && IsVersionText(r.version)
    requires p <= p' <= o + 1 && NoTokenBetween(s, p, o)
    requires MatchAt(s, p').Some?
    ensures MatchAt(s, p') == Some(Header(p', r.version, EndAfterRule(s, o + 113 + |r.version|)))
    ensures p' < o ==> forall k :: p' <= k <= o ==> IsSpace(s[k])
  {
    ReleaseLineNeedsRelease(s, OpeningRule(s, p').value);
    OpeningBeforeBlock(s, o, r, p, p');
    ReleaseLineVersion(s, o, r);
    if p' < o {
      SpacesBeforeBlock(s, o, r, p');
    }
  }

  /** Right after a non-space character and a line break: where an exact
      body ends and the next block starts. */
  predicate ExactStart(s: string, o: nat) {
    2 <= o <= |s| && s[o - 1] == '\n' && !IsSpace(s[o - 2])
  }

  /** The header of a block matches from the line of '=' after its line
      break, and from the line break itself when that starts a line. */
  lemma BlockHeaderMatches(s: string, o: nat, r: Release)
    requires BlockAt(s, o, r) && IsVersionText(r.version)
    ensures MatchAt(s, o + 1).Some?
    ensures ExactStart(s, o) ==> MatchAt(s, o).Some?
  {
    OpeningAtBlock(s, o, r);
    ReleaseLineVersion(s, o, r);
  }

  /** Some header is found from `p`, no later than the block's own. */
  lemma FirstMatchNear(s: string, o: nat, r: Release, p: nat)
    requires BlockAt(s, o, r) && IsVersionText(r.version) && p <= o + 1
    ensures NextHeader(s, p).Some? && NextHeader(s, p).value.start <= o + 1
    ensures MatchAt(s, NextHeader(s, p).value.start) == NextHeader(s, p)
  {
    BlockHeaderMatches(s, o, r);
    NextHeaderWithin(s, p, o + 1);
  }

  /** The first header found from `p` is the block's header: it reads the
      block's version and ends where the header ends; it starts exactly at
      the block when the text before ends with a non-space character and a
      line break. */
  lemma FirstMatchAtBlock(s: string, o: nat, r: Release, p: nat)
    requires BlockAt(s, o, r) && IsVersionText(r.version)
    requires p <= o + 1 && NoTokenBetween(s, p, o)
    ensures NextHeader(s, p).Some?
    ensures NextHeader(s, p).value.start <= o + 1
    ensures NextHeader(s, p).value.version == r.version
    ensures NextHeader(s, p).value.end == EndAfterRule(s, o + 113 + |r.version|)
    ensures p <= o && ExactStart(s, o) ==> NextHeader(s, p).value.start == o
  {
    FirstMatchNear(s, o, r, p);
    var h := NextHeader(s, p).value;
    MatchBeforeBlock(s, o, r, p, h.start);
    if p <= o && ExactStart(s, o) {
      BlockHeaderMatches(s, o, r);
      NextHeaderWithin(s, p, o);
      ExactStartFirst(s, o, h.start);
    }
  }

  /** A match starting in a stretch of space that reaches `o` starts at `o`
      when `o` follows a non-space character and a line break: every match
      starts a line. */
  lemma ExactStartFirst(s: string, o: nat, p': nat)
    requires ExactStart(s, o) && p' <= o && MatchAt(s, p').Some?
    requires p' < o ==> forall k :: p' <= k < o ==> IsSpace(s[k])
    ensures p' == o
  {
  }

  /** "RELEASE:" inside a stretch of `s` is "RELEASE:" in that stretch. */
  lemma ReleaseAtInside(s: string, b: nat, c: string, t: nat)
    requires b + |c| <= |s| && s[b..b + |c|] == c
    requires b <= t && t + 8 <= b + |c| && ReleaseAt(s, t)
    ensures ReleaseAt(c, t - b)
  {
    forall k | t <= k < t + 8 ensures s[k] == c[k - b] {
      assert s[k] == s[b..b + |c|][k - b];
    }
  }

  /** After its "RELEASE:", a block holds no other, up to the next block. */
  lemma NoTokenInBlock(s: string, o: nat, r: Release)
    requires BlockAt(s, o, r) && Separable(r) && NextBlockOrEnd(s, BlockEnd(o, r))
    ensures NoTokenBetween(s, o + 54, BlockEnd(o, r))
  {
    var b := o + HeaderLength(r.version);
    var z := BlockEnd(o, r);
    forall t | o + 54 <= t < z ensures !ReleaseAt(s, t) {
      if ReleaseAt(s, t) {
        if t < b {
          HeaderHasOneR(s, o, r, t);
        } else if t + 8 <= z {
          ReleaseAtInside(s, b, r.body, t);
        } else {
          ReleaseAtChars(s, t);
        }
      }
    }
  }

  /** No "RELEASE:" from `p` on: the split is the rest of the text. */
  lemma SplitWithoutToken(s: string, p: nat)
    requires p <= |s| && NoTokenBetween(s, p, |s|)
    ensures SplitFrom(s, p) == [s[p..]]
  {
    forall p' | p <= p' <= |s| ensures MatchAt(s, p').None? {
      if MatchAt(s, p').Some? {
        MatchNeedsRelease(s, p');
      }
    }
    NoMatchNoHeader(s, p);
  }

  // ---------------------------------------------------------------------
  // A run of blocks

  /** The blocks of `rs` laid out one after the other from `o` to the end
      of `s`. */
  predicate BlocksAt(s: string, o: nat, rs: seq<Release>)
    decreases |rs|
  {
    if rs == [] then o == |s|
    else BlockAt(s, o, rs[0]) && BlocksAt(s, BlockEnd(o, rs[0]), rs[1..])
  }

  lemma {:induction false} BlocksAtText(s: string, w: string, rs: seq<Release>)
    requires s == w + BlocksText(rs)
    ensures BlocksAt(s, |w|, rs)
    decreases |rs|
  {
    if rs != [] {
      var w' := w + BlockText(rs[0]);
      assert s == w + BlockText(rs[0]) + BlocksText(rs[1..]);
      BlockFacts(s, w, rs[0], BlocksText(rs[1..]));
      assert s == w' + BlocksText(rs[1..]);
      BlocksAtText(s, w', rs[1..]);
    }
  }

  /** Each block is followed by the next one or by the end of the text. */
  lemma BlocksAtNext(s: string, o: nat, rs: seq<Release>)
    requires rs != [] && BlocksAt(s, o, rs)
    ensures NextBlockOrEnd(s, BlockEnd(o, rs[0]))
  {
    var z := BlockEnd(o, rs[0]);
    if rs[1..] != [] {
      assert BlockAt(s, z, rs[1..][0]);
    }
  }

  /** One block's step of the split: the text before its header, its
      version, and the split from where its header ends. */
  lemma SplitStep(s: string, o: nat, r: Release, p: nat)
    requires BlockAt(s, o, r) && Separable(r) && NextBlockOrEnd(s, BlockEnd(o, r))
    requires p <= o + 1 && NoTokenBetween(s, p, o)
    ensures var e := EndAfterRule(s, o + 113 + |r.version|); var z := BlockEnd(o, r);
      && NextHeader(s, p).Some?
      && p <= NextHeader(s, p).value.start <= o + 1
      && o + 54 <= e <= |s| && (z < |s| ==> e <= z + 1)
      && SplitFrom(s, p) == [s[p..NextHeader(s, p).value.start], r.version] + SplitFrom(s, e)
      && NoTokenBetween(s, e, z)
      && (p <= o && ExactStart(s, o) ==> NextHeader(s, p).value.start == o)
  {
    FirstMatchAtBlock(s, o, r, p);
    EndAfterRuleBounds(s, o, r);
    NoTokenInBlock(s, o, r);
  }

  /** An exact body is the stretch from the end of its header to the end of
      its block, and the block ends like an exact body. */
  lemma ExactBody(s: string, o: nat, r: Release)
    requires BlockAt(s, o, r) && NextBlockOrEnd(s, BlockEnd(o, r)) && Exact(r.body)
    ensures var e := EndAfterRule(s, o + 113 + |r.version|); var z := BlockEnd(o, r);
      e <= z && s[e..z] == r.body && (z < |s| ==> ExactStart(s, z))
  {
    var z := BlockEnd(o, r);
    var c := r.body;
    var b := o + HeaderLength(r.version);
    EndAfterRuleBounds(s, o, r);
    assert s[b..z] == c;
    if z < |s| {
      assert s[z - 1] == c[|c| - 1] && s[z - 2] == c[|c| - 2];
    }
  }

  /** The parts `re.split` gives over a run of blocks: the text before the
      first header, then for each release its version and the text after
      its header, which is the release's body when that body is exact. */
  predicate SplitShape(parts: seq<string>, rs: seq<Release>)
    decreases |rs|
  {
    if rs == [] then |parts| == 1
    else
      && |parts| >= 3
      && parts[1] == rs[0].version
      && (Exact(rs[0].body) ==> parts[2] == rs[0].body)
      && SplitShape(parts[2..], rs[1..])
  }

  /** The shape slot by slot: release `k`'s version is part `2k + 1` and its
      exact body part `2k + 2`. */
  lemma {:induction false} ShapeAt(parts: seq<string>, rs: seq<Release>, k: nat)
    requires SplitShape(parts, rs)
    ensures |parts| == 2 * |rs| + 1
    ensures k < |rs| ==> parts[2 * k + 1] == rs[k].version
    ensures k < |rs| && Exact(rs[k].body) ==> parts[2 * k + 2] == rs[k].body
    decreases |rs|
  {
    if rs != [] {
      var k' := if k > 0 then k - 1 else 0;
      ShapeAt(parts[2..], rs[1..], k');
      if 0 < k < |rs| {
        assert rs[1..][k'] == rs[k];
        assert parts[2..][2 * k' + 1] == parts[2 * k + 1];
        assert parts[2..][2 * k' + 2] == parts[2 * k + 2];
      }
    }
  }

  /** A first block's text and version in front of the parts of the blocks
      after it. */
  lemma ShapeCons(parts: seq<string>, a: string, rest: seq<string>, rs: seq<Release>)
    requires rs != [] && parts == [a, rs[0].version] + rest && SplitShape(rest, rs[1..])
    requires Exact(rs[0].body) ==> rest[0] == rs[0].body
    ensures SplitShape(parts, rs)
  {
    ShapeAt(rest, rs[1..], 0);
    assert parts[2..] == rest;
  }

  /** Splitting from `p`, before the first block, finds every block's header
      and version; when the bodies are exact, the texts between the headers
      are the bodies; and when the text before the first block ends like an
      exact body, the first part is that text. */
  lemma {:induction false} SplitBlocks(s: string, o: nat, rs: seq<Release>, p: nat)
    requires BlocksAt(s, o, rs) && p <= o + 1 && p <= |s| && NoTokenBetween(s, p, o)
    requires forall k :: 0 <= k < |rs| ==> Separable(rs[k])
    ensures SplitShape(SplitFrom(s, p), rs)
    ensures p <= o && (rs == [] || ExactStart(s, o)) ==> SplitFrom(s, p)[0] == s[p..o]
    decreases |rs|
  {
    if rs == [] {
      SplitWithoutToken(s, p);
    } else {
      var r := rs[0];
      var z := BlockEnd(o, r);
      BlocksAtNext(s, o, rs);
      SplitStep(s, o, r, p);
      var e := EndAfterRule(s, o + 113 + |r.version|);
      assert forall k :: 0 <= k < |rs[1..]| ==> Separable(rs[1..][k]) by {
        forall k | 0 <= k < |rs[1..]| ensures Separable(rs[1..][k]) {
          assert rs[1..][k] == rs[k + 1];
        }
      }
      SplitBlocks(s, z, rs[1..], e);
      if Exact(r.body) {
        ExactBody(s, o, r);
        if rs[1..] != [] {
          assert BlockAt(s, z, rs[1..][0]);
        }
      }
      ShapeCons(SplitFrom(s, p), s[p..NextHeader(s, p).value.start], SplitFrom(s, e), rs);
    }
  }

  // ---------------------------------------------------------------------
  // The compiled document read back

  /** The title holds no "RELEASE:": it holds no colon. */
  lemma TitleHasNoToken(t: nat)
    ensures !ReleaseAt(Title, t)
  {
    assert ':' !in Title;
    if t + 8 <= |Title| {
      assert Title[t + 7] in Title;
    }
  }

  /** Nothing from the start of the document to its first block can be
      "RELEASE:". */
  lemma NoTokenInTitle(s: string, rs: seq<Release>)
    requires s == Title + BlocksText(rs) && BlocksAt(s, |Title|, rs)
    ensures NoTokenBetween(s, 0, |Title|)
  {
    forall t | 0 <= t < |Title| ensures !ReleaseAt(s, t) {
      TitleHasNoToken(t);
    }
  }

  /** The release of a version file name has a version the pattern captures. */
  lemma ReleaseVersionText(dir: string, read: string -> Result<string, string>, name: string)
    requires IsVersionFileName(name)
    ensures IsVersionText(ReleaseOf(dir, read, name).version)
  {
    VersionOfFileName(name);
  }

  /** The title followed by blocks: the blocks stand after the title, and
      nothing before them can be "RELEASE:". */
  lemma TitledLayout(s: string, rs: seq<Release>)
    requires s == Title + BlocksText(rs)
    ensures BlocksAt(s, |Title|, rs) && NoTokenBetween(s, 0, |Title|)
  {
    BlocksAtText(s, Title, rs);
    NoTokenInTitle(s, rs);
  }

  /** Splitting from the start of a text whose blocks follow a stretch
      without "RELEASE:": one version per block, in order, and the bodies
      between them when they are exact. */
  lemma LeadingSplit(s: string, o: nat, rs: seq<Release>)
    requires BlocksAt(s, o, rs) && NoTokenBetween(s, 0, o)
    requires forall k :: 0 <= k < |rs| ==> Separable(rs[k])
    ensures SplitShape(RegexSplit(s), rs)
  {
    assert o <= |s| by {
      if rs != [] {
        assert BlockAt(s, o, rs[0]);
      }
    }
    SplitBlocks(s, o, rs, 0);
  }

  /** The parts over the releases of the names, in terms of the names. */
  lemma ShapeOfNames(parts: seq<string>, names: seq<string>, dir: string, read: string -> Result<string, string>)
    requires SplitShape(parts, Releases(names, dir, read))
    ensures |parts| == 2 * |names| + 1
    ensures forall k :: 0 <= k < |names| ==> parts[2 * k + 1] == Version(names[k])
    ensures forall k :: 0 <= k < |names| && Exact(BodyText(dir, read, names[k])) ==>
      parts[2 * k + 2] == BodyText(dir, read, names[k])
  {
    var rs := Releases(names, dir, read);
    ShapeAt(parts, rs, 0);
    forall k | 0 <= k < |names|
      ensures parts[2 * k + 1] == Version(names[k])
      ensures Exact(BodyText(dir, read, names[k])) ==> parts[2 * k + 2] == BodyText(dir, read, names[k])
    {
      ShapeAt(parts, rs, k);
      assert rs[k] == ReleaseOf(dir, read, names[k]);
    }
  }

  /** Splitting a compiled document: one version per name, in order, and
      after each version its text, when that text is exact. */
  lemma DocumentSplit(names: seq<string>, dir: string, read: string -> Result<string, string>)
    requires forall i :: 0 <= i < |names| ==> IsVersionFileName(names[i])
    requires forall i :: 0 <= i < |names| ==> NoReleaseToken(BodyText(dir, read, names[i]))
    ensures |RegexSplit(Document(names, dir, read))| == 2 * |names| + 1
    ensures forall k :: 0 <= k < |names| ==> RegexSplit(Document(names, dir, read))[2 * k + 1] == Version(names[k])
    ensures forall k :: 0 <= k < |names| && Exact(BodyText(dir, read, names[k])) ==>
      RegexSplit(Document(names, dir, read))[2 * k + 2] == BodyText(dir, read, names[k])
  {
    var rs := Releases(names, dir, read);
    var s := Document(names, dir, read);
    forall k | 0 <= k < |rs| ensures Separable(rs[k]) {
      ReleaseVersionText(dir, read, names[k]);
    }
    TitledLayout(s, rs);
    LeadingSplit(s, |Title|, rs);
    ShapeOfNames(RegexSplit(s), names, dir, read);
  }

  /** A version is not changed by `strip()`. */
  lemma VersionStripped(name: string)
    requires IsVersionFileName(name)
    ensures Strip(Version(name)) == Version(name)
  {
    VersionOfFileName(name);
    var v := Version(name);
    assert IsDigit(v[|v| - 1]) || v[|v| - 1] == '.';
    StripIdentity(v, PySpace);
  }

  /** Reading back a document compiled from version file names whose texts
      hold no "RELEASE:" gives exactly their versions as keys. */
  lemma DocumentKeys(names: seq<string>, dir: string, read: string -> Result<string, string>, key: string)
    requires forall i :: 0 <= i < |names| ==> IsVersionFileName(names[i])
    requires forall i :: 0 <= i < |names| ==> NoReleaseToken(BodyText(dir, read, names[i]))
    ensures key in ParseSummaries(Document(names, dir, read)) <==>
      exists k :: 0 <= k < |names| && key == Version(names[k])
  {
    var parts := RegexSplit(Document(names, dir, read));
    DocumentSplit(names, dir, read);
    assert |parts| / 2 == |names|;
    assert ParseSummaries(Document(names, dir, read)) == Summaries(parts);
    SummariesKeys(parts, key);
    forall k | 0 <= k < |names| ensures Strip(parts[2 * k + 1]) == Version(names[k]) {
      VersionStripped(names[k]);
    }
    if key in Summaries(parts) {
      var k :| 0 <= k < |parts| / 2 && Strip(parts[2 * k + 1]) == key;
      assert key == Version(names[k]);
    }
    if exists k :: 0 <= k < |names| && key == Version(names[k]) {
      var k :| 0 <= k < |names| && key == Version(names[k]);
      assert Strip(parts[2 * k + 1]) == key;
    }
  }

  /** Reading back such a document from distinct names gives every exact
      text under its version. */
  lemma DocumentBodies(names: seq<string>, dir: string, read: string -> Result<string, string>, k: nat)
    requires forall i :: 0 <= i < |names| ==> IsVersionFileName(names[i])
    requires forall i :: 0 <= i < |names| ==> NoReleaseToken(BodyText(dir, read, names[i]))
    requires Distinct(names) && k < |names| && Exact(BodyText(dir, read, names[k]))
    ensures Version(names[k]) in ParseSummaries(Document(names, dir, read))
    ensures ParseSummaries(Document(names, dir, read))[Version(names[k])] == BodyText(dir, read, names[k])
  {
    var parts := RegexSplit(Document(names, dir, read));
    DocumentSplit(names, dir, read);
    assert |parts| / 2 == |names|;
    VersionStripped(names[k]);
    forall k' | k < k' < |parts| / 2 ensures Strip(parts[2 * k' + 1]) != Strip(parts[2 * k + 1]) {
      VersionStripped(names[k']);
      if Version(names[k']) == Version(names[k]) {
        VersionInjective(names[k'], names[k]);
      }
    }
    SummariesLaterWins(parts, k);
  }

  /** `generate_summaries_python` then `load_summaries`: the keys read back
      are exactly the versions of the selected files, provided no selected
      file, nor the error text written in place of one, holds
      "RELEASE:". */
  lemma CompiledVersionsParsed(listing: seq<string>, dir: string, read: string -> Result<string, string>, key: string)
    requires forall name :: name in Select(listing) ==> NoReleaseToken(BodyText(dir, read, name))
    ensures key in ParseSummaries(Document(Select(listing), dir, read)) <==>
      exists k :: 0 <= k < |Select(listing)| && key == Version(Select(listing)[k])
  {
    SelectFromListing(listing);
    DocumentKeys(Select(listing), dir, read, key);
  }

  /** And each selected file's text is read back under its version when that
      text is exact and the listing names no file twice. */
  lemma CompiledBodiesParsed(listing: seq<string>, dir: string, read: string -> Result<string, string>, k: nat)
    requires Distinct(listing)
    requires forall name :: name in Select(listing) ==> NoReleaseToken(BodyText(dir, read, name))
    requires k < |Select(listing)| && Exact(BodyText(dir, read, Select(listing)[k]))
    ensures Version(Select(listing)[k]) in ParseSummaries(Document(Select(listing), dir, read))
    ensures ParseSummaries(Document(Select(listing), dir, read))[Version(Select(listing)[k])] == BodyText(dir, read, Select(listing)[k])
  {
    var sel := Select(listing);
    SelectFromListing(listing);
    SelectDistinct(listing);
    forall i | 0 <= i < |sel| ensures NoReleaseToken(BodyText(dir, read, sel[i])) {
      assert sel[i] in sel;
    }
    DocumentBodies(sel, dir, read, k);
  }
}
