/** The history cache: one commit per line, as `git log --date=short
    --pretty=format:"%ad | %s (%h)"` writes it, read back line by line into
    (date, hash, message) records. */
module HistoryLog {
  import opened Wrappers
  import opened PyText
  import opened PyInt

  /** One parsed commit; the field order is that of the tuples the viewer keeps. */
  datatype Commit = Commit(date: string, hash: string, message: string)

  /** The placeholder hash of a line that has no "(hash)" at its end. */
  const NoHash: string := "?"

  /** The line format: "<date> | <message> (<hash>)". */
  function Render(c: Commit): string {
    c.date + " | " + c.message + " (" + c.hash + ")"
  }

  /** `[a-f0-9]`: lower-case hexadecimal digits only. */
  predicate IsHashChar(c: char) {
    IsDigit(c) || 'a' <= c <= 'f'
  }

  /** `\d{4}-\d{2}-\d{2}`. */
  predicate IsDateShape(d: string) {
    && |d| == 10 && d[4] == '-' && d[7] == '-'
    && IsDigit(d[0]) && IsDigit(d[1]) && IsDigit(d[2]) && IsDigit(d[3])
    && IsDigit(d[5]) && IsDigit(d[6]) && IsDigit(d[8]) && IsDigit(d[9])
  }

  /** A record the primary pattern can produce. */
  predicate WellShaped(c: Commit) {
    IsDateShape(c.date) && |c.hash| > 0 && AllSatisfy(c.hash, IsHashChar)
  }

  /** The last index of `c` in `s`, or -1. */
  function LastIndexOf(s: string, c: char): (r: int)
    ensures -1 <= r < |s|
    ensures r >= 0 ==> s[r] == c
    ensures forall j :: r < j < |s| ==> s[j] != c
  {
    if s == [] then -1
    else if s[|s| - 1] == c then |s| - 1
    else LastIndexOf(s[..|s| - 1], c)
  }

  /** The primary pattern `^(\d{4}-\d{2}-\d{2}) \| (.*) \(([a-f0-9]+)\)$` on a
      stripped line (a line never holds '\n', so `.` matches every character).
      As the hash alphabet has no '(', the hash can only start after the last
      '(' of the line, so the greedy message group has a single candidate. */
  function MatchPrimary(line: string): (r: Option<Commit>)
    ensures r.Some? ==> WellShaped(r.value) && Render(r.value) == line
  {
    if |line| < 17 || !IsDateShape(line[..10]) || line[10..13] != " | " || line[|line| - 1] != ')' then None
    else
      var k := LastIndexOf(line[..|line| - 1], '(');
      if k < 14 || line[k - 1] != ' ' then None
      else
        var hash := line[k + 1..|line| - 1];
        if hash == [] || !AllSatisfy(hash, IsHashChar) then None
        else
          RenderCut(line, k);
          Some(Commit(line[..10], hash, line[13..k - 1]))
  }

  /** A line cut into its date, " | ", message, " (", hash and ")" is those
      parts written out. */
  lemma RenderCut(line: string, k: nat)
    requires 14 <= k < |line| - 1 && line[10..13] == " | " && line[k - 1] == ' ' && line[k] == '(' && line[|line| - 1] == ')'
    ensures Render(Commit(line[..10], line[k + 1..|line| - 1], line[13..k - 1])) == line
  {
    assert line[k - 1..k + 1] == " (";
    assert line == line[..10] + line[10..13] + line[13..k - 1] + line[k - 1..k + 1] + line[k + 1..|line| - 1] + [line[|line| - 1]];
  }

  /** Every well-shaped record, written out, is matched back exactly,
      whatever its message holds (parentheses and " | " included). */
  lemma MatchPrimaryRender(c: Commit)
    requires WellShaped(c)
    ensures MatchPrimary(Render(c)) == Some(c)
  {
    RenderLayout(c);
    RenderLastParen(c);
  }

  /** Where each part of a record stands in its line. */
  lemma RenderLayout(c: Commit)
    requires |c.date| == 10
    ensures var line, k := Render(c), 14 + |c.message|;
      && |line| == k + |c.hash| + 2
      && line[..10] == c.date && line[10..13] == " | " && line[13..k - 1] == c.message
      && line[k - 1] == ' ' && line[k] == '(' && line[k + 1..|line| - 1] == c.hash && line[|line| - 1] == ')'
  {
    var line, k := Render(c), 14 + |c.message|;
    var front := c.date + " | " + c.message;
    assert line == front + " (" + c.hash + ")";
    assert line[..k - 1] == front;
    assert line[k + 1..|line| - 1] == c.hash;
  }

  /** The '(' before the hash is the last one of the line: the hash alphabet
      has none. */
  lemma RenderLastParen(c: Commit)
    requires WellShaped(c)
    ensures LastIndexOf(Render(c)[..|Render(c)| - 1], '(') == 14 + |c.message|
  {
    var line := Render(c);
    var k := 14 + |c.message|;
    RenderLayout(c);
    assert forall j :: k < j < |line| - 1 ==> line[j] == c.hash[j - k - 1];
  }

  /** The fallback, `line.split(" | ", 1)` with two parts: date and message
      around the first " | ", and the placeholder hash. */
  function SplitFallback(line: string): (r: Option<Commit>)
    ensures r.Some? ==> r.value.hash == NoHash && r.value.date + " | " + r.value.message == line
    ensures r.Some? ==> !Contains(r.value.date, " | ")
    ensures r.None? <==> !Contains(line, " | ")
  {
    var i := Find(line, " | ");
    if i < 0 then None
    else
      var c := Commit(line[..i], NoHash, line[i + 3..]);
      assert line == line[..i] + line[i..i + 3] + line[i + 3..];
      assert forall j :: OccursAt(line[..i], " | ", j) ==> OccursAt(line, " | ", j) by {
        forall j | OccursAt(line[..i], " | ", j) ensures OccursAt(line, " | ", j) {
          assert line[..i][j..j + 3] == line[j..j + 3];
        }
      }
      Some(c)
  }

  /** One line of the cache: stripped, skipped when blank, then the primary
      pattern, then the fallback, else dropped. Never fails. */
  function ParseLine(raw: string): Option<Commit> {
    var line := Strip(raw);
    if line == "" then None
    else
      match MatchPrimary(line)
      case Some(c) => Some(c)
      case None => SplitFallback(line)
  }

  /** What a record says about its line: a record with a real hash is the
      stripped line rendered back, a fallback record splits the line at its
      first " | "; and a line yields nothing exactly when it is blank, or
      misses the primary pattern and has no " | ". */
  lemma ParseLineFields(raw: string)
    ensures var r := ParseLine(raw);
      && (r.Some? ==> Strip(raw) != "")
      && (r.Some? && r.value.hash != NoHash ==> WellShaped(r.value) && Render(r.value) == Strip(raw))
      && (r.Some? && r.value.hash == NoHash ==>
            r.value.date + " | " + r.value.message == Strip(raw) && !Contains(r.value.date, " | "))
      && (r.None? <==> Strip(raw) == "" || (MatchPrimary(Strip(raw)).None? && !Contains(Strip(raw), " | ")))
  {
    var line := Strip(raw);
    if line != "" {
      match MatchPrimary(line)
      case Some(c) =>
        assert c.hash != NoHash by {
          assert IsHashChar(c.hash[0]);
        }
      case None =>
    }
  }

  /** The records among per-line results, kept in line order. */
  function Records(opts: seq<Option<Commit>>): (r: seq<Commit>)
    ensures |r| <= |opts|
  {
    if opts == [] then []
    else
      var init := Records(opts[..|opts| - 1]);
      match opts[|opts| - 1]
      case Some(c) => init + [c]
      case None => init
  }

  /** The result of `ParseLine` on each line, one per line. */
  function Parsed(lines: seq<string>): (r: seq<Option<Commit>>)
    ensures |r| == |lines|
  {
    if lines == [] then [] else Parsed(lines[..|lines| - 1]) + [ParseLine(lines[|lines| - 1])]
  }

  lemma {:induction false} ParsedAt(lines: seq<string>, i: nat)
    requires i < |lines|
    ensures Parsed(lines)[i] == ParseLine(lines[i])
  {
    if i < |lines| - 1 {
      ParsedAt(lines[..|lines| - 1], i);
    }
  }

  lemma {:induction false} ParsedAppend(a: seq<string>, b: seq<string>)
    ensures Parsed(a + b) == Parsed(a) + Parsed(b)
    decreases |b|
  {
    if b != [] {
      var b' := b[..|b| - 1];
      assert (a + b)[..|a + b| - 1] == a + b';
      ParsedAppend(a, b');
    } else {
      assert a + b == a;
    }
  }

  /** The records of a sequence of lines, appended in line order. */
  function ParseLines(lines: seq<string>): seq<Commit> {
    Records(Parsed(lines))
  }

  /** The records of the whole cache text. */
  function ParseHistory(text: string): seq<Commit> {
    ParseLines(Split(text, '\n'))
  }

  lemma {:induction false} RecordsAppend(a: seq<Option<Commit>>, b: seq<Option<Commit>>)
    ensures Records(a + b) == Records(a) + Records(b)
    decreases |b|
  {
    if b != [] {
      var b' := b[..|b| - 1];
      assert (a + b)[..|a + b| - 1] == a + b';
      assert (a + b)[|a + b| - 1] == b[|b| - 1];
      RecordsAppend(a, b');
    } else {
      assert a + b == a;
    }
  }

  /** Lines are parsed independently and in order: the records of a
      concatenation are the records of each part, one after the other. */
  lemma ParseLinesAppend(a: seq<string>, b: seq<string>)
    ensures ParseLines(a + b) == ParseLines(a) + ParseLines(b)
  {
    ParsedAppend(a, b);
    RecordsAppend(Parsed(a), Parsed(b));
  }

  /** One more line adds its record, when it yields one, after the records
      of the lines before it. */
  lemma ParseLinesStep(lines: seq<string>, i: nat)
    requires i < |lines|
    ensures ParseLines(lines[..i + 1]) ==
      ParseLines(lines[..i]) + if ParseLine(lines[i]).Some? then [ParseLine(lines[i]).value] else []
  {
    var line := lines[i];
    ParseLinesAppend(lines[..i], [line]);
    assert lines[..i + 1] == lines[..i] + [line];
    var none: seq<string> := [];
    assert [line][..0] == none;
    var nothing: seq<Option<Commit>> := [];
    assert [ParseLine(line)][..0] == nothing;
  }

  /** At most one record per line. */
  lemma ParseLinesLength(lines: seq<string>)
    ensures |ParseLines(lines)| <= |lines|
  {
  }

  lemma {:induction false} RecordsTrace(opts: seq<Option<Commit>>) returns (idx: seq<nat>)
    ensures |idx| == |Records(opts)|
    ensures forall j :: 0 <= j < |idx| ==> idx[j] < |opts| && opts[idx[j]] == Some(Records(opts)[j])
    ensures forall j, k :: 0 <= j < k < |idx| ==> idx[j] < idx[k]
    ensures forall i :: 0 <= i < |opts| && i !in idx ==> opts[i].None?
  {
    if opts == [] {
      idx := [];
    } else {
      var n := |opts| - 1;
      var init := opts[..n];
      var pre := RecordsTrace(init);
      var rs := Records(init);
      if opts[n].Some? {
        assert Records(opts) == rs + [opts[n].value];
        idx := pre + [n];
        forall j | 0 <= j < |idx| ensures idx[j] < |opts| && opts[idx[j]] == Some(Records(opts)[j]) {
          if j < |pre| {
            assert opts[pre[j]] == init[pre[j]];
          }
        }
      } else {
        assert Records(opts) == rs;
        idx := pre;
        forall j | 0 <= j < |idx| ensures idx[j] < |opts| && opts[idx[j]] == Some(Records(opts)[j]) {
          assert opts[pre[j]] == init[pre[j]];
        }
      }
      forall i | 0 <= i < |opts| && i !in idx ensures opts[i].None? {
        if i < n {
          assert i !in pre;
          assert opts[i] == init[i];
        }
      }
    }
  }

  /** Which line each record came from: the lines that yield a record, in
      increasing order, and every other line yields nothing. */
  lemma ParseLinesTrace(lines: seq<string>) returns (idx: seq<nat>)
    ensures |idx| == |ParseLines(lines)|
    ensures forall j :: 0 <= j < |idx| ==> idx[j] < |lines| && ParseLine(lines[idx[j]]) == Some(ParseLines(lines)[j])
    ensures forall j, k :: 0 <= j < k < |idx| ==> idx[j] < idx[k]
    ensures forall i :: 0 <= i < |lines| && i !in idx ==> ParseLine(lines[i]).None?
  {
    var opts := Parsed(lines);
    idx := RecordsTrace(opts);
    forall i | 0 <= i < |lines| ensures opts[i] == ParseLine(lines[i]) {
      ParsedAt(lines, i);
    }
  }

  /** The text git writes for a list of records: one rendered record per line. */
  function LogText(cs: seq<Commit>): string {
    if cs == [] then "" else Join(seq(|cs|, k requires 0 <= k < |cs| => Render(cs[k])), '\n')
  }

  /** The parser inverts the log format: a cache of well-shaped records whose
      messages hold no line break is read back as exactly those records. */
  lemma ParseHistoryOfLog(cs: seq<Commit>)
    requires forall k :: 0 <= k < |cs| ==> WellShaped(cs[k]) && '\n' !in cs[k].message
    ensures ParseHistory(LogText(cs)) == cs
  {
    if cs == [] {
      assert Split("", '\n') == [""];
      assert ParseLines([""]) == ParseLines([]) by {
        assert [""][..0] == [];
      }
    } else {
      var lines := seq(|cs|, k requires 0 <= k < |cs| => Render(cs[k]));
      forall k | 0 <= k < |lines| ensures '\n' !in lines[k] {
        assert '\n' !in cs[k].date && '\n' !in cs[k].hash by {
          assert forall j :: 0 <= j < |cs[k].hash| ==> IsHashChar(cs[k].hash[j]);
        }
      }
      SplitJoin(lines, '\n');
      RenderedLines(cs, lines);
    }
  }

  /** A rendered well-shaped record, alone on its line, is parsed back. */
  lemma ParseLineRender(c: Commit)
    requires WellShaped(c)
    ensures ParseLine(Render(c)) == Some(c)
  {
    assert IsDigit(c.date[0]) && Render(c)[0] == c.date[0];
    StripIdentity(Render(c), PySpace);
    MatchPrimaryRender(c);
  }

  /** Per-line results that are all records give exactly those records. */
  lemma {:induction false} RecordsAllSome(opts: seq<Option<Commit>>, cs: seq<Commit>)
    requires |opts| == |cs| && forall k :: 0 <= k < |cs| ==> opts[k] == Some(cs[k])
    ensures Records(opts) == cs
  {
    if cs != [] {
      var n := |cs| - 1;
      RecordsAllSome(opts[..n], cs[..n]);
      assert cs == cs[..n] + [cs[n]];
    }
  }

  lemma RenderedLines(cs: seq<Commit>, lines: seq<string>)
    requires forall k :: 0 <= k < |cs| ==> WellShaped(cs[k])
    requires |lines| == |cs| && forall k :: 0 <= k < |cs| ==> lines[k] == Render(cs[k])
    ensures ParseLines(lines) == cs
  {
    var opts := Parsed(lines);
    forall k | 0 <= k < |cs| ensures opts[k] == Some(cs[k]) {
      ParsedAt(lines, k);
      ParseLineRender(cs[k]);
    }
    RecordsAllSome(opts, cs);
  }

  /** A record-free cache is empty. */
  lemma ParseHistoryEmpty()
    ensures ParseHistory("") == []
  {
    assert Split("", '\n') == [""];
    assert Parsed([""]) == [None] by {
      var none: seq<string> := [];
      assert [""][..0] == none;
    }
    var nothing: seq<Option<Commit>> := [];
    assert [None][..0] == nothing;
  }

  /** A line that misses the primary pattern and has no " | " gives no record. */
  lemma ParseMalformedLine()
    ensures ParseLine("This line is malformed") == None
  {
    var bad := "This line is malformed";
    StripIdentity(bad, PySpace);
    MalformedNoDate();
    MalformedNoSeparator();
  }

  lemma MalformedNoDate()
    ensures MatchPrimary("This line is malformed") == None
  {
    var bad := "This line is malformed";
    assert bad[..10][4] == ' ';
  }

  lemma MalformedNoSeparator()
    ensures !Contains("This line is malformed", " | ")
  {
    var bad := "This line is malformed";
    assert '|' !in bad;
    forall i | 0 <= i && i + 3 <= |bad| ensures !OccursAt(bad, " | ", i) {
      assert bad[i..i + 3][1] == bad[i + 1];
    }
  }

  /** A line that gives no record between two valid lines is skipped:
      exactly the two valid records remain, in order. */
  lemma ParseMalformedLineSkipped(c1: Commit, bad: string, c2: Commit)
    requires WellShaped(c1) && WellShaped(c2) && ParseLine(bad).None?
    ensures ParseLines([Render(c1), bad, Render(c2)]) == [c1, c2]
  {
    ParseLineRender(c1);
    ParseLineRender(c2);
    ParsedThree(Render(c1), bad, Render(c2));
    RecordsSkipNone(c1, c2);
  }

  lemma ParsedThree(a: string, b: string, c: string)
    ensures Parsed([a, b, c]) == [ParseLine(a), ParseLine(b), ParseLine(c)]
  {
    ParsedAt([a, b, c], 0);
    ParsedAt([a, b, c], 1);
    ParsedAt([a, b, c], 2);
  }

  lemma RecordsSkipNone(a: Commit, b: Commit)
    ensures Records([Some(a), None, Some(b)]) == [a, b]
  {
    var opts := [Some(a), None, Some(b)];
    var one := [Some(a)];
    var nothing: seq<Option<Commit>> := [];
    assert one[..0] == nothing;
    assert Records(one) == [a];
    assert opts[..2] == one + [None];
    assert Records(one + [None]) == [a] by {
      assert (one + [None])[..1] == one;
    }
    assert Records(opts) == Records(opts[..2]) + [b];
  }

  /** A line "<date> | <message>" without a hash at its end keeps its
      message whole and gets the placeholder hash. */
  lemma ParseFallbackShape(date: string, msg: string)
    requires IsDateShape(date) && |msg| > 0
    requires !IsSpace(msg[|msg| - 1]) && msg[|msg| - 1] != ')'
    ensures ParseLine(date + " | " + msg) == Some(Commit(date, NoHash, msg))
  {
    var line := date + " | " + msg;
    assert line[0] == date[0] && line[|line| - 1] == msg[|msg| - 1];
    StripIdentity(line, PySpace);
    assert MatchPrimary(line).None?;
    assert line[10..13] == " | ";
    assert OccursAt(line, " | ", 10);
    forall i | 0 <= i < 10 ensures !OccursAt(line, " | ", i) {
      assert line[i + 1] == line[i..i + 3][1];
      if i < 9 {
        assert line[i + 1] == date[i + 1];
      }
    }
    assert Find(line, " | ") == 10;
    assert line[..10] == date && line[13..] == msg;
  }
}
