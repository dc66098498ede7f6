/** The summaries parser on a cache text whose headers are indented and whose
    rules have different lengths. */
module SummariesExample {
  import opened Wrappers
  import opened PyText
  import opened SummariesParser
  import opened RoundTrip

  /** A cache text with an empty first line, indented headers, rules of four
      and eleven '=' and a blank line between the releases, written line by
      line. */
  const Tolerant: string :=
    (("\n" + "   ====\n") + (" RELEASE: 1.2\n" + "====\n")) + ("This is release 1.2\n" + "\n") +
    (("  ===========\n" + "  RELEASE: 2.0\n") + (" ===========\n" + "Second release\n"))

  lemma FirstOpening()
    ensures OpeningRule(Tolerant, 0) == Some(10)
  {
    var s := Tolerant;
    forall k | 0 <= k < 4 ensures InRun(Spaces, s[k]) {
      assert k == 0 || k == 1 || k == 2 || k == 3;
    }
    SkipRunOver(s, 0, 4, Spaces);
    forall k | 4 <= k < 8 ensures InRun(Equals, s[k]) {
      assert k == 4 || k == 5 || k == 6 || k == 7;
    }
    SkipRunOver(s, 4, 8, Equals);
    forall k | 8 <= k < 10 ensures InRun(Spaces, s[k]) {
      assert k == 8 || k == 9;
    }
    SkipRunOver(s, 8, 10, Spaces);
    assert LastNewline(s, 8, 10) == 8;
  }

  lemma FirstToken()
    ensures ReleaseAt(Tolerant, 10)
  {
    assert Tolerant[10..18] == "RELEASE:";
  }

  lemma FirstVersion()
    ensures SkipRun(Tolerant, 18, Spaces) == 19
    ensures SkipRun(Tolerant, 19, VersionChars) == 22 && Tolerant[19..22] == "1.2"
  {
    var s := Tolerant;
    SkipRunOver(s, 18, 19, Spaces);
    forall k | 19 <= k < 22 ensures InRun(VersionChars, s[k]) {
      assert k == 19 || k == 20 || k == 21;
    }
    SkipRunOver(s, 19, 22, VersionChars);
  }

  lemma FirstClosingRule()
    ensures SkipRun(Tolerant, 22, Spaces) == 23 && LastNewline(Tolerant, 22, 23) == 22
    ensures SkipRun(Tolerant, 23, Equals) == 27
    ensures SkipRun(Tolerant, 27, Spaces) == 28 && LastNewline(Tolerant, 27, 28) == 27
  {
    var s := Tolerant;
    SkipRunOver(s, 22, 23, Spaces);
    forall k | 23 <= k < 27 ensures InRun(Equals, s[k]) {
      assert k == 23 || k == 24 || k == 25 || k == 26;
    }
    SkipRunOver(s, 23, 27, Equals);
    SkipRunOver(s, 27, 28, Spaces);
  }

  lemma FirstReleaseLine()
    ensures ReleaseLine(Tolerant, 10) == Some(("1.2", 28))
  {
    FirstToken();
    FirstVersion();
    FirstClosingRule();
    ReleaseLineBy(Tolerant, 10, 19, 22, 23, 27);
  }

  lemma SecondOpening()
    ensures OpeningRule(Tolerant, 48) == Some(65)
  {
    var s := Tolerant;
    forall k | 48 <= k < 51 ensures InRun(Spaces, s[k]) {
      assert k == 48 || k == 49 || k == 50;
    }
    SkipRunOver(s, 48, 51, Spaces);
    SecondOpeningRule();
    forall k | 62 <= k < 65 ensures InRun(Spaces, s[k]) {
      assert k == 62 || k == 63 || k == 64;
    }
    SkipRunOver(s, 62, 65, Spaces);
    assert LastNewline(s, 62, 65) == 62;
  }

  lemma SecondOpeningRule()
    ensures SkipRun(Tolerant, 51, Equals) == 62
  {
    var s := Tolerant;
    forall k | 51 <= k < 62 ensures InRun(Equals, s[k]) {
      assert k == 51 || k == 52 || k == 53 || k == 54 || k == 55 || k == 56 || k == 57 || k == 58 || k == 59 || k == 60 || k == 61;
    }
    SkipRunOver(s, 51, 62, Equals);
  }

  lemma SecondToken()
    ensures ReleaseAt(Tolerant, 65)
  {
    assert Tolerant[65..73] == "RELEASE:";
  }

  lemma SecondVersion()
    ensures SkipRun(Tolerant, 73, Spaces) == 74
    ensures SkipRun(Tolerant, 74, VersionChars) == 77 && Tolerant[74..77] == "2.0"
  {
    var s := Tolerant;
    SkipRunOver(s, 73, 74, Spaces);
    forall k | 74 <= k < 77 ensures InRun(VersionChars, s[k]) {
      assert k == 74 || k == 75 || k == 76;
    }
    SkipRunOver(s, 74, 77, VersionChars);
  }

  lemma SecondRuleStart()
    ensures SkipRun(Tolerant, 77, Spaces) == 79 && LastNewline(Tolerant, 77, 79) == 77
  {
    var s := Tolerant;
    forall k | 77 <= k < 79 ensures InRun(Spaces, s[k]) {
      assert k == 77 || k == 78;
    }
    SkipRunOver(s, 77, 79, Spaces);
    assert LastNewline(s, 77, 79) == 77;
  }

  lemma SecondClosingRule()
    ensures SkipRun(Tolerant, 79, Equals) == 90
    ensures SkipRun(Tolerant, 90, Spaces) == 91 && LastNewline(Tolerant, 90, 91) == 90
  {
    var s := Tolerant;
    forall k | 79 <= k < 90 ensures InRun(Equals, s[k]) {
      assert k == 79 || k == 80 || k == 81 || k == 82 || k == 83 || k == 84 || k == 85 || k == 86 || k == 87 || k == 88 || k == 89;
    }
    SkipRunOver(s, 79, 90, Equals);
    SkipRunOver(s, 90, 91, Spaces);
  }

  lemma SecondReleaseLine()
    ensures ReleaseLine(Tolerant, 65) == Some(("2.0", 91))
  {
    SecondToken();
    SecondVersion();
    SecondRuleStart();
    SecondClosingRule();
    ReleaseLineBy(Tolerant, 65, 74, 77, 79, 90);
  }

  /** The first header, with its indented opening rule of four '='. */
  lemma FirstMatch()
    ensures MatchAt(Tolerant, 0) == Some(Header(0, "1.2", 28))
  {
    FirstOpening();
    FirstReleaseLine();
  }

  /** The second header, after a blank line, with rules of eleven '='. */
  lemma SecondMatch()
    ensures MatchAt(Tolerant, 48) == Some(Header(48, "2.0", 91))
  {
    SecondOpening();
    SecondReleaseLine();
    assert Tolerant[47] == '\n';
  }

  /** Only a line start can open a header. */
  lemma NotLineStart(s: string, p: nat)
    requires 0 < p <= |s| && s[p - 1] != '\n'
    ensures MatchAt(s, p).None?
  {
  }

  /** A line that opens with neither a space nor '=' cannot open a header. */
  lemma NoRuleAt(s: string, p: nat)
    requires p <= |s| && (p == |s| || (!IsSpace(s[p]) && s[p] != '='))
    ensures MatchAt(s, p).None?
  {
    SkipRunOver(s, p, p, Spaces);
    SkipRunOver(s, p, p, Equals);
  }

  /** Between the headers only the body's first line starts a line, and it
      does not open with a rule. */
  lemma NoMatchInFirstBody()
    ensures forall p :: 28 <= p < 48 ==> MatchAt(Tolerant, p).None?
  {
    var s := Tolerant;
    NoRuleAt(s, 28);
    forall k | 28 <= k < 47 ensures s[k] != '\n' {
      assert k == 28 || k == 29 || k == 30 || k == 31 || k == 32 || k == 33 || k == 34 ||
        k == 35 || k == 36 || k == 37 || k == 38 || k == 39 || k == 40 || k == 41 ||
        k == 42 || k == 43 || k == 44 || k == 45 || k == 46;
    }
    forall p | 29 <= p < 48 ensures MatchAt(s, p).None? {
      NotLineStart(s, p);
    }
  }

  /** After the second header only the last body line and the end of the
      text start a line, and neither opens with a rule. */
  lemma NoMatchInLastBody()
    ensures forall p :: 91 <= p <= |Tolerant| ==> MatchAt(Tolerant, p).None?
  {
    var s := Tolerant;
    assert |s| == 106;
    NoRuleAt(s, 91);
    NoRuleAt(s, 106);
    forall k | 91 <= k < 105 ensures s[k] != '\n' {
      assert k == 91 || k == 92 || k == 93 || k == 94 || k == 95 || k == 96 || k == 97 ||
        k == 98 || k == 99 || k == 100 || k == 101 || k == 102 || k == 103 || k == 104;
    }
    forall p | 92 <= p < 106 ensures MatchAt(s, p).None? {
      NotLineStart(s, p);
    }
  }

  /** `re.split` on a text with exactly two headers. */
  lemma SplitTwo(s: string, h1: Header, h2: Header)
    requires NextHeader(s, 0) == Some(h1)
    requires h1.end <= |s| && NextHeader(s, h1.end) == Some(h2)
    requires h2.end <= |s| && NextHeader(s, h2.end).None?
    ensures h1.start <= h1.end <= h2.start <= h2.end
    ensures RegexSplit(s) == [s[..h1.start], h1.version, s[h1.end..h2.start], h2.version, s[h2.end..]]
  {
    var last := SplitFrom(s, h2.end);
    assert last == [s[h2.end..]];
    var middle := SplitFrom(s, h1.end);
    assert middle == [s[h1.end..h2.start], h2.version] + last;
    assert SplitFrom(s, 0) == [s[0..h1.start], h1.version] + middle;
    var a, b, c, d, e := s[..h1.start], h1.version, s[h1.end..h2.start], h2.version, s[h2.end..];
    FlattenFive(a, b, c, d, e);
  }

  lemma FlattenFive<T>(a: T, b: T, c: T, d: T, e: T)
    ensures [a, b] + ([c, d] + [e]) == [a, b, c, d, e]
  {
  }

  lemma FirstFound()
    ensures NextHeader(Tolerant, 0) == Some(Header(0, "1.2", 28))
  {
    FirstMatch();
    NextHeaderIs(Tolerant, 0, 0);
  }

  lemma SecondFound()
    ensures NextHeader(Tolerant, 28) == Some(Header(48, "2.0", 91))
  {
    SecondMatch();
    NoMatchInFirstBody();
    NextHeaderIs(Tolerant, 28, 48);
  }

  lemma NoneAfter()
    ensures |Tolerant| == 106 && NextHeader(Tolerant, 91).None?
  {
    NoMatchInLastBody();
    NoMatchNoHeader(Tolerant, 91);
  }

  /** `re.split` gives the empty text before the first header, then each
      version followed by its body. */
  lemma TolerantSplit()
    ensures RegexSplit(Tolerant) == ["", "1.2", Tolerant[28..48], "2.0", Tolerant[91..]]
  {
    FirstFound();
    SecondFound();
    NoneAfter();
    SplitTwo(Tolerant, Header(0, "1.2", 28), Header(48, "2.0", 91));
    assert Tolerant[..0] == "";
  }

  /** The dictionary of a split with two headers. */
  lemma SummariesOfTwo(parts: seq<string>)
    requires |parts| == 5
    ensures Summaries(parts) == map[Strip(parts[1]) := parts[2]][Strip(parts[3]) := parts[4]]
  {
    assert PairsMap(parts, 1) == map[Strip(parts[1]) := parts[2]];
  }

  lemma VersionsStripped()
    ensures Strip("1.2") == "1.2" && Strip("2.0") == "2.0"
  {
  }

  lemma BodiesText()
    ensures Tolerant[28..48] == "This is release 1.2\n"
    ensures Tolerant[91..] == "Second release\n"
  {
  }

  /** Indented headers and rules of any length are still found: the text
      holds the releases 1.2 and 2.0, each with the text after its header. */
  lemma TolerantSummaries()
    ensures ParseSummaries(Tolerant) == map["1.2" := "This is release 1.2\n", "2.0" := "Second release\n"]
    ensures ParseSummaries(Tolerant).Keys == {"1.2", "2.0"}
  {
    TolerantSplit();
    var parts := RegexSplit(Tolerant);
    SummariesOfTwo(parts);
    VersionsStripped();
    BodiesText();
  }

  /** A cache text whose header spells "release:" in lower case, with rules
      of a single '='. */
  const Lowercase: string := "=\n" + "release: 1.0\n" + "=\n" + "Notes\n"

  lemma LowercaseOpening()
    ensures OpeningRule(Lowercase, 0) == Some(2)
  {
    var s := Lowercase;
    SkipRunOver(s, 0, 0, Spaces);
    SkipRunOver(s, 0, 1, Equals);
    SkipRunOver(s, 1, 2, Spaces);
    assert LastNewline(s, 1, 2) == 1;
  }

  lemma LowercaseVersion()
    ensures SkipRun(Lowercase, 10, Spaces) == 11
    ensures SkipRun(Lowercase, 11, VersionChars) == 14 && Lowercase[11..14] == "1.0"
  {
    var s := Lowercase;
    SkipRunOver(s, 10, 11, Spaces);
    forall k | 11 <= k < 14 ensures InRun(VersionChars, s[k]) {
      assert k == 11 || k == 12 || k == 13;
    }
    SkipRunOver(s, 11, 14, VersionChars);
  }

  lemma LowercaseClosingRule()
    ensures SkipRun(Lowercase, 14, Spaces) == 15 && LastNewline(Lowercase, 14, 15) == 14
    ensures SkipRun(Lowercase, 15, Equals) == 16
    ensures SkipRun(Lowercase, 16, Spaces) == 17 && LastNewline(Lowercase, 16, 17) == 16
  {
    var s := Lowercase;
    SkipRunOver(s, 14, 15, Spaces);
    SkipRunOver(s, 15, 16, Equals);
    SkipRunOver(s, 16, 17, Spaces);
  }

  /** The lower-case header matches: the pattern ignores case. */
  lemma LowercaseMatch()
    ensures MatchAt(Lowercase, 0) == Some(Header(0, "1.0", 17))
  {
    LowercaseOpening();
    assert ReleaseAt(Lowercase, 2);
    LowercaseVersion();
    LowercaseClosingRule();
    ReleaseLineBy(Lowercase, 2, 11, 14, 15, 16);
  }

  /** After the header only the body line and the end of the text start a
      line, and neither opens with a rule. */
  lemma NoMatchInLowercaseBody()
    ensures |Lowercase| == 23
    ensures forall p :: 17 <= p <= |Lowercase| ==> MatchAt(Lowercase, p).None?
  {
    var s := Lowercase;
    NoRuleAt(s, 17);
    NoRuleAt(s, 23);
    forall k | 17 <= k < 22 ensures s[k] != '\n' {
      assert k == 17 || k == 18 || k == 19 || k == 20 || k == 21;
    }
    forall p | 18 <= p < 23 ensures MatchAt(s, p).None? {
      NotLineStart(s, p);
    }
  }

  /** `re.split` gives the empty text, the version and the body. */
  lemma LowercaseSplit()
    ensures RegexSplit(Lowercase) == ["", "1.0", "Notes\n"]
  {
    var s := Lowercase;
    LowercaseMatch();
    NextHeaderIs(s, 0, 0);
    NoMatchInLowercaseBody();
    NoMatchNoHeader(s, 17);
    assert SplitFrom(s, 17) == [s[17..]];
    assert SplitFrom(s, 0) == [s[..0], "1.0"] + SplitFrom(s, 17);
    assert s[17..] == "Notes\n";
  }

  /** A header written "release:" in lower case is recognised: the text
      holds release 1.0 with its notes. */
  lemma LowercaseSummaries()
    ensures ParseSummaries(Lowercase) == map["1.0" := "Notes\n"]
  {
    LowercaseSplit();
    SummariesOfOne(RegexSplit(Lowercase));
    LowercaseVersionStripped();
  }

  /** The dictionary of a split with one header. */
  lemma SummariesOfOne(parts: seq<string>)
    requires |parts| == 3
    ensures Summaries(parts) == map[Strip(parts[1]) := parts[2]]
  {
    assert PairsMap(parts, 0) == map[];
  }

  lemma LowercaseVersionStripped()
    ensures Strip("1.0") == "1.0"
  {
  }
}
