/** The two views derived from the history records: the search filter of the
    history tab (`filter_history`) and the plain-text list of recent commits
    of the aggregation tab (`generate_agg_list`). */
module HistoryViews {
  import opened Wrappers
  import opened PyText
  import opened PyInt
  import opened Subsequences
  import opened Calendar
  import opened HistoryLog

  // ---------------------------------------------------------------------
  // Search filter

  /** The lowered query occurs in the lowered hash or the lowered message. */
  predicate MatchesQuery(q: string, c: Commit) {
    Contains(Lower(c.hash), q) || Contains(Lower(c.message), q)
  }

  /** `filter_history`: with an empty query every record, otherwise the
      records whose hash or message holds the query, ignoring ASCII case. */
  function FilterRecords(records: seq<Commit>, query: string): seq<Commit> {
    var q := Lower(query);
    if q == "" then records else Keep(records, c => MatchesQuery(q, c))
  }

  /** A record is shown exactly when the query is empty or matches its hash
      or message; nothing else is shown. */
  lemma FilterMembers(records: seq<Commit>, query: string, c: Commit)
    ensures c in FilterRecords(records, query) <==>
      c in records && (query == "" || MatchesQuery(Lower(query), c))
  {
    var q := Lower(query);
    if q != "" {
      KeepSubset(records, c => MatchesQuery(q, c));
      KeepComplete(records, c => MatchesQuery(q, c));
    }
  }

  /** The shown records keep their order: they are the records at increasing
      positions of the input, and every record left out misses the query. */
  lemma FilterOrder(records: seq<Commit>, query: string) returns (idx: seq<nat>)
    ensures |idx| == |FilterRecords(records, query)|
    ensures forall j :: 0 <= j < |idx| ==> idx[j] < |records| && records[idx[j]] == FilterRecords(records, query)[j]
    ensures forall j, k :: 0 <= j < k < |idx| ==> idx[j] < idx[k]
    ensures forall i :: 0 <= i < |records| && i !in idx ==> query != "" && !MatchesQuery(Lower(query), records[i])
  {
    var q := Lower(query);
    if q == "" {
      idx := seq(|records|, i => i);
      forall i | 0 <= i < |records| ensures i in idx {
        assert idx[i] == i;
      }
    } else {
      idx := KeepTrace(records, c => MatchesQuery(q, c));
    }
  }

  /** The date is never searched: a record is kept or dropped whatever its
      date. */
  lemma FilterIgnoresDate(c: Commit, date: string, query: string)
    ensures FilterRecords([c], query) == [c] <==>
      FilterRecords([c.(date := date)], query) == [c.(date := date)]
  {
    var d := c.(date := date);
    var q := Lower(query);
    if q != "" {
      var p := (x: Commit) => MatchesQuery(q, x);
      KeepCons(c, [], p);
      KeepCons(d, [], p);
      assert Keep([c], p) == (if p(c) then [c] else []) && Keep([d], p) == (if p(d) then [d] else []) by {
        assert [c] + [] == [c] && [d] + [] == [d];
      }
    }
  }

  /** "feature" keeps the two records that mention it, in either case, and
      drops the third. */
  lemma FilterFeatureExample()
    ensures var a := Commit("2023-01-01", "abc123def", "Feature A implementation");
      var b := Commit("2023-01-02", "def456ghi", "Bug fix for feature B");
      var c := Commit("2023-01-03", "ghi789jkl", "Documentation update");
      FilterRecords([a, b, c], "feature") == [a, b]
  {
    var a := Commit("2023-01-01", "abc123def", "Feature A implementation");
    var b := Commit("2023-01-02", "def456ghi", "Bug fix for feature B");
    var c := Commit("2023-01-03", "ghi789jkl", "Documentation update");
    LowerFeature();
    FeatureInFirst();
    FeatureInSecond();
    NoFeatureInThird();
    KeepFirstTwo(a, b, c, x => MatchesQuery(Lower("feature"), x));
  }

  lemma FeatureInFirst()
    ensures MatchesQuery("feature", Commit("2023-01-01", "abc123def", "Feature A implementation"))
  {
    var m := "Feature A implementation";
    assert m[0..7] == "Feature";
    FeatureInMessage(Commit("2023-01-01", "abc123def", m), 0);
  }

  lemma FeatureInSecond()
    ensures MatchesQuery("feature", Commit("2023-01-02", "def456ghi", "Bug fix for feature B"))
  {
    var m := "Bug fix for feature B";
    assert m[12..19] == "feature";
    FeatureInMessage(Commit("2023-01-02", "def456ghi", m), 12);
  }

  lemma KeepFirstTwo<T>(a: T, b: T, c: T, p: T -> bool)
    requires p(a) && p(b) && !p(c)
    ensures Keep([a, b, c], p) == [a, b]
  {
    KeepCons(a, [b, c], p);
    KeepCons(b, [c], p);
    KeepCons(c, [], p);
    assert [c] + [] == [c] && [b] + [c] == [b, c] && [a] + [b, c] == [a, b, c];
  }

  lemma NoFeatureInThird()
    ensures !MatchesQuery("feature", Commit("2023-01-03", "ghi789jkl", "Documentation update"))
  {
    var h, m := "ghi789jkl", "Documentation update";
    assert 'f' !in h && 'F' !in h;
    assert 'f' !in m && 'F' !in m;
    NoLetterNoMatch(h, "feature");
    NoLetterNoMatch(m, "feature");
  }

  lemma LowerFeature()
    ensures Lower("feature") == "feature"
  {
  }

  /** A message holding "feature" at `i`, in any ASCII case, matches. */
  lemma FeatureInMessage(c: Commit, i: nat)
    requires i + 7 <= |c.message| && Lower(c.message[i..i + 7]) == "feature"
    ensures MatchesQuery("feature", c)
  {
    assert Lower(c.message)[i..i + 7] == Lower(c.message[i..i + 7]);
    assert OccursAt(Lower(c.message), "feature", i);
  }

  /** A text without 'f' or 'F' cannot hold a query that starts with 'f'. */
  lemma NoLetterNoMatch(s: string, q: string)
    requires |q| > 0 && q[0] == 'f' && 'f' !in s && 'F' !in s
    ensures !Contains(Lower(s), q)
  {
  }

  // ---------------------------------------------------------------------
  // Aggregated list

  /** Why no list was generated: the months field is not an integer (the
      input error), or the cutoff falls outside the years `datetime` can
      represent (caught as a generation error). */
  datatype AggError = InputError | GenerationError

  /** The generated text, one line per element, and the entry count it
      reports. */
  datatype Agg = Agg(lines: seq<string>, count: nat)

  /** The two header lines. */
  function AggHeader(months: int): seq<string> {
    ["Mesa History - Last " + IntToString(months) + " Months", Repeat('-', 60)]
  }

  /** The record's date is read by `strptime` and is not before the cutoff. */
  predicate OnOrAfter(cutoff: Date, c: Commit) {
    match ParseDate(c.date)
    case Some(d) => DateLe(cutoff, d)
    case None => false
  }

  /** The records listed, in history order. */
  function Recent(records: seq<Commit>, cutoff: Date): seq<Commit> {
    Keep(records, c => OnOrAfter(cutoff, c))
  }

  function RenderAll(cs: seq<Commit>): (r: seq<string>)
    ensures |r| == |cs| && forall j :: 0 <= j < |cs| ==> r[j] == Render(cs[j])
  {
    seq(|cs|, j requires 0 <= j < |cs| => Render(cs[j]))
  }

  /** One more record of history adds its line exactly when it is listed. */
  lemma RecentStep(records: seq<Commit>, i: nat, cutoff: Date)
    requires i < |records|
    ensures RenderAll(Recent(records[..i + 1], cutoff)) ==
      RenderAll(Recent(records[..i], cutoff)) + if OnOrAfter(cutoff, records[i]) then [Render(records[i])] else []
  {
    var c := records[i];
    var prev := Recent(records[..i], cutoff);
    RecentAppend(records[..i], [c], cutoff);
    assert records[..i + 1] == records[..i] + [c];
    assert Recent([c], cutoff) == if OnOrAfter(cutoff, c) then [c] else [] by {
      var none: seq<Commit> := [];
      assert [c][..0] == none;
    }
    if OnOrAfter(cutoff, c) {
      assert RenderAll(prev + [c]) == RenderAll(prev) + [Render(c)];
    } else {
      assert prev + [] == prev;
    }
  }

  /** The same step with the header lines in front. */
  lemma AggStep(header: seq<string>, records: seq<Commit>, i: nat, cutoff: Date)
    requires i < |records|
    ensures header + RenderAll(Recent(records[..i + 1], cutoff)) ==
      (header + RenderAll(Recent(records[..i], cutoff))) + if OnOrAfter(cutoff, records[i]) then [Render(records[i])] else []
  {
    RecentStep(records, i, cutoff);
    AppendAssoc(header, RenderAll(Recent(records[..i], cutoff)), if OnOrAfter(cutoff, records[i]) then [Render(records[i])] else []);
  }

  /** `generate_agg_list` on the history, the months field and the clock.
      The months field is refused exactly when `int()` refuses it; otherwise
      a list is generated exactly when the cutoff can be built, and its count
      is the number of lines after the header. */
  function AggList(records: seq<Commit>, monthsText: string, now: Date): (r: Result<Agg, AggError>)
    requires ValidDate(now)
    ensures r == Err(InputError) <==> ParseInt(monthsText).None?
    ensures r.Ok? <==> ParseInt(monthsText).Some? && CutoffInRange(ParseInt(monthsText).value, now)
    ensures r.Ok? ==> |r.value.lines| >= 2 && r.value.count == |r.value.lines| - 2
  {
    match ParseInt(monthsText)
    case None => Err(InputError)
    case Some(months) =>
      if !CutoffInRange(months, now) then Err(GenerationError)
      else
        var lines := AggHeader(months) + RenderAll(Recent(records, ComputeCutoff(months, now)));
        Ok(Agg(lines, |lines| - 2))
  }

  /** A generated list: the two header lines for the months read, then the
      listed records rendered as "date | message (hash)" with the cutoff
      `compute_cutoff_date` gives for those months. */
  lemma AggListShape(records: seq<Commit>, monthsText: string, now: Date)
    requires ValidDate(now) && AggList(records, monthsText, now).Ok?
    ensures ParseInt(monthsText).Some? && CutoffInRange(ParseInt(monthsText).value, now)
    ensures var m := ParseInt(monthsText).value; var lines := AggList(records, monthsText, now).value.lines;
      && lines[..2] == AggHeader(m)
      && lines[0] == "Mesa History - Last " + IntToString(m) + " Months"
      && lines[1] == Repeat('-', 60)
      && lines[2..] == RenderAll(Recent(records, ComputeCutoff(m, now)))
  {
    var m := ParseInt(monthsText).value;
    var lines := AggList(records, monthsText, now).value.lines;
    assert lines == AggHeader(m) + RenderAll(Recent(records, ComputeCutoff(m, now)));
  }

  /** The lines after the header are exactly the records on or after the
      cutoff, rendered, in history order: each comes from a record at a
      later position than the one before, and every record left out has an
      unreadable date or one before the cutoff. */
  lemma RecentTrace(records: seq<Commit>, cutoff: Date) returns (idx: seq<nat>)
    ensures |idx| == |RenderAll(Recent(records, cutoff))|
    ensures forall j :: 0 <= j < |idx| ==>
      (idx[j] < |records| && RenderAll(Recent(records, cutoff))[j] == Render(records[idx[j]]) && OnOrAfter(cutoff, records[idx[j]]))
    ensures forall j, k :: 0 <= j < k < |idx| ==> idx[j] < idx[k]
    ensures forall i :: 0 <= i < |records| ==> (i in idx <==> OnOrAfter(cutoff, records[i]))
  {
    idx := KeepTrace(records, c => OnOrAfter(cutoff, c));
  }

  /** A record whose date `strptime` refuses is never listed, whatever the
      cutoff. */
  lemma UnreadableDateSkipped(records: seq<Commit>, cutoff: Date, c: Commit)
    requires ParseDate(c.date).None?
    ensures c !in Recent(records, cutoff)
  {
    KeepSubset(records, x => OnOrAfter(cutoff, x));
  }

  /** Listing distributes over the history: more history, more lines after
      the ones already there. */
  lemma RecentAppend(a: seq<Commit>, b: seq<Commit>, cutoff: Date)
    ensures Recent(a + b, cutoff) == Recent(a, cutoff) + Recent(b, cutoff)
  {
    KeepAppend(a, b, c => OnOrAfter(cutoff, c));
  }
}
