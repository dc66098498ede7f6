/** The viewer's data: the history records and the release summaries it
    holds, loaded from the two cache texts, and the aggregated list it
    generates from the records. The widgets that show them are not part of
    this model; the release list box is kept as the sequence of versions
    inserted into it. */
module Viewer {
  import opened Wrappers
  import opened PyText
  import opened Calendar
  import opened HistoryLog
  import opened SummariesParser
  import opened HistoryViews

  class App {
    /** `full_history_data`: (date, hash, message) records in file order. */
    var history: seq<Commit>
    /** `summaries_data`: release text by version. */
    var summaries: map<string, string>
    /** The versions inserted into the release list box, in order. */
    var releaseList: seq<string>

    /** The state `__init__` starts from, before any cache is read. */
    constructor ()
      ensures history == [] && summaries == map[] && releaseList == []
    {
      history := [];
      summaries := map[];
      releaseList := [];
    }

    /** The line loop of `load_data`: the history is rebuilt from the cache
        text, `None` standing for a missing or unreadable file. */
    method LoadHistory(text: Option<string>)
      modifies this`history
      ensures history == if text.Some? then ParseHistory(text.value) else []
    {
      history := [];
      if text.None? {
        return;
      }
      var lines := Split(text.value, '\n');
      var i := 0;
      while i < |lines|
        invariant 0 <= i <= |lines|
        invariant history == ParseLines(lines[..i])
      {
        ParseLinesStep(lines, i);
        var line := Strip(lines[i]);
        if line != "" {
          match MatchPrimary(line) {
            case Some(c) =>
              history := history + [c];
            case None =>
              match SplitFallback(line) {
                case Some(c) =>
                  history := history + [c];
                case None =>
              }
          }
        }
        i := i + 1;
      }
      assert lines[..|lines|] == lines;
    }

    /** `load_summaries`: the dictionary and the release list are rebuilt
        from the cache text by the loop over the odd indices of the split. */
    method LoadSummaries(content: Option<string>)
      modifies this`summaries, this`releaseList
      ensures summaries == if content.Some? then ParseSummaries(content.value) else map[]
      ensures releaseList == if content.Some? then ListedVersions(RegexSplit(content.value), |RegexSplit(content.value)| / 2) else []
    {
      summaries := map[];
      releaseList := [];
      if content.None? {
        return;
      }
      var parts := RegexSplit(content.value);
      AddPairs(parts);
    }

    /** The loop of `load_summaries` over the odd indices of the split: each
        version with a text after it is stored and listed. */
    method AddPairs(parts: seq<string>)
      requires summaries == map[] && releaseList == []
      modifies this`summaries, this`releaseList
      ensures summaries == Summaries(parts)
      ensures releaseList == ListedVersions(parts, |parts| / 2)
    {
      if |parts| > 1 {
        var i := 1;
        ghost var n: nat := 0;
        while i < |parts|
          invariant i == 2 * n + 1 && 2 * n <= |parts|
          invariant summaries == PairsMap(parts, n)
          invariant releaseList == ListedVersions(parts, n)
        {
          assert 2 * (n + 1) - 1 == i;
          if i + 1 < |parts| {
            var version, text := Strip(parts[i]), parts[i + 1];
            summaries := summaries[version := text];
            releaseList := releaseList + [version];
          }
          i := i + 2;
          n := n + 1;
        }
        assert |parts| == 2 * n || |parts| == 2 * n + 1;
        assert n == |parts| / 2;
      }
    }

    /** `load_data`: the history, then the summaries. */
    method LoadData(historyText: Option<string>, summariesText: Option<string>)
      modifies this
      ensures history == if historyText.Some? then ParseHistory(historyText.value) else []
      ensures summaries == if summariesText.Some? then ParseSummaries(summariesText.value) else map[]
      ensures releaseList == if summariesText.Some? then ListedVersions(RegexSplit(summariesText.value), |RegexSplit(summariesText.value)| / 2) else []
    {
      LoadHistory(historyText);
      LoadSummaries(summariesText);
    }

    /** `generate_agg_list`, with the months field and the clock as inputs:
        the header lines, then every record on or after the cutoff in
        history order, and the count of entries. */
    method GenerateAggList(monthsText: string, now: Date) returns (r: Result<Agg, AggError>)
      requires ValidDate(now)
      ensures r == AggList(history, monthsText, now)
    {
      var parsed := PyInt.ParseInt(monthsText);
      if parsed.None? {
        return Err(InputError);
      }
      var months := parsed.value;
      if !CutoffInRange(months, now) {
        return Err(GenerationError);
      }
      var cutoff := ComputeCutoff(months, now);
      var lines, count := ListSince(months, cutoff);
      return Ok(Agg(lines, count));
    }

    /** The loop of `generate_agg_list`: the header, then each record whose
        date `strptime` reads and is on or after the cutoff, in history
        order, counted as it is appended. */
    method ListSince(months: int, cutoff: Date) returns (output: seq<string>, count: nat)
      ensures output == AggHeader(months) + RenderAll(Recent(history, cutoff))
      ensures count == |output| - 2
    {
      output := AggHeader(months);
      count := 0;
      var i := 0;
      while i < |history|
        invariant 0 <= i <= |history|
        invariant output == AggHeader(months) + RenderAll(Recent(history[..i], cutoff))
        invariant count == |output| - 2
      {
        var c := history[i];
        AggStep(AggHeader(months), history, i, cutoff);
        match ParseDate(c.date) {
          case Some(d) =>
            if DateLe(cutoff, d) {
              output := output + [Render(c)];
              count := count + 1;
            }
          case None =>
        }
        i := i + 1;
      }
      assert history[..|history|] == history;
    }
  }
}
