/** `generate_summaries_python`: the release-note files of the mirror whose
    names look like versions are sorted newest first by their version key,
    the first fifty are kept, and each is written under a three-line header
    into one summaries document. */
module ReleaseNotesCompiler {
  import opened Wrappers
  import opened PyText
  import opened PyInt
  import opened VersionKey
  import opened Subsequences
  import opened StableSort

  /** The first line of the document, followed by a blank line. */
  const Title: string := "MESA RELEASE NOTES COMPILATION\n\n"

  /** How many releases the document holds at most. */
  const MaxReleases: nat := 50

  /** The delimiter line of a release header: fifty '=' characters. */
  const Rule: string := Repeat('=', 50)

  predicate IsDigits(s: string) {
    |s| > 0 && AllSatisfy(s, IsDigit)
  }

  /** `f.endswith(".rst")` and `^\d+\.\d+(\.\d+)?\.rst$`: two or three
      dot-separated numerals and the extension. Together with `endswith`, the
      `$` (which also matches before a final line break) is an exact end. */
  predicate IsVersionFileName(f: string) {
    && |f| > 4 && f[|f| - 4..] == ".rst"
    && var segs := Split(f[..|f| - 4], '.');
       (|segs| == 2 || |segs| == 3) && forall k :: 0 <= k < |segs| ==> IsDigits(segs[k])
  }

  /** `rst_file.replace(".rst", "")`: the version a file name stands for. */
  function Version(name: string): string {
    RemoveAll(name, ".rst")
  }

  /** The version of a version file name is its stem: digits and dots,
      beginning with a digit, and the name is that version plus ".rst". */
  lemma VersionOfFileName(f: string)
    requires IsVersionFileName(f)
    ensures Version(f) == f[..|f| - 4] && Version(f) + ".rst" == f
    ensures |Version(f)| > 0 && IsDigit(Version(f)[0])
    ensures forall i :: 0 <= i < |Version(f)| ==> IsDigit(Version(f)[i]) || Version(f)[i] == '.'
  {
    var stem := f[..|f| - 4];
    var segs := Split(stem, '.');
    JoinSplit(stem, '.');
    forall i | 0 <= i < |stem| ensures IsDigit(stem[i]) || stem[i] == '.' {
      JoinChars(segs, '.', i);
      if stem[i] != '.' {
        var k, j :| 0 <= k < |segs| && 0 <= j < |segs[k]| && segs[k][j] == stem[i];
        assert IsDigits(segs[k]);
      }
    }
    assert 'r' !in stem by {
      forall i | 0 <= i < |stem| ensures stem[i] != 'r' {
        assert IsDigit(stem[i]) || stem[i] == '.';
      }
    }
    assert stem + ".rst" == f;
    RemoveSuffix(stem);
    assert IsDigits(segs[0]);
    assert stem == Join(segs, '.');
    assert stem[0] == segs[0][0];
  }

  /** Distinct version file names have distinct versions. */
  lemma VersionInjective(f: string, g: string)
    requires IsVersionFileName(f) && IsVersionFileName(g) && Version(f) == Version(g)
    ensures f == g
  {
    VersionOfFileName(f);
    VersionOfFileName(g);
  }

  // ---------------------------------------------------------------------
  // Selection of the releases

  /** The listing's version file names, in listing order. */
  function Candidates(listing: seq<string>): seq<string> {
    Keep(listing, IsVersionFileName)
  }

  /** `files.sort(key=version_key, reverse=True)`. */
  function Sorted(files: seq<string>): seq<string> {
    SortByKeyDesc(files, Key)
  }

  /** `files[:50]` after the sort. */
  function Select(listing: seq<string>): seq<string> {
    var sorted := Sorted(Candidates(listing));
    if |sorted| <= MaxReleases then sorted else sorted[..MaxReleases]
  }

  /** At most fifty names are selected, and every candidate when there are
      at most fifty. */
  lemma SelectSize(listing: seq<string>)
    ensures |Select(listing)| == if |Candidates(listing)| <= MaxReleases then |Candidates(listing)| else MaxReleases
    ensures |Candidates(listing)| <= MaxReleases ==> multiset(Select(listing)) == multiset(Candidates(listing))
  {
    var cands := Candidates(listing);
    assert |multiset(Sorted(cands))| == |multiset(cands)|;
  }

  /** Every selected name is a version file name of the listing. */
  lemma SelectFromListing(listing: seq<string>)
    ensures forall i :: 0 <= i < |Select(listing)| ==> IsVersionFileName(Select(listing)[i]) && Select(listing)[i] in listing
  {
    var cands := Candidates(listing);
    var sorted := Sorted(cands);
    var sel := Select(listing);
    KeepSubset(listing, IsVersionFileName);
    assert sel == sorted[..|sel|];
    forall i | 0 <= i < |sel| ensures IsVersionFileName(sel[i]) && sel[i] in listing {
      assert sel[i] in multiset(sorted);
      assert sel[i] in cands;
    }
  }

  /** The selection is newest first, and no candidate left out is newer than
      a selected name. */
  lemma SelectNewest(listing: seq<string>)
    ensures SortedByKeyDesc(Select(listing), Key)
    ensures forall name, i :: name in Candidates(listing) && name !in Select(listing) && 0 <= i < |Select(listing)| ==>
      !KeyLess(Key(Select(listing)[i]), Key(name))
  {
    var cands := Candidates(listing);
    var sorted := Sorted(cands);
    var sel := Select(listing);
    SortByKeyDescSorted(cands, Key);
    assert sel == sorted[..|sel|];
    forall name, i | name in cands && name !in sel && 0 <= i < |sel|
      ensures !KeyLess(Key(sel[i]), Key(name))
    {
      assert name in multiset(cands);
      assert name in sorted;
      var j :| 0 <= j < |sorted| && sorted[j] == name;
      assert j >= |sel|;
    }
  }

  /** Ties keep listing order: for every key, the selected names of that
      key are the first ones of that key among the candidates. */
  lemma SelectStable(listing: seq<string>, k: seq<int>)
    ensures Keep(Select(listing), HasKey(Key, k)) <= Keep(Candidates(listing), HasKey(Key, k))
  {
    var sorted := Sorted(Candidates(listing));
    var sel := Select(listing);
    var p := HasKey(Key, k);
    SortByKeyDescStable(Candidates(listing), Key, k);
    assert sel == sorted[..|sel|];
    assert sorted == sel + sorted[|sel|..];
    KeepAppend(sel, sorted[|sel|..], p);
    var a, b := Keep(sel, p), Keep(sorted[|sel|..], p);
    assert Keep(Candidates(listing), p) == a + b;
    assert a <= a + b;
  }

  /** A listing without repeated names gives a selection without them. */
  lemma SelectDistinct(listing: seq<string>)
    requires Distinct(listing)
    ensures Distinct(Select(listing))
  {
    var cands := Candidates(listing);
    var sorted := Sorted(cands);
    KeepDistinct(listing, IsVersionFileName);
    DistinctPermutation(cands, sorted);
  }

  // ---------------------------------------------------------------------
  // The document

  /** A release as the document carries it: its version and the text written
      under its header. */
  datatype Release = Release(version: string, body: string)

  /** `os.path.join(dir, name)` for a name without '/'. */
  function JoinPath(dir: string, name: string): string {
    if dir == [] || dir[|dir| - 1] == '/' then dir + name else dir + "/" + name
  }

  /** The text written in place of a file that cannot be read. */
  function ReadError(path: string, error: string): string {
    "Error reading file " + path + ": " + error + "\n"
  }

  /** What is written under a file's header: its content, or the error text. */
  function BodyText(dir: string, read: string -> Result<string, string>, name: string): string {
    var path := JoinPath(dir, name);
    match read(path)
    case Ok(content) => content
    case Err(e) => ReadError(path, e)
  }

  function ReleaseOf(dir: string, read: string -> Result<string, string>, name: string): Release {
    Release(Version(name), BodyText(dir, read, name))
  }

  function Releases(names: seq<string>, dir: string, read: string -> Result<string, string>): (rs: seq<Release>)
    ensures |rs| == |names|
  {
    seq(|names|, i requires 0 <= i < |names| => ReleaseOf(dir, read, names[i]))
  }

  lemma ReleasesSnoc(names: seq<string>, j: nat, dir: string, read: string -> Result<string, string>)
    requires j < |names|
    ensures Releases(names[..j + 1], dir, read) == Releases(names[..j], dir, read) + [ReleaseOf(dir, read, names[j])]
  {
    var a, b := Releases(names[..j + 1], dir, read), Releases(names[..j], dir, read) + [ReleaseOf(dir, read, names[j])];
    assert |a| == |b|;
    forall i | 0 <= i < |a| ensures a[i] == b[i] {
      assert names[..j + 1][i] == names[i];
      if i < j {
        assert names[..j][i] == names[i];
      }
    }
  }

  /** One more release written: its block after the ones before it. */
  lemma DocumentSnoc(names: seq<string>, j: nat, dir: string, read: string -> Result<string, string>)
    requires j < |names|
    ensures Document(names[..j + 1], dir, read) == Document(names[..j], dir, read) + BlockText(ReleaseOf(dir, read, names[j]))
  {
    ReleasesSnoc(names, j, dir, read);
    BlocksTextSnoc(Releases(names[..j], dir, read), ReleaseOf(dir, read, names[j]));
  }

  /** The header of a release. */
  function HeaderText(version: string): string {
    "\n" + Rule + "\n RELEASE: " + version + "\n" + Rule + "\n\n"
  }

  function BlockText(r: Release): string {
    HeaderText(r.version) + r.body
  }

  function BlocksText(rs: seq<Release>): string {
    if rs == [] then [] else BlockText(rs[0]) + BlocksText(rs[1..])
  }

  lemma {:induction false} BlocksTextSnoc(rs: seq<Release>, r: Release)
    ensures BlocksText(rs + [r]) == BlocksText(rs) + BlockText(r)
  {
    if rs == [] {
      assert [r][1..] == [];
    } else {
      assert (rs + [r])[1..] == rs[1..] + [r];
      BlocksTextSnoc(rs[1..], r);
    }
  }

  /** The summaries document for the selected names. */
  function Document(names: seq<string>, dir: string, read: string -> Result<string, string>): string {
    Title + BlocksText(Releases(names, dir, read))
  }

  /** The loop over `os.listdir`: the version file names, in listing order. */
  method VersionFiles(names: seq<string>) returns (files: seq<string>)
    ensures files == Candidates(names)
  {
    files := [];
    var i := 0;
    while i < |names|
      invariant 0 <= i <= |names|
      invariant files == Keep(names[..i], IsVersionFileName)
    {
      KeepSnoc(names[..i], names[i], IsVersionFileName);
      assert names[..i + 1] == names[..i] + [names[i]];
      if IsVersionFileName(names[i]) {
        files := files + [names[i]];
      }
      i := i + 1;
    }
    assert names[..|names|] == names;
  }

  /** The writing loop: the title, then a header and a body per name. */
  method WriteReleases(top: seq<string>, dir: string, read: string -> Result<string, string>) returns (out: string)
    ensures out == Document(top, dir, read)
  {
    out := Title;
    var j := 0;
    while j < |top|
      invariant 0 <= j <= |top|
      invariant out == Document(top[..j], dir, read)
    {
      var version := RemoveAll(top[j], ".rst");
      var path := JoinPath(dir, top[j]);
      var block := HeaderText(version);
      match read(path) {
        case Ok(content) =>
          block := block + content;
        case Err(e) =>
          block := block + ReadError(path, e);
      }
      assert block == BlockText(ReleaseOf(dir, read, top[j]));
      DocumentSnoc(top, j, dir, read);
      out := out + block;
      j := j + 1;
    }
    assert top[..|top|] == top;
  }

  /** `generate_summaries_python`. `listing` is `os.listdir` of the
      release-notes directory, `None` when the directory is missing or cannot
      be listed, in which case nothing is written. `read` opens a file by
      path and gives its text or the error it raises. The document written
      to the summaries file is returned. */
  method CompileSummaries(listing: Option<seq<string>>, dir: string, read: string -> Result<string, string>)
    returns (doc: Option<string>)
    ensures listing.None? ==> doc.None?
    ensures listing.Some? ==> doc == Some(Document(Select(listing.value), dir, read))
  {
    if listing.None? {
      return None;
    }
    var files := VersionFiles(listing.value);
    files := Sorted(files);
    var top := if |files| <= MaxReleases then files else files[..MaxReleases];
    var out := WriteReleases(top, dir, read);
    return Some(out);
  }
}
