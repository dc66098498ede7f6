/** The sort key of a release-note file name (`get_version_key`, and its copy
    `version_key` inside the compiler): the dot-separated numbers of the name
    with ".rst" removed, or the fallback key [0, 0, 0]. */
module VersionKey {
  import opened Wrappers
  import opened PyText
  import opened PyInt

  /** The key given to every name that has a segment `int()` rejects. */
  const Fallback: seq<int> := [0, 0, 0]

  /** `[int(p) for p in segs]`, or `None` where some `int(p)` raises. */
  function ParseSegments(segs: seq<string>): (r: Option<seq<int>>)
    ensures r.Some? ==> |r.value| == |segs|
    ensures r.Some? <==> forall k :: 0 <= k < |segs| ==> ParseInt(segs[k]).Some?
    ensures r.Some? ==> forall k :: 0 <= k < |segs| ==> ParseInt(segs[k]) == Some(r.value[k])
  {
    if segs == [] then Some([])
    else
      match ParseInt(segs[0])
      case None => None
      case Some(v) =>
        match ParseSegments(segs[1..])
        case None => None
        case Some(vs) => Some([v] + vs)
  }

  /** The segments of a name: ".rst" removed everywhere, then split on '.'. */
  function Segments(name: string): seq<string> {
    Split(RemoveAll(name, ".rst"), '.')
  }

  function Key(name: string): seq<int> {
    match ParseSegments(Segments(name))
    case Some(ks) => ks
    case None => Fallback
  }

  /** Python's `a < b` on lists of integers: the first difference decides,
      and a proper prefix is smaller. */
  predicate KeyLess(a: seq<int>, b: seq<int>) {
    if a == [] then b != []
    else if b == [] then false
    else if a[0] != b[0] then a[0] < b[0]
    else KeyLess(a[1..], b[1..])
  }

  /** Python's `a <= b` on lists of integers. */
  predicate KeyLe(a: seq<int>, b: seq<int>) {
    a == b || KeyLess(a, b)
  }

  lemma {:induction false} KeyLessIrreflexive(a: seq<int>)
    ensures !KeyLess(a, a)
  {
    if a != [] {
      KeyLessIrreflexive(a[1..]);
    }
  }

  lemma {:induction false} KeyLessTransitive(a: seq<int>, b: seq<int>, c: seq<int>)
    requires KeyLess(a, b) && KeyLess(b, c)
    ensures KeyLess(a, c)
  {
    if a != [] && a[0] == b[0] && b[0] == c[0] {
      KeyLessTransitive(a[1..], b[1..], c[1..]);
    }
  }

  /** Distinct keys are always ordered one way or the other. */
  lemma {:induction false} KeyLessTotal(a: seq<int>, b: seq<int>)
    requires a != b
    ensures KeyLess(a, b) || KeyLess(b, a)
  {
    if a != [] && b != [] && a[0] == b[0] {
      assert a == [a[0]] + a[1..] && b == [b[0]] + b[1..];
      KeyLessTotal(a[1..], b[1..]);
    }
  }

  lemma {:induction false} KeyLessAsymmetric(a: seq<int>, b: seq<int>)
    requires KeyLess(a, b)
    ensures !KeyLess(b, a)
  {
    if KeyLess(b, a) {
      KeyLessTransitive(a, b, a);
      KeyLessIrreflexive(a);
    }
  }

  /** `<=` on keys is a total order: any two keys compare, */
  lemma KeyLeTotal(a: seq<int>, b: seq<int>)
    ensures KeyLe(a, b) || KeyLe(b, a)
  {
    if a != b {
      KeyLessTotal(a, b);
    }
  }

  /** it is transitive, */
  lemma KeyLeTransitive(a: seq<int>, b: seq<int>, c: seq<int>)
    requires KeyLe(a, b) && KeyLe(b, c)
    ensures KeyLe(a, c)
  {
    if a != b && b != c {
      KeyLessTransitive(a, b, c);
    }
  }

  /** and antisymmetric. */
  lemma KeyLeAntisymmetric(a: seq<int>, b: seq<int>)
    requires KeyLe(a, b) && KeyLe(b, a)
    ensures a == b
  {
    if a != b {
      KeyLessAsymmetric(a, b);
    }
  }

  /** A proper prefix sorts first, as in Python: [1, 2] < [1, 2, 0]. */
  lemma {:induction false} ProperPrefixIsLess(a: seq<int>, b: seq<int>)
    requires |a| < |b| && a == b[..|a|]
    ensures KeyLess(a, b)
  {
    if a != [] {
      assert a[1..] == b[1..][..|a| - 1];
      ProperPrefixIsLess(a[1..], b[1..]);
    }
  }

  /** The file name "n1.n2. ... .nk.rst" written with canonical numerals. */
  function Numerals(ns: seq<nat>): seq<string> {
    seq(|ns|, k requires 0 <= k < |ns| => NatToString(ns[k]))
  }

  function CanonicalName(ns: seq<nat>): string
    requires |ns| >= 1
  {
    Join(Numerals(ns), '.') + ".rst"
  }

  lemma {:induction false} JoinAvoids(parts: seq<string>, sep: char, c: char)
    requires |parts| >= 1 && c != sep
    requires forall k :: 0 <= k < |parts| ==> c !in parts[k]
    ensures c !in Join(parts, sep)
  {
    if |parts| > 1 {
      JoinAvoids(parts[1..], sep, c);
    }
  }

  /** Removing ".rst" from a stem without 'r' followed by ".rst" leaves the stem. */
  lemma {:induction false} RemoveSuffix(stem: string)
    requires 'r' !in stem
    ensures RemoveAll(stem + ".rst", ".rst") == stem
  {
    var s := stem + ".rst";
    if stem == [] {
      assert s == ".rst";
      assert s[4..] == [];
    } else {
      assert s[1] == (if |stem| > 1 then stem[1] else '.');
      assert s[..4] != ".rst";
      assert s[1..] == stem[1..] + ".rst";
      RemoveSuffix(stem[1..]);
      assert [stem[0]] + stem[1..] == stem;
    }
  }

  /** For names made of canonical numerals the key is exactly the numbers,
      so `Key` is injective on them. */
  lemma KeyOfCanonicalName(ns: seq<nat>)
    requires |ns| >= 1
    ensures Key(CanonicalName(ns)) == ns
  {
    var parts := Numerals(ns);
    forall k | 0 <= k < |parts|
      ensures '.' !in parts[k] && 'r' !in parts[k]
      ensures ParseInt(parts[k]) == Some(ns[k] as int)
    {
      var d := NatToString(ns[k]);
      assert forall j :: 0 <= j < |d| ==> IsDigit(d[j]);
      ParseIntToString(ns[k]);
    }
    JoinAvoids(parts, '.', 'r');
    RemoveSuffix(Join(parts, '.'));
    SplitJoin(parts, '.');
    var r := ParseSegments(parts);
    assert r.Some?;
    assert r.value == ns;
  }

  lemma KeyInjectiveOnCanonicalNames(ns: seq<nat>, ms: seq<nat>)
    requires |ns| >= 1 && |ms| >= 1
    requires Key(CanonicalName(ns)) == Key(CanonicalName(ms))
    ensures ns == ms && CanonicalName(ns) == CanonicalName(ms)
  {
    KeyOfCanonicalName(ns);
    KeyOfCanonicalName(ms);
  }

  /** A segment `int()` rejects sends the whole name to the fallback key. */
  lemma KeyFallback(name: string, k: nat)
    requires k < |Segments(name)| && ParseInt(Segments(name)[k]) == None
    ensures Key(name) == Fallback
  {
  }

  /** The empty name has one empty segment, which `int("")` rejects. */
  lemma KeyOfEmptyName()
    ensures Key("") == Fallback
  {
    assert Segments("") == [""];
    ParseIntEmpty();
  }

  /** Every name gets a key of at least one number: the function is total and
      never yields the empty list. */
  lemma KeyNonEmpty(name: string)
    ensures |Key(name)| >= 1
  {
  }
}
