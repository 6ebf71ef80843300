/**
 * The `Version` value of src/kopf/elastic/version.js: a version string parsed
 * once, at construction, by the unanchored pattern `(\d+)\.(\d+)\.(\d+)\.*`,
 * plus the name of the search distribution it belongs to.
 */
module ElasticVersion {
  import opened Wrappers
  import opened Digits

  /**
   * `s[a..b]`, `s[b+1..c]` and `s[c+1..d]` are non-empty digit runs joined by
   * dots: a substring of `s` that `(\d+)\.(\d+)\.(\d+)` accepts.
   */
  ghost predicate TripleAt(s: string, a: nat, b: nat, c: nat, d: nat) {
    a < b && b + 1 < c && c + 1 < d && d <= |s| &&
    AllDigits(s[a..b]) && s[b] == '.' &&
    AllDigits(s[b + 1..c]) && s[c] == '.' &&
    AllDigits(s[c + 1..d])
  }

  /** The regular expression finds a match somewhere in `s`. */
  ghost predicate ContainsTriple(s: string) {
    exists a: nat, b: nat, c: nat, d: nat :: TripleAt(s, a, b, c, d)
  }

  /**
   * The match that `RegExp.prototype.exec` reports: the leftmost start, and
   * every `\d+` as long as it can be (the last run is followed by a non-digit
   * or by the end of `s`).
   */
  ghost predicate LeftmostMatch(s: string, a: nat, b: nat, c: nat, d: nat) {
    TripleAt(s, a, b, c, d) && (d < |s| ==> !IsDigit(s[d])) &&
    forall a': nat, b': nat, c': nat, d': nat :: a' < a ==> !TripleAt(s, a', b', c', d')
  }

  /** Where the three groups of a match end. */
  datatype Ends = Ends(end1: nat, end2: nat, end3: nat)

  /** Matching attempt of the pattern anchored at position `i`. */
  function MatchAt(s: string, i: nat): (m: Option<Ends>)
    requires i <= |s|
    ensures m.Some? ==> TripleAt(s, i, m.value.end1, m.value.end2, m.value.end3)
    ensures m.Some? ==> m.value.end3 < |s| ==> !IsDigit(s[m.value.end3])
  {
    var e1 := RunEnd(s, i);
    if e1 == i || e1 + 1 >= |s| || s[e1] != '.' then None
    else
      var e2 := RunEnd(s, e1 + 1);
      if e2 == e1 + 1 || e2 + 1 >= |s| || s[e2] != '.' then None
      else
        var e3 := RunEnd(s, e2 + 1);
        if e3 == e2 + 1 then None else Some(Ends(e1, e2, e3))
  }

  /** Whenever the pattern can match at `a`, the anchored attempt succeeds. */
  lemma MatchAtComplete(s: string, a: nat, b: nat, c: nat, d: nat)
    requires TripleAt(s, a, b, c, d)
    ensures MatchAt(s, a).Some?
    ensures MatchAt(s, a).value.end1 == b && MatchAt(s, a).value.end2 == c
    ensures MatchAt(s, a).value.end3 >= d
  {
    RunEndExact(s, a, b);
    RunEndExact(s, b + 1, c);
    RunEndCovers(s, c + 1, d);
  }

  /** A match found at `i`, reported with the position it starts at. */
  datatype Found = Found(start: nat, ends: Ends)

  /** Leftmost match at or after position `i`: the scan the regex engine performs. */
  function FindMatch(s: string, i: nat): (r: Option<Found>)
    requires i <= |s|
    ensures r.Some? ==> i <= r.value.start <= |s| && MatchAt(s, r.value.start) == Some(r.value.ends)
    ensures r.Some? ==> forall j :: i <= j < r.value.start ==> MatchAt(s, j).None?
    ensures r.None? ==> forall j :: i <= j <= |s| ==> MatchAt(s, j).None?
    decreases |s| - i
  {
    match MatchAt(s, i)
    case Some(e) => Some(Found(i, e))
    case None => if i == |s| then None else FindMatch(s, i + 1)
  }

  /** The leftmost match is the one `FindMatch` reports, and it exists exactly when `s` contains a triple. */
  lemma {:induction false} FindMatchIsLeftmost(s: string)
    ensures FindMatch(s, 0).Some? <==> ContainsTriple(s)
    ensures FindMatch(s, 0).Some? ==>
      var f := FindMatch(s, 0).value;
      LeftmostMatch(s, f.start, f.ends.end1, f.ends.end2, f.ends.end3)
  {
    var r := FindMatch(s, 0);
    if r.Some? {
      var f := r.value;
      assert TripleAt(s, f.start, f.ends.end1, f.ends.end2, f.ends.end3);
      forall a': nat, b': nat, c': nat, d': nat | a' < f.start
        ensures !TripleAt(s, a', b', c', d')
      {
        if TripleAt(s, a', b', c', d') {
          MatchAtComplete(s, a', b', c', d');
        }
      }
    } else {
      forall a: nat, b: nat, c: nat, d: nat ensures !TripleAt(s, a, b, c, d) {
        if TripleAt(s, a, b, c, d) {
          MatchAtComplete(s, a, b, c, d);
        }
      }
    }
  }

  /** The leftmost match begins where a maximal run of digits begins. */
  lemma {:induction false} MatchStartsAtRun(s: string)
    requires FindMatch(s, 0).Some?
    ensures var a := FindMatch(s, 0).value.start; a == 0 || !IsDigit(s[a - 1])
  {
    var f := FindMatch(s, 0).value;
    var a := f.start;
    if a > 0 && IsDigit(s[a - 1]) {
      var e := f.ends;
      assert TripleAt(s, a, e.end1, e.end2, e.end3);
      assert s[a - 1..e.end1] == [s[a - 1]] + s[a..e.end1];
      assert TripleAt(s, a - 1, e.end1, e.end2, e.end3);
      MatchAtComplete(s, a - 1, e.end1, e.end2, e.end3);
      assert false;
    }
  }

  /** Names the distribution; anything but these two names is some other product. */
  const ELASTICSEARCH := "elasticsearch"
  const OPENSEARCH := "opensearch"

  /**
   * A constructed `Version`. The three numbers are `None` (JavaScript's
   * `undefined`) when the string does not match.
   */
  datatype Version = Version(
    value: string,
    valid: bool,
    major: Option<nat>,
    minor: Option<nat>,
    patch: Option<nat>,
    distribution: string)
  {
    /** What the constructor guarantees: the numbers are defined exactly when the string is valid. */
    predicate WellFormed() {
      valid == major.Some? && valid == minor.Some? && valid == patch.Some?
    }

    function IsElasticsearch(): (r: bool)
      ensures r <==> distribution == ELASTICSEARCH
      ensures r ==> distribution != OPENSEARCH
    {
      distribution == ELASTICSEARCH
    }

    function IsOpenSearch(): (r: bool)
      ensures r <==> distribution == OPENSEARCH
      ensures r ==> !IsElasticsearch()
    {
      distribution == OPENSEARCH
    }

    /** `this >= other`, written as the three JavaScript comparisons it is made of. */
    function IsGreater(other: Version): (r: bool)
      ensures r && major != other.major ==>
        major.Some? && other.major.Some? && major.value > other.major.value
      ensures r && major == other.major && minor != other.minor ==>
        minor.Some? && other.minor.Some? && minor.value > other.minor.value
      ensures r && major == other.major && minor == other.minor ==>
        patch.Some? && other.patch.Some? && patch.value >= other.patch.value
    {
      var higherMajor := JsGt(major, other.major);
      var higherMinor := JsEq(major, other.major) && JsGt(minor, other.minor);
      var higherPatch := JsEq(major, other.major) && JsEq(minor, other.minor) && JsGe(patch, other.patch);
      higherMajor || higherMinor || higherPatch
    }

    function IsOpenSearch2OrLater(): (r: bool)
      ensures r <==> IsOpenSearch() && major.Some? && major.value >= 2
    {
      IsOpenSearch() && JsGe(major, Some(2))
    }

    function IsOpenSearch3OrLater(): (r: bool)
      ensures r <==> IsOpenSearch() && major.Some? && major.value >= 3
      ensures r ==> IsOpenSearch2OrLater()
    {
      IsOpenSearch() && JsGe(major, Some(3))
    }
  }

  /** JavaScript `==` on numbers that may be `undefined`: `undefined == undefined` holds. */
  predicate JsEq(x: Option<nat>, y: Option<nat>) {
    x == y
  }

  /** JavaScript `>`: any comparison involving `undefined` is false. */
  predicate JsGt(x: Option<nat>, y: Option<nat>) {
    x.Some? && y.Some? && x.value > y.value
  }

  /** JavaScript `>=`: any comparison involving `undefined` is false. */
  predicate JsGe(x: Option<nat>, y: Option<nat>) {
    x.Some? && y.Some? && x.value >= y.value
  }

  /** The distribution recorded for a constructor argument: `name || 'elasticsearch'`. */
  function DistributionOf(name: Option<string>): (d: string)
    ensures name.None? || name == Some("") ==> d == ELASTICSEARCH
    ensures name.Some? && name.value != "" ==> d == name.value
  {
    if name.Some? && name.value != "" then name.value else ELASTICSEARCH
  }

  /** `new Version(version, name)`. */
  function NewVersion(version: string, name: Option<string>): (v: Version)
    ensures v.WellFormed()
    ensures v.value == version
    ensures v.distribution == DistributionOf(name)
  {
    match FindMatch(version, 0)
    case None => Version(version, false, None, None, None, DistributionOf(name))
    case Some(f) =>
      Version(version, true,
              Some(Value(version[f.start..f.ends.end1])),
              Some(Value(version[f.ends.end1 + 1..f.ends.end2])),
              Some(Value(version[f.ends.end2 + 1..f.ends.end3])),
              DistributionOf(name))
  }

  /** A version is valid exactly when the pattern finds a match somewhere in its string. */
  lemma ValidIffContainsTriple(version: string, name: Option<string>)
    ensures NewVersion(version, name).valid <==> ContainsTriple(version)
  {
    FindMatchIsLeftmost(version);
  }

  /** The scan reports exactly the leftmost match, with its maximal digit runs. */
  lemma {:induction false} FindMatchFindsLeftmost(version: string, a: nat, b: nat, c: nat, d: nat)
    requires LeftmostMatch(version, a, b, c, d)
    ensures FindMatch(version, 0) == Some(Found(a, Ends(b, c, d)))
  {
    MatchAtComplete(version, a, b, c, d);
    var r := FindMatch(version, 0);
    assert r.Some?;
    var f := r.value;
    var e := f.ends;
    assert TripleAt(version, f.start, e.end1, e.end2, e.end3);
    assert f.start == a;
    RunEndExact(version, c + 1, d);
    RunEndExact(version, c + 1, e.end3);
  }

  /** The three numbers are the values of the three digit runs of the leftmost match. */
  lemma NumbersOfLeftmostMatch(version: string, name: Option<string>, a: nat, b: nat, c: nat, d: nat)
    requires LeftmostMatch(version, a, b, c, d)
    ensures NewVersion(version, name).valid
    ensures NewVersion(version, name).major == Some(Value(version[a..b]))
    ensures NewVersion(version, name).minor == Some(Value(version[b + 1..c]))
    ensures NewVersion(version, name).patch == Some(Value(version[c + 1..d]))
  {
    FindMatchFindsLeftmost(version, a, b, c, d);
  }

  /** Lexicographic `>=` on sequences of the same length: an independent statement of the order. */
  predicate LexGe(x: seq<nat>, y: seq<nat>)
    requires |x| == |y|
  {
    |x| == 0 || x[0] > y[0] || (x[0] == y[0] && LexGe(x[1..], y[1..]))
  }

  /** The numbers of a valid version, most significant first. */
  function Triple(v: Version): (t: seq<nat>)
    requires v.WellFormed() && v.valid
    ensures |t| == 3
  {
    [v.major.value, v.minor.value, v.patch.value]
  }

  /** `isGreater` is lexicographic `>=` on valid versions and false as soon as either side is invalid. */
  lemma IsGreaterIsLexGe(a: Version, b: Version)
    requires a.WellFormed() && b.WellFormed()
    ensures a.IsGreater(b) <==> a.valid && b.valid && LexGe(Triple(a), Triple(b))
  {
    if a.valid && b.valid {
      var x, y := Triple(a), Triple(b);
      assert x[1..][1..] == [x[2]] && y[1..][1..] == [y[2]];
      assert LexGe(x[1..][1..], y[1..][1..]) <==> x[2] >= y[2];
      assert LexGe(x[1..], y[1..]) <==> x[1] > y[1] || (x[1] == y[1] && x[2] >= y[2]);
    }
  }

  /** Equal versions compare as greater: the comparison is `>=`. */
  lemma IsGreaterReflexive(a: Version)
    requires a.WellFormed() && a.valid
    ensures a.IsGreater(a)
  {
  }

  /** Any two valid versions are comparable, and both directions hold only for equal numbers. */
  lemma IsGreaterTotal(a: Version, b: Version)
    requires a.WellFormed() && b.WellFormed() && a.valid && b.valid
    ensures a.IsGreater(b) || b.IsGreater(a)
    ensures a.IsGreater(b) && b.IsGreater(a) <==> Triple(a) == Triple(b)
  {
  }

  /** The comparison chains. */
  lemma IsGreaterTransitive(a: Version, b: Version, c: Version)
    requires a.WellFormed() && b.WellFormed() && c.WellFormed()
    requires a.IsGreater(b) && b.IsGreater(c)
    ensures a.IsGreater(c)
  {
  }

  /** An invalid version is never greater than anything, nor anything greater than it. */
  lemma InvalidNeverCompares(a: Version, b: Version)
    requires a.WellFormed() && b.WellFormed()
    requires !a.valid || !b.valid
    ensures !a.IsGreater(b)
  {
  }

  /** The OpenSearch gates are closed for every distribution other than OpenSearch. */
  lemma OpenSearchGatesNeedOpenSearch(v: Version)
    requires v.distribution != OPENSEARCH
    ensures !v.IsOpenSearch2OrLater() && !v.IsOpenSearch3OrLater()
  {
  }

  /** The example version string of the tests, read by the pattern. */
  lemma ParseExample()
    ensures NewVersion("2.11.1", Some(OPENSEARCH)).major == Some(2)
    ensures NewVersion("2.11.1", Some(OPENSEARCH)).minor == Some(11)
    ensures NewVersion("2.11.1", Some(OPENSEARCH)).patch == Some(1)
    ensures NewVersion("2.11.1", Some(OPENSEARCH)).IsOpenSearch2OrLater()
    ensures !NewVersion("2.11.1", Some(OPENSEARCH)).IsOpenSearch3OrLater()
  {
    var s := "2.11.1";
    assert RunEnd(s, 6) == 6;
    assert RunEnd(s, 5) == 6;
    assert RunEnd(s, 4) == 4;
    assert RunEnd(s, 3) == 4;
    assert RunEnd(s, 2) == 4;
    assert RunEnd(s, 1) == 1;
    assert RunEnd(s, 0) == 1;
    assert MatchAt(s, 0) == Some(Ends(1, 4, 6));
    assert s[0..1] == "2" && s[2..4] == "11" && s[5..6] == "1";
    assert Value("11") == 11;
  }

  /** A string with no digits at all is not a version. */
  lemma NoDigitsInvalid(s: string, name: Option<string>)
    requires forall i :: 0 <= i < |s| ==> !IsDigit(s[i])
    ensures !NewVersion(s, name).valid
  {
    forall j | 0 <= j <= |s| ensures MatchAt(s, j).None? {
      assert RunEnd(s, j) == j;
    }
  }

  /** Elasticsearch is the default distribution, and the two distribution tests exclude each other. */
  lemma DistributionExamples(s: string)
    ensures NewVersion(s, None).IsElasticsearch()
    ensures NewVersion(s, Some("")).IsElasticsearch()
    ensures forall v: Version :: !(v.IsElasticsearch() && v.IsOpenSearch())
  {
  }
}
