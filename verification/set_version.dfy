/**
 * The version manager of scripts/set-version.js: `release` drops the first
 * `-SNAPSHOT`, `snapshot` bumps the minor number, resets the patch number and
 * appends `-SNAPSHOT`, and any other argument sets the version outright. The
 * result is written to package.json only when it has the form
 * `^\d+\.\d+\.\d+(-SNAPSHOT)?$`.
 */
module SetVersionScript {
  import opened Wrappers
  import opened Digits

  const SNAPSHOT := "-SNAPSHOT"

  /* ---------- the JavaScript string operations the script uses ---------- */

  /** `t` occurs in `s` starting at position `i`. */
  predicate OccursAt(s: string, t: string, i: nat) {
    i + |t| <= |s| && s[i..i + |t|] == t
  }

  /** First position at or after `from` where `t` occurs in `s`. */
  function IndexFrom(s: string, t: string, from: nat): (r: Option<nat>)
    ensures r.Some? ==> from <= r.value && OccursAt(s, t, r.value)
    ensures r.Some? ==> forall i :: from <= i < r.value ==> !OccursAt(s, t, i)
    ensures r.None? ==> forall i :: from <= i ==> !OccursAt(s, t, i)
    decreases |s| - from
  {
    if from + |t| > |s| then None
    else if s[from..from + |t|] == t then Some(from)
    else IndexFrom(s, t, from + 1)
  }

  /** `s.includes(t)`. */
  predicate Contains(s: string, t: string)
    ensures Contains(s, t) ==> |t| <= |s|
  {
    IndexFrom(s, t, 0).Some?
  }

  /** `includes` holds exactly when `t` occurs somewhere in `s`. */
  lemma ContainsIffOccurs(s: string, t: string)
    ensures Contains(s, t) <==> exists i: nat :: OccursAt(s, t, i)
  {
  }

  /** `s.replace(t, r)` with a string pattern: only the first occurrence is replaced. */
  function ReplaceFirst(s: string, t: string, r: string): (u: string)
    ensures !Contains(s, t) ==> u == s
  {
    match IndexFrom(s, t, 0)
    case None => s
    case Some(i) => s[..i] + r + s[i + |t|..]
  }

  /** `replace` with a string pattern rewrites the first occurrence and keeps everything around it. */
  lemma ReplaceFirstOccurrence(s: string, t: string, r: string)
    requires Contains(s, t)
    ensures exists i: nat ::
      && OccursAt(s, t, i)
      && (forall j: nat :: j < i ==> !OccursAt(s, t, j))
      && ReplaceFirst(s, t, r) == s[..i] + r + s[i + |t|..]
  {
    var i := IndexFrom(s, t, 0).value;
    assert OccursAt(s, t, i) && (forall j: nat :: j < i ==> !OccursAt(s, t, j));
  }

  /** Position of the first `c` in `s`. */
  function FirstIndexOf(s: string, c: char): (i: nat)
    requires c in s
    ensures i < |s| && s[i] == c && c !in s[..i]
  {
    if s[0] == c then 0
    else
      var j := FirstIndexOf(s[1..], c);
      assert s[..j + 1] == [s[0]] + s[1..][..j];
      1 + j
  }

  /** `s.split(sep)` for a one-character separator. */
  function Split(s: string, sep: char): (parts: seq<string>)
    ensures |parts| > 0
    ensures forall k :: 0 <= k < |parts| ==> sep !in parts[k]
    decreases |s|
  {
    if sep !in s then [s]
    else
      var i := FirstIndexOf(s, sep);
      [s[..i]] + Split(s[i + 1..], sep)
  }

  /** `parts.join(sep)`. */
  function Join(parts: seq<string>, sep: char): (s: string)
    ensures |parts| > 0 ==> |parts[0]| <= |s| && s[..|parts[0]|] == parts[0]
    ensures |parts| > 1 ==> |parts[0]| < |s| && s[|parts[0]|] == sep
  {
    if |parts| == 0 then ""
    else if |parts| == 1 then parts[0]
    else parts[0] + [sep] + Join(parts[1..], sep)
  }

  /** How often `c` occurs in `s`. */
  function Count(s: string, c: char): nat {
    multiset(s)[c]
  }

  /** `Join` undoes `Split`. */
  lemma {:induction false} JoinSplit(s: string, sep: char)
    ensures Join(Split(s, sep), sep) == s
    decreases |s|
  {
    if sep in s {
      var i := FirstIndexOf(s, sep);
      JoinSplit(s[i + 1..], sep);
      assert s == s[..i] + [sep] + s[i + 1..];
    }
  }

  /** `Split` undoes `Join` when no part holds the separator. */
  lemma {:induction false} SplitJoin(parts: seq<string>, sep: char)
    requires |parts| > 0
    requires forall k :: 0 <= k < |parts| ==> sep !in parts[k]
    ensures Split(Join(parts, sep), sep) == parts
    decreases |parts|
  {
    if |parts| > 1 {
      SplitAfterFirst(parts[0], Join(parts[1..], sep), sep);
      SplitJoin(parts[1..], sep);
    }
  }

  /** Splitting at a separator that follows a separator-free prefix peels that prefix off. */
  lemma SplitAfterFirst(p: string, rest: string, sep: char)
    requires sep !in p
    ensures Split(p + [sep] + rest, sep) == [p] + Split(rest, sep)
  {
    var s := p + [sep] + rest;
    assert s[|p|] == sep;
    var i := FirstIndexOf(s, sep);
    assert forall j :: 0 <= j < |p| ==> s[j] == p[j];
    assert forall j :: 0 <= j < i ==> s[..i][j] == s[j];
    assert s[..i] == p;
    assert s[i + 1..] == rest;
  }

  /** Splitting yields one part more than there are separators. */
  lemma {:induction false} SplitCount(s: string, sep: char)
    ensures |Split(s, sep)| == Count(s, sep) + 1
    decreases |s|
  {
    if sep in s {
      var i := FirstIndexOf(s, sep);
      SplitCount(s[i + 1..], sep);
      assert s == s[..i] + [sep] + s[i + 1..];
      assert multiset(s) == multiset(s[..i]) + multiset{sep} + multiset(s[i + 1..]);
      assert multiset(s[..i])[sep] == 0;
    } else {
      assert multiset(s)[sep] == 0;
    }
  }

  /**
   * The characters `parseInt` skips before the number: ECMAScript's white
   * space (tab, vertical tab, form feed, the byte order mark and every space
   * separator) and its line terminators.
   */
  predicate IsJsSpace(c: char) {
    var k := c as int;
    k == 0x09 || k == 0x0A || k == 0x0B || k == 0x0C || k == 0x0D || k == 0x20 || k == 0xA0 ||
    k == 0x1680 || (0x2000 <= k <= 0x200A) || k == 0x2028 || k == 0x2029 || k == 0x202F ||
    k == 0x205F || k == 0x3000 || k == 0xFEFF
  }

  /** `s` without its leading white space. */
  function TrimStart(s: string): (u: string)
    ensures |u| <= |s| && u == s[|s| - |u|..]
    ensures |u| > 0 ==> !IsJsSpace(u[0])
  {
    if |s| > 0 && IsJsSpace(s[0]) then TrimStart(s[1..]) else s
  }

  /** What `TrimStart` drops is white space and nothing else. */
  lemma {:induction false} TrimStartDropsOnlySpace(s: string)
    ensures forall i :: 0 <= i < |s| - |TrimStart(s)| ==> IsJsSpace(s[i])
  {
    if |s| > 0 && IsJsSpace(s[0]) {
      TrimStartDropsOnlySpace(s[1..]);
      forall i | 1 <= i < |s| - |TrimStart(s)| ensures IsJsSpace(s[i]) {
        assert s[i] == s[1..][i - 1];
      }
    }
  }

  /** `u` without the one `+` or `-` it may start with. */
  function Unsigned(u: string): (d: string)
    ensures |d| <= |u| && d == u[|u| - |d|..]
  {
    if |u| > 0 && (u[0] == '-' || u[0] == '+') then u[1..] else u
  }

  /**
   * `parseInt(s, 10)`: leading white space skipped, an optional sign, then the
   * value of the digit run that follows; `None` (NaN) when that run is empty.
   */
  function ParseInt(s: string): Option<int> {
    ParseSigned(TrimStart(s))
  }

  /** `parseInt` is NaN exactly when no digit follows the white space and the sign. */
  lemma ParseIntNaN(s: string)
    ensures ParseInt(s).None? <==> var u := Unsigned(TrimStart(s)); |u| == 0 || !IsDigit(u[0])
  {
  }

  /** `parseInt` once the white space is gone: the sign, then the digit run after it. */
  function ParseSigned(u: string): Option<int> {
    var d := Unsigned(u);
    var e := RunEnd(d, 0);
    if e == 0 then None
    else if |u| > 0 && u[0] == '-' then Some(0 - Value(d[..e]))
    else Some(Value(d[..e]))
  }

  /** The sign decides the sign of the result: a number after `-` is never positive, any other never negative. */
  lemma ParseSignedSign(u: string)
    requires ParseSigned(u).Some?
    ensures |u| > 0
    ensures u[0] == '-' ==> ParseSigned(u).value <= 0
    ensures u[0] != '-' ==> ParseSigned(u).value >= 0
  {
  }

  /** The digit run at the start of `d + rest` is `d` when `rest` does not go on with a digit. */
  lemma LeadingRun(d: string, rest: string)
    requires Decimal(d) && (|rest| > 0 ==> !IsDigit(rest[0]))
    ensures RunEnd(d + rest, 0) == |d| && (d + rest)[..|d|] == d
  {
    var s := d + rest;
    assert s[..|d|] == d;
    RunEndExact(s, 0, |d|);
  }

  /** A text that does not start with white space is left as it is. */
  lemma TrimStartKeeps(s: string)
    requires |s| > 0 && !IsJsSpace(s[0])
    ensures TrimStart(s) == s
  {
  }

  /** Once the sign is gone, a digit string followed by a non-digit is read whole. */
  lemma ParseSignedDigits(u: string, d: string, rest: string)
    requires Decimal(d) && (|rest| > 0 ==> !IsDigit(rest[0]))
    requires Unsigned(u) == d + rest
    ensures ParseSigned(u) == if |u| > 0 && u[0] == '-' then Some(0 - Value(d)) else Some(Value(d))
  {
    LeadingRun(d, rest);
  }

  /** A text that starts with a digit starts with neither white space nor a sign. */
  lemma DigitStart(d: string, rest: string)
    requires Decimal(d)
    ensures |d + rest| > 0 && !IsJsSpace((d + rest)[0]) && Unsigned(d + rest) == d + rest
  {
    assert (d + rest)[0] == d[0];
  }

  /** Digits that end at a non-digit are read whole. */
  lemma ParseIntDigits(d: string, rest: string)
    requires Decimal(d) && (|rest| > 0 ==> !IsDigit(rest[0]))
    ensures ParseInt(d + rest) == Some(Value(d))
  {
    var s := d + rest;
    DigitStart(d, rest);
    TrimStartKeeps(s);
    ParseSignedDigits(s, d, rest);
  }

  /** `parseInt` of a digit string is its decimal value. */
  lemma ParseIntDecimal(d: string)
    requires Decimal(d)
    ensures ParseInt(d) == Some(Value(d))
  {
    ParseIntDigits(d, "");
    assert d + "" == d;
  }

  /** A text without digits parses as NaN. */
  lemma ParseIntNoDigits(s: string)
    requires forall i :: 0 <= i < |s| ==> !IsDigit(s[i])
    ensures ParseInt(s).None?
  {
  }

  /** `parseInt` skips a leading white-space character. */
  lemma ParseIntSkipsSpace(c: char, s: string)
    requires IsJsSpace(c)
    ensures ParseInt([c] + s) == ParseInt(s)
  {
    assert ([c] + s)[1..] == s;
    assert TrimStart([c] + s) == TrimStart(s);
  }

  /** `parseInt` reads a `-` in front of the digits. */
  lemma ParseIntNegative(d: string, rest: string)
    requires Decimal(d) && (|rest| > 0 ==> !IsDigit(rest[0]))
    ensures ParseInt("-" + d + rest) == Some(0 - Value(d))
  {
    var m := "-" + d + rest;
    assert m[0] == '-' && m[1..] == d + rest;
    TrimStartKeeps(m);
    ParseSignedDigits(m, d, rest);
  }

  /** `parseInt` reads a `+` in front of the digits. */
  lemma ParseIntPositive(d: string, rest: string)
    requires Decimal(d) && (|rest| > 0 ==> !IsDigit(rest[0]))
    ensures ParseInt("+" + d + rest) == Some(Value(d))
  {
    var p := "+" + d + rest;
    assert p[0] == '+' && p[1..] == d + rest;
    TrimStartKeeps(p);
    ParseSignedDigits(p, d, rest);
  }

  /** `parseInt(part, 10) + 1`, turned back into text by `join`. */
  function BumpText(part: string): string {
    Bumped(ParseInt(part))
  }

  /** A decimal part bumps to the decimal text of its value plus one, without leading zeros. */
  lemma BumpTextOfDecimal(part: string)
    requires Decimal(part)
    ensures Decimal(BumpText(part)) && Value(BumpText(part)) == Value(part) + 1
    ensures |BumpText(part)| > 1 ==> BumpText(part)[0] != '0'
  {
    ParseIntDecimal(part);
  }

  /** The text of a parsed number plus one; NaN stays NaN. */
  function Bumped(n: Option<int>): (t: string)
    ensures t == "NaN" <==> n.None?
  {
    match n
    case Some(k) => ShowInt(k + 1)
    case None => "NaN"
  }

  /** The bump yields `NaN` exactly when `parseInt` does. */
  lemma BumpTextNaN(part: string)
    ensures BumpText(part) == "NaN" <==> ParseInt(part).None?
  {
  }

  /** What the bump writes, `parseInt` reads back as the number plus one. */
  lemma BumpTextReadsBack(part: string)
    requires ParseInt(part).Some?
    ensures ParseInt(BumpText(part)) == Some(ParseInt(part).value + 1)
  {
    var k := ParseInt(part).value;
    assert BumpText(part) == ShowInt(k + 1) by {
      BumpTextOfNumber(part, k);
    }
    assert ParseInt(ShowInt(k + 1)) == Some(k + 1) by {
      ParseIntShowInt(k + 1);
    }
  }

  /** A part that parses to `k` bumps to the decimal text of `k + 1`. */
  lemma BumpTextOfNumber(part: string, k: int)
    requires ParseInt(part) == Some(k)
    ensures BumpText(part) == ShowInt(k + 1)
  {
  }

  /** `parseInt` reads back the decimal text of any integer. */
  lemma ParseIntShowInt(z: int)
    ensures ParseInt(ShowInt(z)) == Some(z)
  {
    if z >= 0 {
      ParseIntShowNat(z);
    } else {
      ParseIntShowNegative(z);
    }
  }

  lemma ParseIntShowNat(z: int)
    requires z >= 0
    ensures ParseInt(ShowInt(z)) == Some(z)
  {
    ParseIntDecimal(ShowInt(z));
  }

  lemma ParseIntShowNegative(z: int)
    requires z < 0
    ensures ParseInt(ShowInt(z)) == Some(z)
  {
    ParseIntMinus(ShowInt(z));
  }

  /** `parseInt` of `-` and a digit string is the negated value. */
  lemma ParseIntMinus(t: string)
    requires |t| > 1 && t[0] == '-' && AllDigits(t[1..])
    ensures ParseInt(t) == Some(0 - Value(t[1..]))
  {
    assert t == "-" + t[1..] + "";
    ParseIntNegative(t[1..], "");
  }

  /** A part without digits bumps to `NaN`. */
  lemma BumpTextNoDigits(part: string)
    requires forall i :: 0 <= i < |part| ==> !IsDigit(part[i])
    ensures BumpText(part) == "NaN"
  {
    ParseIntNoDigits(part);
  }

  /* ---------- the version texts the script accepts ---------- */

  /** A non-empty digit string: what `\d+` accepts. */
  predicate Decimal(d: string) {
    |d| > 0 && AllDigits(d)
  }

  /** `N.M.X`, with `-SNAPSHOT` appended when `snapshot` holds. */
  function VersionText(n: string, m: string, x: string, snapshot: bool): string {
    var plain := n + "." + m + "." + x;
    if snapshot then plain + SNAPSHOT else plain
  }

  /** The check `^\d+\.\d+\.\d+(-SNAPSHOT)?$` the script applies before it writes. */
  predicate IsVersion(s: string)
    ensures IsVersion(s) ==> |s| >= 5 && IsDigit(s[0])
  {
    var e1 := RunEnd(s, 0);
    if e1 == 0 || e1 + 1 >= |s| || s[e1] != '.' then false
    else
      var e2 := RunEnd(s, e1 + 1);
      if e2 == e1 + 1 || e2 + 1 >= |s| || s[e2] != '.' then false
      else
        var e3 := RunEnd(s, e2 + 1);
        e3 > e2 + 1 && (s[e3..] == "" || s[e3..] == SNAPSHOT)
  }

  /** Where the pieces of a version text sit. */
  lemma VersionTextPieces(n: string, m: string, x: string, snapshot: bool)
    ensures var s := VersionText(n, m, x, snapshot);
      var b := |n|; var c := b + 1 + |m|; var e := c + 1 + |x|;
      |s| >= e && s[..b] == n && s[b] == '.' && s[b + 1..c] == m && s[c] == '.' &&
      s[c + 1..e] == x && s[e..] == (if snapshot then SNAPSHOT else "")
  {
  }

  /** The check accepts exactly the version texts built from three digit strings. */
  lemma IsVersionIff(s: string)
    ensures IsVersion(s) <==>
      exists n, m, x, snapshot :: Decimal(n) && Decimal(m) && Decimal(x) && s == VersionText(n, m, x, snapshot)
  {
    if IsVersion(s) {
      var n, m, x, snapshot := PiecesOfAccepted(s);
    }
    if exists n, m, x, snapshot :: Decimal(n) && Decimal(m) && Decimal(x) && s == VersionText(n, m, x, snapshot) {
      var n, m, x, snapshot :| Decimal(n) && Decimal(m) && Decimal(x) && s == VersionText(n, m, x, snapshot);
      AcceptsVersionText(n, m, x, snapshot);
    }
  }

  /** An accepted text splits back into its three digit strings and its suffix. */
  lemma PiecesOfAccepted(s: string) returns (n: string, m: string, x: string, snapshot: bool)
    requires IsVersion(s)
    ensures Decimal(n) && Decimal(m) && Decimal(x) && s == VersionText(n, m, x, snapshot)
  {
    var e1 := RunEnd(s, 0);
    var e2 := RunEnd(s, e1 + 1);
    var e3 := RunEnd(s, e2 + 1);
    n, m, x := s[..e1], s[e1 + 1..e2], s[e2 + 1..e3];
    snapshot := s[e3..] == SNAPSHOT;
    assert s[0..e1] == n;
    assert s[..e2] == n + "." + m by {
      assert s[..e2] == s[..e1] + [s[e1]] + s[e1 + 1..e2];
    }
    assert s[..e3] == n + "." + m + "." + x by {
      assert s[..e3] == s[..e2] + [s[e2]] + s[e2 + 1..e3];
    }
    assert s == s[..e3] + s[e3..];
  }

  /** Every version text built from three digit strings passes the check. */
  lemma AcceptsVersionText(n: string, m: string, x: string, snapshot: bool)
    requires Decimal(n) && Decimal(m) && Decimal(x)
    ensures IsVersion(VersionText(n, m, x, snapshot))
  {
    var s := VersionText(n, m, x, snapshot);
    VersionTextPieces(n, m, x, snapshot);
    var b := |n|; var c := b + 1 + |m|; var e := c + 1 + |x|;
    AcceptsShape(s, b, c, e);
  }

  /** The check, stated on positions: three digit runs, two dots, then nothing or `-SNAPSHOT`. */
  lemma AcceptsShape(s: string, b: nat, c: nat, e: nat)
    requires 0 < b && b + 1 < c && c + 1 < e <= |s|
    requires AllDigits(s[..b]) && s[b] == '.' && AllDigits(s[b + 1..c]) && s[c] == '.' && AllDigits(s[c + 1..e])
    requires s[e..] == "" || s[e..] == SNAPSHOT
    ensures IsVersion(s)
  {
    assert s[0..b] == s[..b];
    RunEndExact(s, 0, b);
    RunEndExact(s, b + 1, c);
    assert e < |s| ==> s[e] == s[e..][0];
    RunEndExact(s, c + 1, e);
  }

  /** A version text without `-SNAPSHOT` holds no `-` at all. */
  lemma NoDashInPlainText(n: string, m: string, x: string)
    requires Decimal(n) && Decimal(m) && Decimal(x)
    ensures '-' !in VersionText(n, m, x, false)
  {
    var s := VersionText(n, m, x, false);
    VersionTextPieces(n, m, x, false);
    var b := |n|; var c := b + 1 + |m|;
    forall i | 0 <= i < |s| ensures s[i] != '-' {
      if i < b { assert s[i] == s[..b][i]; }
      else if b < i < c { assert s[i] == s[b + 1..c][i - b - 1]; }
      else if c < i { assert s[i] == s[c + 1..][i - c - 1]; }
    }
  }

  /** The first occurrence of `t` in `p + t` is the appended one when `p` lacks `t`'s first character. */
  lemma FirstOccurrenceAppended(p: string, t: string)
    requires |t| > 0 && t[0] !in p
    ensures IndexFrom(p + t, t, 0) == Some(|p|)
  {
    var s := p + t;
    assert OccursAt(s, t, |p|);
    forall i | 0 <= i < |p| ensures !OccursAt(s, t, i) {
      assert s[i] == p[i];
      assert s[i..i + |t|][0] == s[i];
    }
  }

  /** A string without `t`'s first character does not contain `t`. */
  lemma NotContained(s: string, t: string)
    requires |t| > 0 && t[0] !in s
    ensures !Contains(s, t)
  {
    forall i: nat | i + |t| <= |s| ensures !OccursAt(s, t, i) {
      assert s[i..i + |t|][0] == s[i];
    }
  }

  /* ---------- the two transforms ---------- */

  /** Why the script stops without writing package.json. */
  datatype Stop =
    | Usage              // no version given: the usage text is printed
    | NotSnapshot        // `release` on a version without -SNAPSHOT
    | BadSnapshotFormat  // `snapshot` on a version with fewer than three parts
    | InvalidFormat      // the computed version fails the final check

  /** The process exit status for each way of stopping. */
  function ExitCode(stop: Stop): (code: int)
    ensures code == 0 <==> stop == Usage
    ensures stop != Usage ==> code == 1
  {
    if stop == Usage then 0 else 1
  }

  /** `release`: remove the first `-SNAPSHOT`, or fail when there is none. */
  function Release(version: string): (r: Result<string, Stop>)
    ensures r.Failure? <==> !Contains(version, SNAPSHOT)
    ensures r.Failure? ==> r.error == NotSnapshot
    ensures r.Success? ==> r.value == ReplaceFirst(version, SNAPSHOT, "")
  {
    if !Contains(version, SNAPSHOT) then Failure(NotSnapshot)
    else Success(ReplaceFirst(version, SNAPSHOT, ""))
  }

  /** `snapshot`: bump the minor part, reset the patch part to 0 and append `-SNAPSHOT`. */
  function Snapshot(version: string): (r: Result<string, Stop>)
    ensures r.Failure? ==> r.error == BadSnapshotFormat
    ensures r.Success? ==> |r.value| > |SNAPSHOT| && r.value[|r.value| - |SNAPSHOT|..] == SNAPSHOT
  {
    var parts := Split(ReplaceFirst(version, SNAPSHOT, ""), '.');
    if |parts| < 3 then Failure(BadSnapshotFormat)
    else Success(Join(parts[1 := BumpText(parts[1])][2 := "0"], '.') + SNAPSHOT)
  }

  /** Removing the first `-SNAPSHOT` from a version text leaves its `N.M.X` part. */
  lemma StripSnapshot(n: string, m: string, x: string, snapshot: bool)
    requires Decimal(n) && Decimal(m) && Decimal(x)
    ensures Contains(VersionText(n, m, x, snapshot), SNAPSHOT) <==> snapshot
    ensures ReplaceFirst(VersionText(n, m, x, snapshot), SNAPSHOT, "") == VersionText(n, m, x, false)
  {
    var p := VersionText(n, m, x, false);
    NoDashInPlainText(n, m, x);
    if snapshot {
      assert VersionText(n, m, x, true) == p + SNAPSHOT;
      FirstOccurrenceAppended(p, SNAPSHOT);
      assert (p + SNAPSHOT)[..|p|] == p;
      assert (p + SNAPSHOT)[|p| + |SNAPSHOT|..] == "";
    } else {
      NotContained(p, SNAPSHOT);
    }
  }

  /** Joining three parts with dots gives the plain version text. */
  lemma JoinThree(n: string, m: string, x: string)
    ensures Join([n, m, x], '.') == VersionText(n, m, x, false)
  {
    assert [n, m, x][1..] == [m, x];
    assert [m, x][1..] == [x];
    assert Join([m, x], '.') == m + "." + x;
  }

  /** `N.M.X` splits at its dots into its three digit strings. */
  lemma SplitVersionText(n: string, m: string, x: string)
    requires Decimal(n) && Decimal(m) && Decimal(x)
    ensures Split(VersionText(n, m, x, false), '.') == [n, m, x]
  {
    DigitsHaveNoDot(n); DigitsHaveNoDot(m); DigitsHaveNoDot(x);
    JoinThree(n, m, x);
    SplitJoin([n, m, x], '.');
  }

  /** `release` turns `N.M.X-SNAPSHOT` into `N.M.X` and refuses `N.M.X`. */
  lemma ReleaseOfVersion(n: string, m: string, x: string)
    requires Decimal(n) && Decimal(m) && Decimal(x)
    ensures Release(VersionText(n, m, x, true)) == Success(VersionText(n, m, x, false))
    ensures Release(VersionText(n, m, x, false)) == Failure(NotSnapshot)
  {
    StripSnapshot(n, m, x, true);
    StripSnapshot(n, m, x, false);
  }

  /** `snapshot` on a version whose stripped text splits into exactly three parts. */
  lemma SnapshotOfThreeParts(version: string, n: string, m: string, x: string)
    requires Split(ReplaceFirst(version, SNAPSHOT, ""), '.') == [n, m, x]
    ensures Snapshot(version) == Success(Join([n, BumpText(m), "0"], '.') + SNAPSHOT)
  {
    assert [n, m, x][1 := BumpText(m)][2 := "0"] == [n, BumpText(m), "0"];
  }

  /**
   * `snapshot` turns `N.M.X` and `N.M.X-SNAPSHOT` alike into `N.M'.0-SNAPSHOT`,
   * where `M'` is the decimal text of `M + 1` (see `BumpText`).
   */
  lemma SnapshotOfVersion(n: string, m: string, x: string, snapshot: bool)
    requires Decimal(n) && Decimal(m) && Decimal(x)
    ensures Snapshot(VersionText(n, m, x, snapshot)) == Success(VersionText(n, BumpText(m), "0", true))
  {
    StripSnapshot(n, m, x, snapshot);
    SplitVersionText(n, m, x);
    SnapshotOfThreeParts(VersionText(n, m, x, snapshot), n, m, x);
    JoinThree(n, BumpText(m), "0");
  }

  lemma DigitsHaveNoDot(d: string)
    requires AllDigits(d)
    ensures '.' !in d
  {
    forall i | 0 <= i < |d| ensures d[i] != '.' {
      assert IsDigit(d[i]);
    }
  }

  /** `snapshot` fails exactly when the version, `-SNAPSHOT` removed once, holds fewer than two dots. */
  lemma SnapshotFailsOnFewDots(version: string)
    ensures Snapshot(version).Failure? <==> Count(ReplaceFirst(version, SNAPSHOT, ""), '.') < 2
    ensures Snapshot(version).Failure? ==> Snapshot(version).error == BadSnapshotFormat
  {
    SplitCount(ReplaceFirst(version, SNAPSHOT, ""), '.');
  }

  /** Both transforms keep an accepted version accepted. */
  lemma TransformsPreserveFormat(version: string)
    requires IsVersion(version)
    ensures Snapshot(version).Success? && IsVersion(Snapshot(version).value)
    ensures Release(version).Success? ==> IsVersion(Release(version).value)
  {
    IsVersionIff(version);
    var n, m, x, snapshot :| Decimal(n) && Decimal(m) && Decimal(x) && version == VersionText(n, m, x, snapshot);
    SnapshotKeepsFormat(n, m, x, snapshot);
    ReleaseKeepsFormat(n, m, x, snapshot);
  }

  lemma SnapshotKeepsFormat(n: string, m: string, x: string, snapshot: bool)
    requires Decimal(n) && Decimal(m) && Decimal(x)
    ensures Snapshot(VersionText(n, m, x, snapshot)).Success?
    ensures IsVersion(Snapshot(VersionText(n, m, x, snapshot)).value)
  {
    SnapshotOfVersion(n, m, x, snapshot);
    BumpKeepsDecimal(m);
    AcceptsVersionText(n, BumpText(m), "0", true);
  }

  lemma BumpKeepsDecimal(m: string)
    requires Decimal(m)
    ensures Decimal(BumpText(m)) && Decimal("0")
  {
    BumpTextOfDecimal(m);
  }

  lemma ReleaseKeepsFormat(n: string, m: string, x: string, snapshot: bool)
    requires Decimal(n) && Decimal(m) && Decimal(x)
    ensures Release(VersionText(n, m, x, snapshot)).Success? ==>
      IsVersion(Release(VersionText(n, m, x, snapshot)).value)
  {
    ReleaseOfVersion(n, m, x);
    AcceptsVersionText(n, m, x, false);
  }

  /* ---------- command dispatch ---------- */

  /** `process.argv[2 + i]`, `undefined` past the end. */
  function Arg(args: seq<string>, i: nat): Option<string> {
    if i < |args| then Some(args[i]) else None
  }

  /** JavaScript truthiness of a string that may be `undefined`. */
  predicate Truthy(a: Option<string>) {
    a.Some? && a.value != ""
  }

  /** The version the chosen branch computes, before the final check. */
  function Choose(args: seq<string>, current: string): (r: Result<string, Stop>)
    ensures r.Failure? ==> r.error != InvalidFormat
    ensures r == Failure(Usage) <==> !Truthy(Arg(args, 0)) && !Truthy(Arg(args, 1))
  {
    var command := Arg(args, 0);
    var newVersion := Arg(args, 1);
    if command == Some("release") then Release(current)
    else if command == Some("snapshot") then Snapshot(current)
    else if Truthy(command) && !Truthy(newVersion) then Success(command.value)
    else if Truthy(newVersion) then Success(newVersion.value)
    else Failure(Usage)
  }

  /** The whole script: the chosen version, provided it passes the final check. */
  function Run(args: seq<string>, current: string): (r: Result<string, Stop>)
    ensures r.Success? ==> IsVersion(r.value)
    ensures r.Success? ==> Choose(args, current) == r
    ensures Choose(args, current).Failure? ==> r == Choose(args, current)
    ensures Choose(args, current).Success? && IsVersion(Choose(args, current).value) ==> r == Choose(args, current)
    ensures Choose(args, current).Success? && !IsVersion(Choose(args, current).value) ==> r == Failure(InvalidFormat)
  {
    var version :- Choose(args, current);
    if IsVersion(version) then Success(version) else Failure(InvalidFormat)
  }

  /** Which branch runs: `release` and `snapshot` first, whatever follows them; then one argument; then a second one. */
  lemma DispatchOrder(args: seq<string>, current: string)
    ensures |args| > 0 && args[0] == "release" ==> Choose(args, current) == Release(current)
    ensures |args| > 0 && args[0] == "snapshot" ==> Choose(args, current) == Snapshot(current)
    ensures |args| > 0 && args[0] !in {"", "release", "snapshot"} && (|args| == 1 || args[1] == "") ==>
      Choose(args, current) == Success(args[0])
    ensures |args| > 1 && args[0] !in {"release", "snapshot"} && args[1] != "" ==>
      Choose(args, current) == Success(args[1])
    ensures (|args| == 0 || args[0] == "") && (|args| <= 1 || args[1] == "") ==>
      Choose(args, current) == Failure(Usage)
  {
  }

  /** `snapshot` run on an accepted version writes `N.M'.0-SNAPSHOT`. */
  lemma RunSnapshot(n: string, m: string, x: string, snapshot: bool)
    requires Decimal(n) && Decimal(m) && Decimal(x)
    ensures Run(["snapshot"], VersionText(n, m, x, snapshot)) == Success(VersionText(n, BumpText(m), "0", true))
  {
    SnapshotOfVersion(n, m, x, snapshot);
    SnapshotKeepsFormat(n, m, x, snapshot);
  }

  /** `release` run on `N.M.X-SNAPSHOT` writes `N.M.X`; on `N.M.X` it stops as not a snapshot. */
  lemma RunRelease(n: string, m: string, x: string, snapshot: bool)
    requires Decimal(n) && Decimal(m) && Decimal(x)
    ensures Run(["release"], VersionText(n, m, x, snapshot)) ==
      if snapshot then Success(VersionText(n, m, x, false)) else Failure(NotSnapshot)
  {
    ReleaseOfVersion(n, m, x);
    AcceptsVersionText(n, m, x, false);
  }

  /** A version given on the command line is written exactly when it passes the check. */
  lemma SetAcceptsOnlyVersions(v: string, current: string)
    requires v !in {"", "release", "snapshot"}
    ensures Run([v], current) == (if IsVersion(v) then Success(v) else Failure(InvalidFormat))
  {
  }

  /** package.json, of which the script reads and rewrites the `version` field. */
  class PackageJson {
    var version: string

    constructor (version: string)
      ensures this.version == version
    {
      this.version := version;
    }
  }

  /** The script body: pick the new version, check it, and only then store it. */
  method SetVersion(pkg: PackageJson, args: seq<string>) returns (r: Result<string, Stop>)
    modifies pkg
    ensures r == Run(args, old(pkg.version))
    ensures pkg.version == if r.Success? then r.value else old(pkg.version)
  {
    var command := Arg(args, 0);
    var newVersion := Arg(args, 1);
    var version := pkg.version;
    if command == Some("release") {
      if !Contains(version, SNAPSHOT) {
        return Failure(NotSnapshot);
      }
      version := ReplaceFirst(version, SNAPSHOT, "");
    } else if command == Some("snapshot") {
      var parts := Split(ReplaceFirst(version, SNAPSHOT, ""), '.');
      if |parts| < 3 {
        return Failure(BadSnapshotFormat);
      }
      parts := parts[1 := BumpText(parts[1])];
      parts := parts[2 := "0"];
      version := Join(parts, '.') + SNAPSHOT;
    } else if Truthy(command) && !Truthy(newVersion) {
      version := command.value;
    } else if Truthy(newVersion) {
      version := newVersion.value;
    } else {
      return Failure(Usage);
    }
    if !IsVersion(version) {
      return Failure(InvalidFormat);
    }
    pkg.version := version;
    r := Success(version);
  }
}
