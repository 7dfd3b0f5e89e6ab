// Semantic versions: parsing, order and compatibility.

module Strings {

  /** Position of the last c in s, or -1. */
  function LastIndex(s: string, c: char): (i: int)
    ensures -1 <= i < |s|
    ensures i >= 0 ==> s[i] == c
    ensures forall j :: i < j < |s| ==> s[j] != c
  {
    if s == [] then -1
    else if s[|s| - 1] == c then |s| - 1
    else LastIndex(s[..|s| - 1], c)
  }

  /** Position of the first c in s, or -1. */
  function Index(s: string, c: char): (i: int)
    ensures -1 <= i < |s|
    ensures i >= 0 ==> s[i] == c
    ensures forall j :: 0 <= j < (if i < 0 then |s| else i) ==> s[j] != c
  {
    if s == [] then -1
    else if s[0] == c then 0
    else
      var i := Index(s[1..], c);
      if i < 0 then -1 else i + 1
  }

  /** s cut at every c. */
  function Split(s: string, c: char): seq<string>
    decreases |s|
  {
    var i := Index(s, c);
    if i < 0 then [s] else [s[..i]] + Split(s[i + 1..], c)
  }

  lemma SplitFirst(a: string, rest: string, c: char)
    requires c !in a
    ensures Split(a + [c] + rest, c) == [a] + Split(rest, c)
  {
    var s := a + [c] + rest;
    var i := Index(s, c);
    assert s[|a|] == c;
    assert forall j :: 0 <= j < |a| ==> s[j] == a[j];
    assert i == |a|;
    assert s[..i] == a && s[i + 1..] == rest;
  }

  lemma SplitNone(a: string, c: char)
    requires c !in a
    ensures Split(a, c) == [a]
  {
  }

  /** A string is cut at its last c in only one way. */
  lemma LastIndexIs(a: string, b: string, c: char)
    requires c !in b
    ensures LastIndex(a + [c] + b, c) == |a|
  {
    hide LastIndex;
    var s := a + [c] + b;
    assert s[|a|] == c;
  }

  predicate IsDigit(c: char) {
    '0' <= c <= '9'
  }

  predicate AllDigits(s: string) {
    forall i :: 0 <= i < |s| ==> IsDigit(s[i])
  }

  function DigitsValue(s: string): nat
    requires AllDigits(s)
  {
    if s == [] then 0 else 10 * DigitsValue(s[..|s| - 1]) + (s[|s| - 1] as int - '0' as int)
  }

  /** An unsigned decimal number below limit: digits only, and at least one. */
  function ParseUint(s: string, limit: nat): (r: int)
    ensures r < 0 || r < limit
  {
    if s == [] || !AllDigits(s) then -1
    else if DigitsValue(s) < limit then DigitsValue(s) else -1
  }

  function Digit(n: nat): char
    requires n < 10
  {
    ('0' as int + n) as char
  }

  function Decimal(n: nat): string {
    if n < 10 then [Digit(n)] else Decimal(n / 10) + [Digit(n % 10)]
  }

  lemma {:induction false} DecimalParses(n: nat)
    ensures Decimal(n) != [] && AllDigits(Decimal(n)) && DigitsValue(Decimal(n)) == n
  {
    if n < 10 {
      assert Decimal(n)[..0] == [];
    } else {
      DecimalParses(n / 10);
      var d := Decimal(n);
      assert d[..|d| - 1] == Decimal(n / 10);
    }
  }

  /** Leading zeros change nothing. */
  lemma {:induction false} LeadingZero(s: string)
    requires AllDigits(s)
    ensures AllDigits("0" + s) && DigitsValue("0" + s) == DigitsValue(s)
  {
    var z := "0" + s;
    if s == [] {
      assert z[..0] == [];
    } else {
      LeadingZero(s[..|s| - 1]);
      assert z[..|z| - 1] == "0" + s[..|s| - 1];
    }
  }
}

module Semvers {
  import opened Words
  import opened Wrappers
  import opened Strings

  datatype Semver = Semver(major: uint32, minor: uint32, patch: uint32)

  function ParseSemver(s: string): Option<Semver> {
    var parts := Split(s, '.');
    if |parts| != 3 then None
    else
      var major, minor, patch := ParseUint(parts[0], TWO_32), ParseUint(parts[1], TWO_32), ParseUint(parts[2], TWO_32);
      if major < 0 || minor < 0 || patch < 0 then None else Some(Semver(major, minor, patch))
  }

  /** A version is three numbers in order, each of digits only and below 2^32. */
  lemma ParsesTo(major: string, minor: string, patch: string)
    requires '.' !in major && '.' !in minor && '.' !in patch
    ensures ParseSemver(major + "." + (minor + "." + patch)) ==
      if ParseUint(major, TWO_32) < 0 || ParseUint(minor, TWO_32) < 0 || ParseUint(patch, TWO_32) < 0 then None
      else Some(Semver(ParseUint(major, TWO_32), ParseUint(minor, TWO_32), ParseUint(patch, TWO_32)))
  {
    hide ParseUint, Split;
    SplitFirst(major, minor + "." + patch, '.');
    SplitFirst(minor, patch, '.');
    SplitNone(patch, '.');
  }

  /** Digits are decimal, the most significant first. */
  lemma ParsesDecimal()
    ensures ParseUint("10", TWO_32) == 10 && ParseUint("", TWO_32) < 0 && ParseUint("1a", TWO_32) < 0
  {
    assert "10"[..1] == "1" && "1"[..0] == "";
    assert DigitsValue("10") == 10 * DigitsValue("1");
    assert !IsDigit("1a"[1]);
  }

  function Format(v: Semver): string {
    Decimal(v.major) + "." + (Decimal(v.minor) + "." + Decimal(v.patch))
  }

  lemma DecimalOne(n: uint32)
    ensures '.' !in Decimal(n) && '@' !in Decimal(n) && '/' !in Decimal(n) && ParseUint(Decimal(n), TWO_32) == n
  {
    DecimalParses(n);
  }

  /** Formatting a version and parsing it again gives the version. */
  lemma FormatParses(v: Semver)
    ensures ParseSemver(Format(v)) == Some(v)
    ensures '@' !in Format(v) && '/' !in Format(v)
  {
    hide Decimal, ParseUint, Split;
    DecimalOne(v.major);
    DecimalOne(v.minor);
    DecimalOne(v.patch);
    SplitFirst(Decimal(v.major), Decimal(v.minor) + "." + Decimal(v.patch), '.');
    SplitFirst(Decimal(v.minor), Decimal(v.patch), '.');
    SplitNone(Decimal(v.patch), '.');
  }

  // ----- order -----

  /** -1, 0 or 1. */
  function Compare(a: Semver, b: Semver): int {
    if a.major != b.major then if a.major < b.major then -1 else 1
    else if a.minor != b.minor then if a.minor < b.minor then -1 else 1
    else if a.patch != b.patch then if a.patch < b.patch then -1 else 1
    else 0
  }

  predicate Greater(a: Semver, b: Semver) {
    if a.major != b.major then a.major > b.major
    else if a.minor != b.minor then a.minor > b.minor
    else a.patch > b.patch
  }

  /** The comparison is a total order, and Greater is its strict part. */
  lemma CompareIsOrder(a: Semver, b: Semver, c: Semver)
    ensures Compare(a, b) == 0 <==> a == b
    ensures Compare(a, b) == -Compare(b, a)
    ensures Compare(a, b) <= 0 && Compare(b, c) <= 0 ==> Compare(a, c) <= 0
    ensures Greater(a, b) <==> Compare(a, b) > 0
  {
  }

  /** The order compares major, then minor, then patch, as numbers. */
  lemma CompareIsAtMost(a: Semver, b: Semver)
    ensures Compare(a, b) <= 0 <==> AtMost(TripleOf(a), TripleOf(b))
    ensures Greater(a, b) <==> !AtMost(TripleOf(a), TripleOf(b))
  {
  }

  // ----- compatibility -----

  predicate Compatible(required: Semver, available: Semver, relaxed: bool) {
    if required.major != available.major then false
    else if required.major == 0 then
      required.minor == available.minor && (relaxed || available.patch >= required.patch)
    else available.minor > required.minor || (available.minor == required.minor && available.patch >= required.patch)
  }

  /** A version as a triple without bounds, so that the next breaking release always exists. */
  datatype Triple = Triple(major: nat, minor: nat, patch: nat)

  predicate AtMost(a: Triple, b: Triple) {
    a.major < b.major || (a.major == b.major && (a.minor < b.minor || (a.minor == b.minor && a.patch <= b.patch)))
  }

  function TripleOf(v: Semver): Triple {
    Triple(v.major, v.minor, v.patch)
  }

  function NextBreaking(v: Semver): Triple {
    if v.major == 0 then Triple(0, v.minor + 1, 0) else Triple(v.major + 1, 0, 0)
  }

  /** From the required version, or relaxed before 1.0 from its minor release, up to the next breaking release. */
  ghost predicate Suits(required: Semver, relaxed: bool, v: Triple) {
    && AtMost(if relaxed && required.major == 0 then Triple(0, required.minor, 0) else TripleOf(required), v)
    && !AtMost(NextBreaking(required), v)
  }

  lemma CompatibleIsInterval(required: Semver, available: Semver, relaxed: bool)
    ensures Compatible(required, available, relaxed) <==> Suits(required, relaxed, TripleOf(available))
  {
  }

  datatype Range = Range(min: Option<Semver>, max: Option<Semver>, minInclusive: bool, maxInclusive: bool, matchAll: bool)

  predicate Matches(r: Range, v: Semver) {
    r.matchAll || (
      && (r.min.Some? ==> if r.minInclusive then Compare(v, r.min.value) >= 0 else Compare(v, r.min.value) > 0)
      && (r.max.Some? ==> if r.maxInclusive then Compare(v, r.max.value) <= 0 else Compare(v, r.max.value) < 0))
  }

  /** Not below the lower bound and not above the upper one, each with or without the bound itself. */
  ghost predicate Between(r: Range, v: Triple) {
    && (r.min.Some? ==> if r.minInclusive then AtMost(TripleOf(r.min.value), v) else !AtMost(v, TripleOf(r.min.value)))
    && (r.max.Some? ==> if r.maxInclusive then AtMost(v, TripleOf(r.max.value)) else !AtMost(TripleOf(r.max.value), v))
  }

  lemma MatchesIsBetween(r: Range, v: Semver)
    ensures Matches(r, v) <==> r.matchAll || Between(r, TripleOf(v))
  {
  }

  /** Matching is convex: whatever lies between two matching versions matches. */
  lemma MatchesBetween(r: Range, a: Semver, v: Semver, b: Semver)
    requires Matches(r, a) && Matches(r, b) && Compare(a, v) <= 0 && Compare(v, b) <= 0
    ensures Matches(r, v)
  {
  }
}
