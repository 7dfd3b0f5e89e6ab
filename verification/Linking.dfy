// Matching an import name against the linker's definitions.

module Linking {
  import opened Words
  import opened Wrappers
  import opened Strings
  import opened Semvers

  /** What a definition holds does not matter for matching. */
  datatype Definition = Definition(id: nat)

  datatype Linker = Linker(definitions: map<string, Definition>, relaxed: bool)

  // ----- names -----

  /** A name cut at its last "@"; without one there is no version. */
  function SplitVersion(name: string): (r: (string, Option<string>))
    ensures name == r.0 + if r.1.Some? then "@" + r.1.value else ""
    ensures r.1.Some? ==> '@' !in r.1.value
    ensures r.1.None? ==> '@' !in name
  {
    var i := LastIndex(name, '@');
    if i == -1 then (name, None) else (name[..i], Some(name[i + 1..]))
  }

  lemma SplitVersionIs(base: string, version: string)
    requires '@' !in version
    ensures SplitVersion(base + "@" + version) == (base, Some(version))
  {
    hide LastIndex;
    LastIndexIs(base, version, '@');
    var name := base + "@" + version;
    assert name[..|base|] == base && name[|base| + 1..] == version;
  }

  /** Namespace and name, cut at the last "/". */
  function SplitSlash(name: string): (r: Option<(string, string)>)
    ensures r.Some? ==> name == r.value.0 + "/" + r.value.1 && '/' !in r.value.1
    ensures r.None? <==> '/' !in name
  {
    var i := LastIndex(name, '/');
    if i == -1 then None else Some((name[..i], name[i + 1..]))
  }

  lemma SplitSlashIs(namespace: string, name: string)
    requires '/' !in name
    ensures SplitSlash(namespace + "/" + name) == Some((namespace, name))
  {
    hide LastIndex;
    LastIndexIs(namespace, name, '/');
    var full := namespace + "/" + name;
    assert full[..|namespace|] == namespace && full[|namespace| + 1..] == name;
  }

  // ----- searching for the best version -----

  /** What a versioned import asks for. */
  datatype Want =
    | AnInstance(namespace: string, base: string, required: Semver)
    | AFunc(baseNamespace: string, name: string, required: Semver)
    | ADependency(dep: string, range: Range)

  /** The version of a key of the wanted base name, whether compatible or not. */
  function VersionOf(want: Want, key: string): Option<Semver> {
    match want
    case AnInstance(namespace, base, _) =>
      var cut := SplitSlash(key);
      if cut.None? || cut.value.0 != namespace then None else Versioned(cut.value.1, base)
    case AFunc(baseNamespace, name, _) =>
      var cut := SplitSlash(key);
      if cut.None? || cut.value.1 != name then None else Versioned(cut.value.0, baseNamespace)
    case ADependency(dep, _) => Versioned(key, dep)
  }

  /** The version of a name with the given base. */
  function Versioned(name: string, base: string): Option<Semver> {
    var cut := SplitVersion(name);
    if cut.0 != base || cut.1.None? then None else ParseSemver(cut.1.value)
  }

  predicate Accepts(want: Want, v: Semver, relaxed: bool) {
    match want
    case AnInstance(_, _, required) => Compatible(required, v, relaxed)
    case AFunc(_, _, required) => Compatible(required, v, relaxed)
    case ADependency(_, range) => Matches(range, v)
  }

  /** The key names a definition that satisfies the import. */
  predicate Candidate(l: Linker, want: Want, key: string) {
    key in l.definitions && VersionOf(want, key).Some? && Accepts(want, VersionOf(want, key).value, l.relaxed)
  }

  /** The key under which a version of what is wanted is defined. */
  function KeyFor(want: Want, version: string): string {
    match want
    case AnInstance(namespace, base, _) => namespace + "/" + (base + "@" + version)
    case AFunc(baseNamespace, name, _) => baseNamespace + "@" + version + "/" + name
    case ADependency(dep, _) => dep + "@" + version
  }

  /** The cuts that take the key apart fall where it was put together. */
  ghost predicate CutsClean(want: Want, version: string) {
    && '@' !in version
    && (want.AnInstance? ==> '/' !in want.base && '/' !in version)
    && (want.AFunc? ==> '/' !in want.name)
  }

  /** The versions an import accepts, as an interval of the order. */
  ghost predicate InRange(want: Want, v: Triple, relaxed: bool) {
    match want
    case AnInstance(_, _, required) => Suits(required, relaxed, v)
    case AFunc(_, _, required) => Suits(required, relaxed, v)
    case ADependency(_, range) => range.matchAll || Between(range, v)
  }

  lemma AcceptsIs(want: Want, v: Semver, relaxed: bool)
    ensures Accepts(want, v, relaxed) <==> InRange(want, TripleOf(v), relaxed)
  {
    hide Compatible, Matches, Suits, Between;
    match want
    case AnInstance(_, _, required) => CompatibleIsInterval(required, v, relaxed);
    case AFunc(_, _, required) => CompatibleIsInterval(required, v, relaxed);
    case ADependency(_, range) => MatchesIsBetween(range, v);
  }

  ghost predicate IsVersion(l: Linker, want: Want, key: string, version: string) {
    && key == KeyFor(want, version) && CutsClean(want, version)
    && ParseSemver(version).Some? && InRange(want, TripleOf(ParseSemver(version).value), l.relaxed)
  }

  /** A definition satisfies an import exactly if its key is that of an acceptable version. */
  lemma CandidateIff(l: Linker, want: Want, key: string)
    ensures Candidate(l, want, key) <==> key in l.definitions && exists version :: IsVersion(l, want, key, version)
  {
    hide VersionOf, ParseSemver, Accepts, InRange, KeyFor, CutsClean;
    if Candidate(l, want, key) {
      AcceptsIs(want, VersionOf(want, key).value, l.relaxed);
      var version := VersionHasKey(want, key);
      assert IsVersion(l, want, key, version);
    }
    if version :| IsVersion(l, want, key, version) {
      AcceptsIs(want, ParseSemver(version).value, l.relaxed);
      KeyHasVersion(want, version);
    }
  }

  lemma KeyHasVersion(want: Want, version: string)
    requires CutsClean(want, version)
    ensures VersionOf(want, KeyFor(want, version)) == ParseSemver(version)
  {
    hide SplitSlash, SplitVersion, ParseSemver;
    match want
    case AnInstance(namespace, base, _) =>
      SplitSlashIs(namespace, base + "@" + version);
      SplitVersionIs(base, version);
    case AFunc(baseNamespace, name, _) =>
      SplitSlashIs(baseNamespace + "@" + version, name);
      SplitVersionIs(baseNamespace, version);
    case ADependency(dep, _) => SplitVersionIs(dep, version);
  }

  lemma VersionHasKey(want: Want, key: string) returns (version: string)
    requires VersionOf(want, key).Some?
    ensures key == KeyFor(want, version) && CutsClean(want, version) && VersionOf(want, key) == ParseSemver(version)
  {
    hide ParseSemver, SplitSlash, SplitVersion;
    match want
    case AnInstance(namespace, base, _) => version := SplitVersion(SplitSlash(key).value.1).1.value;
    case AFunc(baseNamespace, name, _) => version := SplitVersion(SplitSlash(key).value.0).1.value;
    case ADependency(dep, _) => version := SplitVersion(key).1.value;
  }

  /** No candidate has a higher version. */
  ghost predicate IsBest(l: Linker, want: Want, key: string) {
    Candidate(l, want, key) &&
    forall k :: Candidate(l, want, k) ==> AtMost(TripleOf(VersionOf(want, k).value), TripleOf(VersionOf(want, key).value))
  }

  /** An order in which the definitions may be visited: every key once. */
  ghost predicate Lists(l: Linker, order: seq<string>) {
    && (forall k :: k in order <==> k in l.definitions)
    && (forall i, j :: 0 <= i < j < |order| ==> order[i] != order[j])
  }

  ghost predicate FirstBest(l: Linker, want: Want, order: seq<string>, i: int) {
    0 <= i < |order| && IsBest(l, want, order[i]) && forall j :: 0 <= j < i ==> !IsBest(l, want, order[j])
  }

  /** The definition of the first best key in the order of the visit. */
  ghost function Found(l: Linker, want: Want, order: seq<string>): Option<Definition> {
    if exists i :: FirstBest(l, want, order, i) then
      var i :| FirstBest(l, want, order, i);
      Some(l.definitions[order[i]])
    else None
  }

  lemma FoundIs(l: Linker, want: Want, order: seq<string>, i: int)
    requires FirstBest(l, want, order, i)
    ensures Found(l, want, order) == Some(l.definitions[order[i]])
  {
    hide VersionOf, Accepts, AtMost;
    var k :| FirstBest(l, want, order, k) && Found(l, want, order) == Some(l.definitions[order[k]]);
    OneFirst(l, want, order, i, k);
  }

  lemma OneFirst(l: Linker, want: Want, order: seq<string>, i: int, k: int)
    requires FirstBest(l, want, order, i) && FirstBest(l, want, order, k)
    ensures i == k
  {
    hide IsBest;
  }

  /** The key kept after the first n visits: of the highest version so far, and the first of that version. */
  ghost predicate Kept(l: Linker, want: Want, order: seq<string>, n: nat, b: int)
    requires Lists(l, order) && n <= |order|
  {
    && 0 <= b < n && Candidate(l, want, order[b])
    && (forall j :: 0 <= j < n && Candidate(l, want, order[j]) ==> Lower(want, order[j], order[b]))
    && (forall j :: 0 <= j < b && Candidate(l, want, order[j]) ==> !Lower(want, order[b], order[j]))
  }

  /** Neither version missing, the first at most the second. */
  ghost predicate Lower(want: Want, a: string, b: string) {
    && VersionOf(want, a).Some? && VersionOf(want, b).Some?
    && AtMost(TripleOf(VersionOf(want, a).value), TripleOf(VersionOf(want, b).value))
  }

  lemma LowerIsOrder(want: Want, a: string, b: string, c: string)
    requires VersionOf(want, a).Some? && VersionOf(want, b).Some? && VersionOf(want, c).Some?
    ensures Lower(want, a, a)
    ensures Lower(want, a, b) || Lower(want, b, a)
    ensures Lower(want, a, b) && Lower(want, b, c) ==> Lower(want, a, c)
    ensures Greater(VersionOf(want, a).value, VersionOf(want, b).value) <==> !Lower(want, a, b)
  {
    hide VersionOf, Greater;
    CompareIsAtMost(VersionOf(want, a).value, VersionOf(want, b).value);
  }

  lemma KeptNext(l: Linker, want: Want, order: seq<string>, n: nat, b: int)
    requires Lists(l, order) && n < |order| && Kept(l, want, order, n, b)
    ensures !Candidate(l, want, order[n]) ==> Kept(l, want, order, n + 1, b)
    ensures Candidate(l, want, order[n]) ==>
      Kept(l, want, order, n + 1, if Greater(VersionOf(want, order[n]).value, VersionOf(want, order[b]).value) then n else b)
  {
    hide VersionOf, Accepts, Lower, Greater;
    if Candidate(l, want, order[n]) {
      forall j | 0 <= j <= n && Candidate(l, want, order[j])
        ensures !Lower(want, order[n], order[b]) ==> Lower(want, order[j], order[n])
        ensures !Lower(want, order[n], order[b]) && j < n ==> !Lower(want, order[n], order[j])
      {
        LowerIsOrder(want, order[j], order[b], order[n]);
        LowerIsOrder(want, order[n], order[b], order[j]);
        LowerIsOrder(want, order[n], order[j], order[b]);
      }
      LowerIsOrder(want, order[n], order[b], order[n]);
    }
  }

  lemma KeptIsFound(l: Linker, want: Want, order: seq<string>, b: int)
    requires Lists(l, order) && Kept(l, want, order, |order|, b)
    ensures Found(l, want, order) == Some(l.definitions[order[b]])
  {
    hide VersionOf, Accepts, AtMost, Found;
    forall k | Candidate(l, want, k)
      ensures Lower(want, k, order[b])
    {
      assert k in order;
    }
    assert IsBest(l, want, order[b]);
    assert FirstBest(l, want, order, b);
    FoundIs(l, want, order, b);
  }

  /** Visits the definitions in the given order and keeps the highest compatible version. */
  method FindBest(l: Linker, want: Want, order: seq<string>) returns (best: Option<Definition>)
    requires Lists(l, order)
    ensures best == Found(l, want, order)
    ensures best.None? <==> forall k :: k in l.definitions ==> !Candidate(l, want, k)
  {
    hide VersionOf, Accepts, Found, IsBest, Greater;
    best := None;
    var bestVersion: Option<Semver> := None;
    ghost var b := 0;
    for n := 0 to |order|
      invariant best.Some? <==> bestVersion.Some?
      invariant best.None? ==> forall j :: 0 <= j < n ==> !Candidate(l, want, order[j])
      invariant best.Some? ==>
        Kept(l, want, order, n, b) && best.value == l.definitions[order[b]] && bestVersion == VersionOf(want, order[b])
    {
      var key := order[n];
      var version := VersionOf(want, key);
      if best.Some? {
        KeptNext(l, want, order, n, b);
      }
      if version.Some? && Accepts(want, version.value, l.relaxed) {
        LowerIsOrder(want, key, key, key);
        if bestVersion.None? || Greater(version.value, bestVersion.value) {
          best, bestVersion, b := Some(l.definitions[key]), version, n;
        }
      }
    }
    if best.Some? {
      KeptIsFound(l, want, order, b);
    } else {
      NothingFound(l, want, order);
    }
  }

  lemma NothingFound(l: Linker, want: Want, order: seq<string>)
    ensures (forall j :: 0 <= j < |order| ==> !Candidate(l, want, order[j])) ==> Found(l, want, order) == None
  {
  }

  // ----- when the order of the visit matters -----

  lemma {:induction false} SomeIsFirst(l: Linker, want: Want, order: seq<string>, i: int)
    requires 0 <= i < |order| && IsBest(l, want, order[i])
    ensures exists j :: FirstBest(l, want, order, j)
    decreases i
  {
    hide IsBest;
    if j :| 0 <= j < i && IsBest(l, want, order[j]) {
      SomeIsFirst(l, want, order, j);
    } else {
      assert FirstBest(l, want, order, i);
    }
  }

  /** The keys in some order, with the given one first. */
  lemma OrderFrom(keys: set<string>, a: string) returns (order: seq<string>)
    requires a in keys
    ensures order != [] && order[0] == a && (forall k :: k in order <==> k in keys)
    ensures forall i, j :: 0 <= i < j < |order| ==> order[i] != order[j]
    decreases keys
  {
    if keys == {a} {
      order := [a];
    } else {
      assert keys - {a} != {};
      var b :| b in keys - {a};
      var rest := OrderFrom(keys - {a}, b);
      order := [a] + rest;
    }
  }

  /** Every order of the visit finds the same definition exactly when all best keys hold the same definition. */
  lemma SameForEveryOrder(l: Linker, want: Want)
    ensures (forall o, o' :: Lists(l, o) && Lists(l, o') ==> Found(l, want, o) == Found(l, want, o'))
       <==> (forall a, b :: IsBest(l, want, a) && IsBest(l, want, b) ==> l.definitions[a] == l.definitions[b])
  {
    hide VersionOf, Accepts, AtMost, Found;
    forall a, b | IsBest(l, want, a) && IsBest(l, want, b) && l.definitions[a] != l.definitions[b]
      ensures exists o, o' :: Lists(l, o) && Lists(l, o') && Found(l, want, o) != Found(l, want, o')
    {
      StartsWithBest(l, want, a);
      StartsWithBest(l, want, b);
    }
    if forall a, b :: IsBest(l, want, a) && IsBest(l, want, b) ==> l.definitions[a] == l.definitions[b] {
      forall o, o' | Lists(l, o) && Lists(l, o')
        ensures Found(l, want, o) == Found(l, want, o')
      {
        BestFound(l, want, o, o');
      }
    }
  }

  lemma StartsWithBest(l: Linker, want: Want, a: string)
    requires IsBest(l, want, a)
    ensures exists o :: Lists(l, o) && Found(l, want, o) == Some(l.definitions[a])
  {
    var o := OrderFrom(l.definitions.Keys, a);
    assert Lists(l, o) && FirstBest(l, want, o, 0);
    FoundIs(l, want, o, 0);
  }

  lemma BestFound(l: Linker, want: Want, o: seq<string>, o': seq<string>)
    requires Lists(l, o) && Lists(l, o')
    requires forall a, b :: IsBest(l, want, a) && IsBest(l, want, b) ==> l.definitions[a] == l.definitions[b]
    ensures Found(l, want, o) == Found(l, want, o')
  {
    hide Found;
    if k :| IsBest(l, want, k) {
      FoundSome(l, want, o, k);
      FoundSome(l, want, o', k);
    } else {
      assert Found(l, want, o) == None by { FoundNone(l, want, o); }
      FoundNone(l, want, o');
    }
  }

  lemma FoundSome(l: Linker, want: Want, o: seq<string>, k: string)
    requires Lists(l, o) && IsBest(l, want, k)
    ensures exists i :: FirstBest(l, want, o, i) && Found(l, want, o) == Some(l.definitions[o[i]])
  {
    hide Found, IsBest;
    assert Candidate(l, want, k) by { BestIsCandidate(l, want, k); }
    assert k in o;
    var i :| 0 <= i < |o| && o[i] == k;
    SomeIsFirst(l, want, o, i);
    var j :| FirstBest(l, want, o, j);
    FoundIs(l, want, o, j);
  }

  lemma BestIsCandidate(l: Linker, want: Want, k: string)
    requires IsBest(l, want, k)
    ensures Candidate(l, want, k)
  {
  }

  lemma FoundNone(l: Linker, want: Want, o: seq<string>)
    requires forall k :: !IsBest(l, want, k)
    ensures Found(l, want, o) == None
  {
  }

  /** When no two candidates have the same version, there is only one best. */
  lemma BestIsUnique(l: Linker, want: Want, a: string, b: string)
    requires IsBest(l, want, a) && IsBest(l, want, b)
    ensures VersionOf(want, a) == VersionOf(want, b)
    ensures (forall k, k' :: Candidate(l, want, k) && Candidate(l, want, k') && VersionOf(want, k) == VersionOf(want, k') ==> k == k') ==> a == b
  {
    hide VersionOf, Accepts;
  }

  /** Another candidate of the best version is best too. */
  lemma SameVersionIsBestToo(l: Linker, want: Want, a: string, b: string)
    requires IsBest(l, want, a) && Candidate(l, want, b)
    ensures IsBest(l, want, b) <==> VersionOf(want, b) == VersionOf(want, a)
  {
    hide VersionOf, Accepts;
  }

  /** Two spellings of one version: leading zeros give a second key with the same version. */
  lemma LeadingZeroSameVersion(major: string, rest: string)
    requires major != [] && AllDigits(major) && '.' !in major
    ensures ParseSemver("0" + major + "." + rest) == ParseSemver(major + "." + rest)
  {
    hide ParseUint, Split;
    LeadingZero(major);
    SplitFirst(major, rest, '.');
    SplitFirst("0" + major, rest, '.');
    SameNumber(major);
  }

  lemma SameNumber(digits: string)
    requires digits != [] && AllDigits(digits)
    ensures ParseUint("0" + digits, TWO_32) == ParseUint(digits, TWO_32)
  {
    LeadingZero(digits);
  }

  // ----- from an import name to a search -----

  datatype Search = Exactly(key: string) | BestOf(want: Want) | NoMatch

  function StripPrefix(s: string, prefix: string): Option<string> {
    if |prefix| <= |s| && s[..|prefix|] == prefix then Some(s[|prefix|..]) else None
  }

  /** Names that carry no prefix: a version in the namespace, else one in the name, else the name itself. */
  function LegacySearch(importName: string): Search {
    var cut := SplitSlash(importName);
    if cut.None? then NoMatch
    else
      var (namespace, name) := cut.value;
      var (baseNamespace, inNamespace) := SplitVersion(namespace);
      var (base, inName) := SplitVersion(name);
      if inNamespace.Some? then
        var v := ParseSemver(inNamespace.value);
        if v.Some? then BestOf(AFunc(baseNamespace, name, v.value)) else NoMatch
      else if inName.Some? then
        var v := ParseSemver(inName.value);
        if v.Some? then BestOf(AnInstance(namespace, base, v.value)) else NoMatch
      else Exactly(importName)
  }

  /** An interface name is taken apart and put together again, its version in the usual form. */
  function InterfaceSearch(importName: string): Search {
    var cut := SplitSlash(importName);
    if cut.None? then LegacySearch(importName)
    else
      var (namespace, rest) := cut.value;
      var (name, version) := SplitVersion(rest);
      if version.None? then LegacySearch(namespace + "/" + name)
      else
        var v := ParseSemver(version.value);
        if v.None? then LegacySearch(importName)
        else LegacySearch(namespace + "/" + name + "@" + Format(v.value))
  }

  /** "locked-dep=name:version" names one key; one that cannot be read is matched like any other name. */
  function LockedSearch(importName: string, value: string): Search {
    var i := LastIndex(value, ':');
    if i == -1 then LegacySearch(importName)
    else
      var v := ParseSemver(value[i + 1..]);
      if v.None? then LegacySearch(importName) else Exactly(value[..i] + "@" + Format(v.value))
  }

  /** "unlocked-dep=name:range". */
  function UnlockedSearch(importName: string, value: string, parseRange: string -> Option<Range>): Search {
    var i := Index(value, ':');
    if i == -1 then LegacySearch(importName)
    else
      var range := parseRange(value[i + 1..]);
      if range.None? then NoMatch else BestOf(ADependency(value[..i], range.value))
  }

  function SearchFor(importName: string, parseRange: string -> Option<Range>): Search {
    if StripPrefix(importName, "locked-dep=").Some? then LockedSearch(importName, StripPrefix(importName, "locked-dep=").value)
    else if StripPrefix(importName, "unlocked-dep=").Some? then
      UnlockedSearch(importName, StripPrefix(importName, "unlocked-dep=").value, parseRange)
    else if StripPrefix(importName, "url=").Some? || StripPrefix(importName, "integrity=").Some? then NoMatch
    else if '/' in importName then InterfaceSearch(importName)
    else Exactly(importName)
  }

  ghost function Answer(l: Linker, search: Search, order: seq<string>): Option<Definition> {
    match search
    case Exactly(key) => if key in l.definitions then Some(l.definitions[key]) else None
    case BestOf(want) => Found(l, want, order)
    case NoMatch => None
  }

  /** A definition for the import, or None for an error. */
  method MatchImport(l: Linker, importName: string, parseRange: string -> Option<Range>, order: seq<string>) returns (r: Option<Definition>)
    requires Lists(l, order)
    ensures r == Answer(l, SearchFor(importName, parseRange), order)
  {
    match SearchFor(importName, parseRange)
    case Exactly(key) => r := if key in l.definitions then Some(l.definitions[key]) else None;
    case BestOf(want) => r := FindBest(l, want, order);
    case NoMatch => r := None;
  }

  // ----- the search of each form of name -----

  predicate Prefixed(name: string) {
    || StripPrefix(name, "locked-dep=").Some? || StripPrefix(name, "unlocked-dep=").Some?
    || StripPrefix(name, "url=").Some? || StripPrefix(name, "integrity=").Some?
  }

  /** "namespace/name@version" asks for its version by value: every spelling of it leads to the same search. */
  lemma InterfaceByValue(namespace: string, name: string, version: string, v: Semver, parseRange: string -> Option<Range>)
    requires '@' !in namespace && '/' !in name && '@' !in version && '/' !in version && ParseSemver(version) == Some(v)
    requires !Prefixed(namespace + "/" + name + "@" + version)
    ensures SearchFor(namespace + "/" + name + "@" + version, parseRange) == BestOf(AnInstance(namespace, name, v))
  {
    hide SplitSlash, SplitVersion, ParseSemver, Format, LastIndex, StripPrefix;
    FormatParses(v);
    TakenApart(namespace, name, version);
    TakenApart(namespace, name, Format(v));
    NoVersion(namespace);
    assert (namespace + "/" + name + "@" + version)[|namespace|] == '/';
  }

  /** "namespace@version/name" asks for a function of a namespace that is versioned. */
  lemma FuncByValue(namespace: string, version: string, name: string, v: Semver, parseRange: string -> Option<Range>)
    requires '@' !in version && '/' !in name && '@' !in name && ParseSemver(version) == Some(v)
    requires !Prefixed(namespace + "@" + version + "/" + name)
    ensures SearchFor(namespace + "@" + version + "/" + name, parseRange) == BestOf(AFunc(namespace, name, v))
  {
    hide SplitSlash, SplitVersion, ParseSemver, LastIndex, StripPrefix;
    SplitSlashIs(namespace + "@" + version, name);
    SplitVersionIs(namespace, version);
    NoVersion(name);
    assert (namespace + "@" + version + "/" + name)[|namespace + "@" + version|] == '/';
  }

  /** "unlocked-dep=name:range" asks for the highest version in the range. */
  lemma UnlockedByRange(dep: string, text: string, parseRange: string -> Option<Range>)
    requires ':' !in dep
    ensures SearchFor("unlocked-dep=" + (dep + ":" + text), parseRange)
         == if parseRange(text).Some? then BestOf(ADependency(dep, parseRange(text).value)) else NoMatch
  {
    hide StripPrefix, Index;
    var value := dep + ":" + text;
    assert value[|dep|] == ':' && forall j :: 0 <= j < |dep| ==> value[j] == dep[j];
    assert value[..|dep|] == dep && value[|dep| + 1..] == text;
    Stripped("unlocked-dep=", value);
    OtherPrefix("unlocked-dep=" + value, "locked-dep=");
  }

  /** "locked-dep=name:version" names one key, whatever the spelling of the version. */
  lemma LockedByValue(dep: string, version: string, v: Semver, parseRange: string -> Option<Range>)
    requires ':' !in version && ParseSemver(version) == Some(v)
    ensures SearchFor("locked-dep=" + (dep + ":" + version), parseRange) == Exactly(dep + "@" + Format(v))
  {
    hide StripPrefix, LastIndex, ParseSemver, Format;
    var value := dep + ":" + version;
    assert value[..|dep|] == dep && value[|dep| + 1..] == version;
    LastIndexIs(dep, version, ':');
    Stripped("locked-dep=", value);
  }

  /** Names of these two forms match nothing. */
  lemma LocationsRefused(value: string, parseRange: string -> Option<Range>)
    ensures SearchFor("url=" + value, parseRange) == NoMatch && SearchFor("integrity=" + value, parseRange) == NoMatch
  {
    hide StripPrefix;
    Stripped("url=", value);
    Stripped("integrity=", value);
    OtherPrefix("url=" + value, "locked-dep=");
    OtherPrefix("integrity=" + value, "locked-dep=");
    OtherPrefix("integrity=" + value, "unlocked-dep=");
    NotUnlocked(value);
  }

  lemma NotUnlocked(value: string)
    ensures StripPrefix("url=" + value, "unlocked-dep=") == None
  {
    var name, prefix := "url=" + value, "unlocked-dep=";
    assert name[1] == 'r' && prefix[1] == 'n';
    assert |name| >= |prefix| ==> name[..|prefix|][1] != prefix[1];
  }

  /** A name without a version names its own key: one without a slash always, one with a slash if neither side has an "@". */
  lemma UnversionedExactly(name: string, parseRange: string -> Option<Range>)
    requires !Prefixed(name) && ('/' in name ==> '@' !in name)
    ensures SearchFor(name, parseRange) == Exactly(name)
  {
    hide StripPrefix, LastIndex;
    if '/' in name {
      var (namespace, rest) := SplitSlash(name).value;
      NoVersion(namespace);
      NoVersion(rest);
    }
  }

  /** A version that cannot be read matches nothing, in the namespace as in the name. */
  lemma UnreadableRefused(namespace: string, name: string, version: string, parseRange: string -> Option<Range>)
    requires '/' !in name && '@' !in name && '@' !in namespace && '@' !in version && '/' !in version && ParseSemver(version) == None
    ensures !Prefixed(namespace + "/" + name + "@" + version) ==> SearchFor(namespace + "/" + name + "@" + version, parseRange) == NoMatch
    ensures !Prefixed(namespace + "@" + version + "/" + name) ==> SearchFor(namespace + "@" + version + "/" + name, parseRange) == NoMatch
  {
    hide SplitSlash, SplitVersion, ParseSemver, Format, LastIndex, StripPrefix;
    TakenApart(namespace, name, version);
    NoVersion(namespace);
    NoVersion(name);
    SplitSlashIs(namespace + "@" + version, name);
    SplitVersionIs(namespace, version);
    assert (namespace + "/" + name + "@" + version)[|namespace|] == '/';
    assert (namespace + "@" + version + "/" + name)[|namespace + "@" + version|] == '/';
  }

  lemma OtherPrefix(name: string, prefix: string)
    requires name != [] && prefix != [] && name[0] != prefix[0]
    ensures StripPrefix(name, prefix) == None
  {
  }

  lemma Stripped(prefix: string, value: string)
    ensures StripPrefix(prefix + value, prefix) == Some(value)
  {
  }

  lemma NoVersion(name: string)
    requires '@' !in name
    ensures SplitVersion(name) == (name, None)
  {
  }

  lemma TakenApart(namespace: string, name: string, version: string)
    requires '/' !in name && '@' !in version && '/' !in version
    ensures SplitSlash(namespace + "/" + name + "@" + version) == Some((namespace, name + "@" + version))
    ensures SplitVersion(name + "@" + version) == (name, Some(version))
  {
    hide SplitSlash, SplitVersion;
    SplitSlashIs(namespace, name + "@" + version);
    assert namespace + "/" + name + "@" + version == namespace + "/" + (name + "@" + version);
    SplitVersionIs(name, version);
  }

  /** A definition under the import's own name satisfies the import: matching never misses an exact version. */
  lemma OwnNameIsCandidate(l: Linker, namespace: string, name: string, version: string, v: Semver)
    requires '/' !in name && '@' !in version && '/' !in version && ParseSemver(version) == Some(v)
    requires namespace + "/" + name + "@" + version in l.definitions
    ensures Candidate(l, AnInstance(namespace, name, v), namespace + "/" + name + "@" + version)
    ensures VersionOf(AnInstance(namespace, name, v), namespace + "/" + name + "@" + version) == Some(v)
  {
    hide SplitSlash, SplitVersion, ParseSemver;
    TakenApart(namespace, name, version);
  }

  // ----- two spellings of one version -----

  const SPELLINGS := Linker(map["a:b/c@1.0.0" := Definition(0), "a:b/c@01.0.0" := Definition(1)], false)

  lemma OneDigit(n: nat)
    requires n < 10
    ensures Decimal(n) == [Digit(n)]
  {
  }

  lemma SpellingsParse()
    ensures ParseSemver("1.0.0") == Some(Semver(1, 0, 0)) && ParseSemver("01.0.0") == Some(Semver(1, 0, 0))
  {
    hide Split, Decimal, ParseUint, ParseSemver;
    FormatParses(Semver(1, 0, 0));
    assert Format(Semver(1, 0, 0)) == "1.0.0" by {
      OneDigit(1);
      OneDigit(0);
    }
    LeadingZeroSameVersion("1", "0.0");
    assert "0" + "1" + "." + "0.0" == "01.0.0" && "1" + "." + "0.0" == "1.0.0";
  }

  lemma SpellingsBest()
    ensures IsBest(SPELLINGS, AnInstance("a:b", "c", Semver(1, 0, 0)), "a:b/c@1.0.0")
    ensures IsBest(SPELLINGS, AnInstance("a:b", "c", Semver(1, 0, 0)), "a:b/c@01.0.0")
  {
    hide VersionOf, Accepts, ParseSemver;
    SpellingsParse();
    var want := AnInstance("a:b", "c", Semver(1, 0, 0));
    assert "a:b" + "/" + "c" + "@" + "1.0.0" == "a:b/c@1.0.0";
    assert "a:b" + "/" + "c" + "@" + "01.0.0" == "a:b/c@01.0.0";
    OwnNameIsCandidate(SPELLINGS, "a:b", "c", "1.0.0", Semver(1, 0, 0));
    OwnNameIsCandidate(SPELLINGS, "a:b", "c", "01.0.0", Semver(1, 0, 0));
    forall k | Candidate(SPELLINGS, want, k)
      ensures VersionOf(want, k) == Some(Semver(1, 0, 0))
    {
      assert k == "a:b/c@1.0.0" || k == "a:b/c@01.0.0";
    }
  }

  /** One import, one linker, two orders of the visit, two definitions. */
  method SpellingsDisagree(parseRange: string -> Option<Range>) returns (x: Option<Definition>, y: Option<Definition>)
    ensures Lists(SPELLINGS, ["a:b/c@1.0.0", "a:b/c@01.0.0"]) && Lists(SPELLINGS, ["a:b/c@01.0.0", "a:b/c@1.0.0"])
    ensures x == Some(Definition(0)) && y == Some(Definition(1))
  {
    hide IsBest, Found, SearchFor, ParseSemver;
    var a, b := "a:b/c@1.0.0", "a:b/c@01.0.0";
    var want := AnInstance("a:b", "c", Semver(1, 0, 0));
    assert a != b by { assert |a| != |b|; }
    SpellingsBest();
    FoundIs(SPELLINGS, want, [a, b], 0);
    FoundIs(SPELLINGS, want, [b, a], 0);
    assert SearchFor(a, parseRange) == BestOf(want) by {
      SpellingsParse();
      assert "a:b" + "/" + "c" + "@" + "1.0.0" == a;
      assert a[0] == 'a';
      InterfaceByValue("a:b", "c", "1.0.0", Semver(1, 0, 0), parseRange);
    }
    x := MatchImport(SPELLINGS, a, parseRange, [a, b]);
    y := MatchImport(SPELLINGS, a, parseRange, [b, a]);
  }

  // ----- the highest version wins -----

  const TWO_VERSIONS := Linker(map["a:b/c@1.0.0" := Definition(0), "a:b/c@1.2.0" := Definition(1)], false)

  lemma VersionsParse()
    ensures ParseSemver("1.0.0") == Some(Semver(1, 0, 0)) && ParseSemver("1.2.0") == Some(Semver(1, 2, 0))
  {
    hide Split, Decimal, ParseUint, ParseSemver;
    FormatParses(Semver(1, 0, 0));
    FormatParses(Semver(1, 2, 0));
    OneDigit(0);
    OneDigit(1);
    OneDigit(2);
    assert Format(Semver(1, 0, 0)) == "1.0.0" && Format(Semver(1, 2, 0)) == "1.2.0";
  }

  lemma HigherIsBest()
    ensures IsBest(TWO_VERSIONS, AnInstance("a:b", "c", Semver(1, 0, 0)), "a:b/c@1.2.0")
    ensures !IsBest(TWO_VERSIONS, AnInstance("a:b", "c", Semver(1, 0, 0)), "a:b/c@1.0.0")
  {
    hide VersionOf, ParseSemver;
    VersionsParse();
    var want := AnInstance("a:b", "c", Semver(1, 0, 0));
    assert KeyFor(want, "1.0.0") == "a:b/c@1.0.0" && KeyFor(want, "1.2.0") == "a:b/c@1.2.0";
    KeyHasVersion(want, "1.0.0");
    KeyHasVersion(want, "1.2.0");
    assert Candidate(TWO_VERSIONS, want, "a:b/c@1.0.0") && Candidate(TWO_VERSIONS, want, "a:b/c@1.2.0");
    forall k | Candidate(TWO_VERSIONS, want, k) ensures k == "a:b/c@1.0.0" || k == "a:b/c@1.2.0" {
    }
  }

  /** An import of 1.0.0 is given 1.2.0 when both are there, in either order of the visit. */
  method HighestWins(parseRange: string -> Option<Range>, order: seq<string>) returns (r: Option<Definition>)
    requires Lists(TWO_VERSIONS, order)
    ensures r == Some(Definition(1))
  {
    hide IsBest, Found, SearchFor, ParseSemver, Candidate, VersionOf;
    var want := AnInstance("a:b", "c", Semver(1, 0, 0));
    HigherIsBest();
    assert SearchFor("a:b/c@1.0.0", parseRange) == BestOf(want) by {
      VersionsParse();
      assert "a:b" + "/" + "c" + "@" + "1.0.0" == "a:b/c@1.0.0";
      assert "a:b/c@1.0.0"[0] == 'a';
      InterfaceByValue("a:b", "c", "1.0.0", Semver(1, 0, 0), parseRange);
    }
    r := MatchImport(TWO_VERSIONS, "a:b/c@1.0.0", parseRange, order);
    FoundSome(TWO_VERSIONS, want, order, "a:b/c@1.2.0");
    OnlyHigher(want, order);
  }

  lemma OnlyHigher(want: Want, order: seq<string>)
    requires want == AnInstance("a:b", "c", Semver(1, 0, 0)) && Lists(TWO_VERSIONS, order)
    ensures forall i :: FirstBest(TWO_VERSIONS, want, order, i) ==> order[i] in TWO_VERSIONS.definitions && TWO_VERSIONS.definitions[order[i]] == Definition(1)
  {
    hide IsBest;
    HigherIsBest();
    forall i | FirstBest(TWO_VERSIONS, want, order, i)
      ensures order[i] in TWO_VERSIONS.definitions && TWO_VERSIONS.definitions[order[i]] == Definition(1)
    {
      assert order[i] in order;
      assert order[i] == "a:b/c@1.0.0" || order[i] == "a:b/c@1.2.0";
    }
  }
}
