/** Which stored version an alias stands for, and how a package version names its folder.
    Models the version half of internal/content/content-service.go and getSlice of
    api/package-controller.go. */
module Versions {
  import opened Strings
  import opened Semver

  const LATEST := "latest"

  // ---------------------------------------------------------------- package identity

  predicate IsNameChar(c: char)
  {
    'a' <= c <= 'z' || 'A' <= c <= 'Z' || '0' <= c <= '9' || c == '.' || c == '_' || c == '-'
  }

  predicate IsPackageName(name: string)
  {
    name != [] && forall i :: 0 <= i < |name| ==> IsNameChar(name[i])
  }

  /** `validatePackageIdentity` (content-service.go:253-261). */
  predicate IsIdentity(name: string, version: string)
  {
    IsPackageName(name) && IsFullSemver(version)
  }

  function Folder(name: string, version: string): string
  {
    name + "@" + version
  }

  /** `getSlice` (package-controller.go:64-86): the split at the first '@'. */
  function GetSlice(slug: string): (r: Option<(string, string)>)
  {
    var name := Before(slug, '@');
    if name == slug || name == "" || slug[|name| + 1..] == "" then None
    else Some((name, slug[|name| + 1..]))
  }

  lemma NameAvoids(name: string, c: char)
    requires IsPackageName(name) && (c == '/' || c == '@')
    ensures c !in name
  {
  }

  /** The slug of a valid identity reads back as that identity, and whatever reads back was
      written as the slug of what it reads back as. */
  lemma SliceInvertsFolder(name: string, version: string, slug: string)
    ensures IsIdentity(name, version) ==> GetSlice(Folder(name, version)) == Some((name, version))
    ensures GetSlice(slug).Some? ==>
              var (n, v) := GetSlice(slug).value;
              Folder(n, v) == slug && n != "" && v != "" && '@' !in n
  {
    if IsIdentity(name, version) {
      NameAvoids(name, '@');
      ValidAvoids(version, '@');
      SliceOfFolder(name, version);
    }
    if GetSlice(slug).Some? {
      CutAtFirst(slug, '@');
    }
  }

  lemma CutAtFirst(s: string, c: char)
    requires Before(s, c) != s
    ensures s == Before(s, c) + [c] + s[|Before(s, c)| + 1..]
  {
  }

  lemma SliceOfFolder(name: string, version: string)
    requires name != "" && '@' !in name && version != ""
    ensures GetSlice(Folder(name, version)) == Some((name, version))
  {
    BeforeSeparator(name, version, '@');
    assert name + ['@'] + version == Folder(name, version);
    assert Folder(name, version)[|name| + 1..] == version;
  }

  /** No folder of one identity lies inside, or starts, the folder of another: a key with both
      in front belongs to one identity only. Names need no '@' and no '/', versions no '/'. */
  lemma FoldersAreDisjoint(n1: string, v1: string, n2: string, v2: string, key: string)
    requires '@' !in n1 && '/' !in n1 && '/' !in v1
    requires '@' !in n2 && '/' !in n2 && '/' !in v2
    requires Folder(n1, v1) + "/" <= key && Folder(n2, v2) + "/" <= key
    ensures n1 == n2 && v1 == v2
  {
    FolderOfKey(n1, v1, key);
    FolderOfKey(n2, v2, key);
    assert v1 == Folder(n1, v1)[|n1| + 1..] && v2 == Folder(n2, v2)[|n2| + 1..];
  }

  lemma FolderOfKey(name: string, version: string, key: string)
    requires '@' !in name && '/' !in name && '/' !in version
    requires Folder(name, version) + "/" <= key
    ensures Before(key, '/') == Folder(name, version) && Before(Folder(name, version), '@') == name
  {
    var f := Folder(name, version);
    BeforeSeparator(f, key[|f| + 1..], '/');
    assert key == f + ['/'] + key[|f| + 1..];
    BeforeSeparator(name, version, '@');
    assert f == name + ['@'] + version;
  }

  // ---------------------------------------------------------------- matching an alias

  function Minor(v: Version): string
    requires WellFormed(v)
  {
    if |v.numbers| > 1 then v.numbers[1] else "0"
  }

  /** `versionMatches` (content-service.go:90-112). */
  predicate VersionMatches(candidate: string, requested: string): (r: bool)
    ensures r ==> IsValid(candidate)
  {
    if !IsValid(candidate) then false
    else
      var v := Parse(candidate).value;
      if requested == LATEST then v.pre == []
      else if candidate == requested then true
      else if |Split(requested, '.')| >= 3 || v.pre != [] then false
      else if |Split(requested, '.')| == 1 then v.numbers[0] == requested
      else v.numbers[0] + "." + Minor(v) == requested
  }

  function Matching(candidates: seq<string>, requested: string): (r: seq<Ranked>)
  {
    if candidates == [] then []
    else
      var rest := Matching(candidates[1..], requested);
      if VersionMatches(candidates[0], requested) then [RankedOf(candidates[0])] + rest else rest
  }

  lemma {:induction false} MatchingMembers(candidates: seq<string>, requested: string, v: Ranked)
    ensures v in Matching(candidates, requested) <==>
            v.text in candidates && VersionMatches(v.text, requested) && v == RankedOf(v.text)
  {
    if candidates != [] {
      MatchingMembers(candidates[1..], requested, v);
      assert candidates == [candidates[0]] + candidates[1..];
    }
  }

  lemma {:induction false} MatchingAppend(candidates: seq<string>, v: string, requested: string)
    ensures Matching(candidates + [v], requested) ==
            Matching(candidates, requested) + (if VersionMatches(v, requested) then [RankedOf(v)] else [])
  {
    if candidates == [] {
      assert candidates + [v] == [v];
    } else {
      assert (candidates + [v])[1..] == candidates[1..] + [v];
      MatchingAppend(candidates[1..], v, requested);
    }
  }

  /** What `resolveVersion` answers from the listed versions: the last of the sorted matches. */
  function Resolve(candidates: seq<string>, requested: string): Option<string>
  {
    var sorted := Sort(Matching(candidates, requested));
    if sorted == [] then None else Some(sorted[|sorted| - 1].text)
  }

  /** r is a listed match, and no listed match is above it. */
  ghost predicate IsHighestMatch(candidates: seq<string>, requested: string, r: string)
  {
    && r in candidates && VersionMatches(r, requested)
    && forall m :: m in candidates && VersionMatches(m, requested) ==> AtMost(RankedOf(m), RankedOf(r))
  }

  lemma HighestIsMatch(candidates: seq<string>, requested: string, r: string)
    requires IsHighestMatch(candidates, requested, r)
    ensures r in candidates && VersionMatches(r, requested)
  {
  }

  /** Resolution finds a true maximum, and finds one whenever there is a match. */
  lemma ResolveIsHighest(candidates: seq<string>, requested: string)
    ensures Resolve(candidates, requested).Some? ==> IsHighestMatch(candidates, requested, Resolve(candidates, requested).value)
    ensures Resolve(candidates, requested).None? <==>
            forall m :: m in candidates ==> !VersionMatches(m, requested)
  {
    hide VersionMatches, IsValid, AtMost, RankOf, Less;
    var matching := Matching(candidates, requested);
    forall m | m in candidates && VersionMatches(m, requested)
      ensures RankedOf(m) in matching
    {
      MatchingMembers(candidates, requested, RankedOf(m));
    }
    if matching == [] {
      assert Sort(matching) == [];
    } else {
      var top := LastIsHighest(matching);
      MatchingMembers(candidates, requested, top);
    }
  }

  lemma LastIsHighest(vs: seq<Ranked>) returns (top: Ranked)
    requires vs != []
    ensures Sort(vs) != [] && top == Sort(vs)[|Sort(vs)| - 1] && top in vs
    ensures forall v :: v in vs ==> AtMost(v, top)
  {
    var sorted := Sort(vs);
    SortSorts(vs);
    assert |sorted| == |multiset(sorted)| == |multiset(vs)| == |vs|;
    top := sorted[|sorted| - 1];
    assert top in multiset(vs);
    forall v | v in vs
      ensures AtMost(v, top)
    {
      assert v in multiset(sorted);
    }
  }

  /** A match is never above the answer in the sense of section 11, and there is an answer. */
  lemma ResolveDominates(candidates: seq<string>, requested: string, m: string)
    requires m in candidates && VersionMatches(m, requested)
    ensures var r := Resolve(candidates, requested);
            r.Some? && IsValid(r.value) && !Precedes(RankedOf(r.value).rank, RankedOf(m).rank)
  {
    ResolveIsHighest(candidates, requested);
    var r := RankedOf(Resolve(candidates, requested).value);
    PrecedesIsTotalOrder(r.rank, RankedOf(m).rank, r.rank);
  }

  /** The answer depends on which versions are listed, not on their order or repetition. */
  lemma ResolveIgnoresOrder(a: seq<string>, b: seq<string>, requested: string)
    requires forall v :: v in a <==> v in b
    ensures Resolve(a, requested) == Resolve(b, requested)
  {
    ResolveIsHighest(a, requested);
    ResolveIsHighest(b, requested);
    if Resolve(a, requested).Some? && Resolve(b, requested).Some? {
      var x, y := RankedOf(Resolve(a, requested).value), RankedOf(Resolve(b, requested).value);
      AtMostIsTotalOrder(x, y, x);
    }
  }

  // ---------------------------------------------------------------- aliases of one version

  predicate AllFull(candidates: seq<string>)
  {
    forall v :: v in candidates ==> IsFullSemver(v)
  }

  /** The strings an alias request may use for a full version, before any matching. */
  lemma FullVersionMatches(v: string, requested: string)
    requires IsFullSemver(v)
    ensures var p := Parse(v).value;
            |p.numbers| == 3 &&
            (VersionMatches(v, requested) <==>
              || requested == v
              || (p.pre == [] && requested == LATEST)
              || (p.pre == [] && requested == p.numbers[0])
              || (p.pre == [] && requested == p.numbers[0] + "." + p.numbers[1]))
  {
    FullSemverIff(v);
    var p := Parse(v).value;
    assert IsNumber(p.numbers[0]) && IsNumber(p.numbers[1]);
    assert '.' !in p.numbers[0] && '.' !in p.numbers[1];
    SplitField(p.numbers[0], '.');
    SplitFirst(p.numbers[0], p.numbers[1], '.');
    SplitField(p.numbers[1], '.');
    LatestIsNoVersion(p.numbers[0]);
    assert p.numbers[0] + "." + p.numbers[1] == p.numbers[0] + ['.'] + p.numbers[1];
    LatestIsNoVersion(p.numbers[0] + "." + p.numbers[1]);
    FullVersionIsNotLatest(v);
    hide Parse, IsFullSemver, IsNumber, Split;
  }

  lemma LatestIsNoVersion(s: string)
    requires s != [] && IsDigit(s[0])
    ensures s != LATEST
  {
  }

  lemma {:induction false} FirstFieldStarts(s: string, c: char)
    ensures Split(s, c)[0] <= s
  {
    if s != [] && s[0] != c {
      FirstFieldStarts(s[1..], c);
      assert s == [s[0]] + s[1..];
    }
  }

  lemma FullVersionIsNotLatest(v: string)
    requires IsValid(v)
    ensures v != LATEST
  {
    var core := Before(Before(v, '+'), '-');
    FirstFieldStarts(core, '.');
    assert Parse(v).value.numbers == Split(core, '.');
    assert IsNumber(Split(core, '.')[0]);
    assert v[0] == core[0];
    LatestIsNoVersion(v);
  }

  /** The aliases a deletion invalidates (content-service.go:536-551), without the package. */
  function Aliases(version: string): seq<string>
  {
    var parts := Split(Before(Before(version, '-'), '+'), '.');
    [LATEST] + seq(|parts| - 1, i requires 0 <= i < |parts| - 1 => Join(parts[..i + 1], '.'))
  }

  /** The same list as the source builds it. */
  method MutableAliasPrefixes(pkg: string, version: string) returns (prefixes: seq<string>)
    ensures |prefixes| == |Aliases(version)|
    ensures forall i :: 0 <= i < |prefixes| ==> prefixes[i] == Folder(pkg, Aliases(version)[i])
  {
    var base := Before(version, '-');
    base := Before(base, '+');
    var parts := Split(base, '.');
    prefixes := [Folder(pkg, LATEST)];
    hide Before, Split, Join, Folder;
    for i := 1 to |parts|
      invariant |prefixes| == i
      invariant forall j :: 0 <= j < i ==> prefixes[j] == Folder(pkg, Aliases(version)[j])
    {
      var partial := Join(parts[..i], '.');
      prefixes := prefixes + [Folder(pkg, partial)];
    }
  }

  /** The invalidated aliases are exactly what can resolve to the version: every alias a
      version matches is on the list, and a stable version matches every alias on it. */
  lemma AliasesCoverMatches(version: string, requested: string)
    requires IsFullSemver(version) && requested != version
    ensures VersionMatches(version, requested) ==> requested in Aliases(version)
    ensures IsPinned(version) && requested in Aliases(version) ==> VersionMatches(version, requested)
  {
    FullVersionMatches(version, requested);
    AliasesOfFull(version);
    hide Aliases, VersionMatches;
  }

  lemma AliasesOfFull(version: string)
    requires IsFullSemver(version)
    ensures var n := Parse(version).value.numbers;
            |n| == 3 && Aliases(version) == [LATEST, n[0], n[0] + "." + n[1]]
  {
    FullSemverIff(version);
    var n := Parse(version).value.numbers;
    assert Join(n[..1], '.') == n[0];
    assert n[..2] == [n[0], n[1]] && n[..2][1..] == [n[1]];
    assert Join(n[..2], '.') == n[0] + "." + n[1];
    hide Parse, IsFullSemver, Split, Join;
  }

  /** A narrower alias never resolves above a wider one, and whenever the narrower resolves so
      does the wider: M.m is at most M, and M is at most latest. */
  lemma AliasesNest(candidates: seq<string>, major: string, minor: string)
    requires AllFull(candidates) && '.' !in major && '.' !in minor
    ensures var narrow := Resolve(candidates, major + "." + minor);
            var wide := Resolve(candidates, major);
            narrow.Some? ==> wide.Some? && IsValid(narrow.value) && IsValid(wide.value) && AtMost(RankedOf(narrow.value), RankedOf(wide.value))
    ensures var wide := Resolve(candidates, major);
            var latest := Resolve(candidates, LATEST);
            wide.Some? ==> latest.Some? && IsValid(wide.value) && IsValid(latest.value) && AtMost(RankedOf(wide.value), RankedOf(latest.value))
  {
    forall v | v in candidates
      ensures VersionMatches(v, major + "." + minor) ==> VersionMatches(v, major)
      ensures VersionMatches(v, major) ==> VersionMatches(v, LATEST)
    {
      MatchesNest(v, major, minor);
    }
    WiderResolvesHigher(candidates, major + "." + minor, major);
    WiderResolvesHigher(candidates, major, LATEST);
  }

  lemma WiderResolvesHigher(candidates: seq<string>, narrow: string, wide: string)
    requires forall v :: v in candidates && VersionMatches(v, narrow) ==> VersionMatches(v, wide)
    ensures var n, w := Resolve(candidates, narrow), Resolve(candidates, wide);
            n.Some? ==> w.Some? && IsValid(n.value) && IsValid(w.value) && AtMost(RankedOf(n.value), RankedOf(w.value))
  {
    ResolveIsHighest(candidates, narrow);
    ResolveIsHighest(candidates, wide);
  }

  lemma MatchesNest(v: string, major: string, minor: string)
    requires IsFullSemver(v) && '.' !in major && '.' !in minor
    ensures VersionMatches(v, major + "." + minor) ==> VersionMatches(v, major)
    ensures VersionMatches(v, major) ==> VersionMatches(v, LATEST)
  {
    var alias := major + "." + minor;
    FullVersionMatches(v, alias);
    FullVersionMatches(v, major);
    FullVersionMatches(v, LATEST);
    FullVersionHasDots(v, major, minor);
    var p := Parse(v).value;
    assert IsNumber(p.numbers[0]) && IsNumber(p.numbers[1]);
    assert alias == major + ['.'] + minor;
    SplitFirst(major, minor, '.');
    SplitFirst(p.numbers[0], p.numbers[1], '.');
    SplitField(minor, '.');
    SplitField(p.numbers[1], '.');
    assert p.numbers[0] + "." + p.numbers[1] == p.numbers[0] + ['.'] + p.numbers[1];
    assert '.' in alias by {
      assert alias[|major|] == '.';
    }
    assert '.' !in LATEST && '.' !in p.numbers[0];
    assert [major] + [minor] == [major, minor];
    assert [p.numbers[0]] + [p.numbers[1]] == [p.numbers[0], p.numbers[1]];
  }

  lemma {:induction false} PrefixHasFewerFields(p: string, s: string, c: char)
    requires p <= s
    ensures |Split(p, c)| <= |Split(s, c)|
  {
    if p != [] {
      PrefixHasFewerFields(p[1..], s[1..], c);
    }
  }

  lemma FullVersionHasDots(v: string, major: string, minor: string)
    requires IsFullSemver(v) && '.' !in major && '.' !in minor
    ensures v != major && v != major + "." + minor
  {
    PrefixHasFewerFields(Before(Before(v, '-'), '+'), v, '.');
    SplitField(major, '.');
    SplitFirst(major, minor, '.');
    SplitField(minor, '.');
    assert major + "." + minor == major + ['.'] + minor;
  }

  // ---------------------------------------------------------------- the list of versions

  function FullOnes(candidates: seq<string>): (r: seq<Ranked>)
  {
    if candidates == [] then []
    else
      var rest := FullOnes(candidates[1..]);
      if IsFullSemver(candidates[0]) then [RankedOf(candidates[0])] + rest else rest
  }

  function Reversed<T>(s: seq<T>): (r: seq<T>)
    ensures |r| == |s| && forall i :: 0 <= i < |s| ==> r[i] == s[|s| - 1 - i]
  {
    seq(|s|, i requires 0 <= i < |s| => s[|s| - 1 - i])
  }

  /** What `ListVersions` answers for a valid name: full versions, highest first. */
  function Listed(candidates: seq<string>): seq<Ranked>
  {
    Reversed(Sort(FullOnes(candidates)))
  }

  lemma {:induction false} FullOnesMembers(candidates: seq<string>, v: Ranked)
    ensures v in FullOnes(candidates) <==>
            v.text in candidates && IsFullSemver(v.text) && v == RankedOf(v.text)
  {
    if candidates != [] {
      FullOnesMembers(candidates[1..], v);
      assert candidates == [candidates[0]] + candidates[1..];
    }
  }

  lemma {:induction false} FullAppend(candidates: seq<string>, v: string)
    ensures FullOnes(candidates + [v]) == FullOnes(candidates) + (if IsFullSemver(v) then [RankedOf(v)] else [])
  {
    hide IsFullSemver, RankedOf;
    if candidates == [] {
      assert candidates + [v] == [v];
    } else {
      assert (candidates + [v])[1..] == candidates[1..] + [v];
      FullAppend(candidates[1..], v);
    }
  }

  predicate Descending(vs: seq<Ranked>)
  {
    forall i, j :: 0 <= i < j < |vs| ==> AtMost(vs[j], vs[i])
  }

  /** The list holds exactly the full versions, in descending precedence. */
  lemma ListedIsDescending(candidates: seq<string>)
    ensures Descending(Listed(candidates))
    ensures forall v: Ranked :: v in Listed(candidates) <==>
              v.text in candidates && IsFullSemver(v.text) && v == RankedOf(v.text)
  {
    hide AtMost, RankOf, IsValid;
    SortSorts(FullOnes(candidates));
    forall v: Ranked
      ensures v in Listed(candidates) <==> v in FullOnes(candidates)
    {
      ReversedSortMember(FullOnes(candidates), v);
    }
    forall v: Ranked
      ensures v in FullOnes(candidates) <==> v.text in candidates && IsFullSemver(v.text) && v == RankedOf(v.text)
    {
      FullOnesMembers(candidates, v);
    }
  }

  lemma ReversedMember(vs: seq<Ranked>, v: Ranked)
    ensures v in Reversed(vs) <==> v in vs
  {
    if v in vs {
      var i :| 0 <= i < |vs| && vs[i] == v;
      assert Reversed(vs)[|vs| - 1 - i] == v;
    }
  }

  lemma ReversedSortMember(vs: seq<Ranked>, v: Ranked)
    ensures v in Reversed(Sort(vs)) <==> v in vs
  {
    hide Reversed;
    ReversedMember(Sort(vs), v);
    assert v in multiset(Sort(vs)) <==> v in multiset(vs);
  }

  /** The first stable item of a list. */
  function FirstStable(vs: seq<Ranked>): Option<string>
  {
    if vs == [] then None
    else if vs[0].rank.pre == [] then Some(vs[0].text)
    else FirstStable(vs[1..])
  }

  lemma {:induction false} FirstStableIsHighest(vs: seq<Ranked>)
    requires Descending(vs)
    ensures FirstStable(vs).Some? ==> exists v :: v in vs && v.rank.pre == [] && v.text == FirstStable(vs).value
                                        && forall m :: m in vs && m.rank.pre == [] ==> AtMost(m, v)
    ensures FirstStable(vs).None? ==> forall m :: m in vs ==> m.rank.pre != []
  {
    if vs != [] {
      FirstStableIsHighest(vs[1..]);
      assert vs == [vs[0]] + vs[1..];
      if vs[0].rank.pre == [] {
        forall m | m in vs
          ensures AtMost(m, vs[0])
        {
          var i :| 0 <= i < |vs| && vs[i] == m;
          AtMostIsTotalOrder(m, m, m);
        }
        assert vs[0] in vs;
      }
    }
  }

  /** `latest` is the first stable item of the version list. */
  lemma LatestIsFirstStable(candidates: seq<string>)
    requires AllFull(candidates)
    ensures Resolve(candidates, LATEST) == FirstStable(Listed(candidates))
  {
    var vs := Listed(candidates);
    ListedIsDescending(candidates);
    FirstStableIsHighest(vs);
    ResolveIsHighest(candidates, LATEST);
    forall v | v in candidates
      ensures VersionMatches(v, LATEST) <==> RankedOf(v).rank.pre == []
      ensures RankedOf(v) in vs
    {
      FullVersionMatches(v, LATEST);
    }
    if FirstStable(vs).Some? {
      var v :| v in vs && v.rank.pre == [] && v.text == FirstStable(vs).value
               && forall m :: m in vs && m.rank.pre == [] ==> AtMost(m, v);
      assert VersionMatches(v.text, LATEST);
      var r := RankedOf(Resolve(candidates, LATEST).value);
      AtMostIsTotalOrder(r, v, r);
    }
  }
}
