/** Which stored file a read reaches (internal/content/content-service.go:295-342), said of the
    bucket and the texts of its versions. */
module Reads {
  import opened Strings
  import opened Semver
  import opened ObjectStore
  import opened Service
  import opened Versions
  import opened Precedence
  import opened Runs

  /** A full version answers its own text and, when stable, "latest", its major and its
      major.minor. */
  predicate Answers(v: string, requested: string)
    requires IsFullSemver(v)
  {
    var p := Parse(v).value;
    || requested == v
    || (p.pre == [] && |p.numbers| == 3 && requested in ["latest", p.numbers[0], p.numbers[0] + "." + p.numbers[1]])
  }

  lemma AnswersIff(v: string, requested: string)
    requires IsFullSemver(v)
    ensures Answers(v, requested) <==> VersionMatches(v, requested)
  {
    FullVersionMatches(v, requested);
    hide VersionMatches, Parse, IsFullSemver;
  }

  predicate IsStored(b: Bucket, pkg: string, v: string)
  {
    IsFullSemver(v) && Exists(b, Folder(pkg, v))
  }

  /** r is stored, answers the request, and every other stored version that does sorts lower. */
  ghost predicate IsHighestAnswer(b: Bucket, pkg: string, requested: string, r: string)
  {
    && IsStored(b, pkg, r) && Answers(r, requested)
    && forall m :: IsStored(b, pkg, m) && Answers(m, requested) ==> m == r || SortsLower(m, r)
  }

  /** What the router hands over. */
  predicate IsRequest(pkg: string, file: string)
  {
    '@' !in pkg && '/' !in pkg && file != "" && file[0] == '/'
  }

  /** No cached answer decides the read. */
  predicate IsUncached(s: State, cacheEnabled: bool, pkg: string, version: string, file: string)
  {
    cacheEnabled ==> pkg + "@" + version + file !in s.cache
  }

  // ---------------------------------------------------------------- where a read goes

  /** In a bucket of valid identities resolution answers the one highest answer, if any. */
  lemma ResolvesToHighest(b: Bucket, pkg: string, requested: string)
    requires BucketOk(b) && '@' !in pkg && '/' !in pkg
    ensures ResolveIn(b, pkg, requested).Some? ==> IsHighestAnswer(b, pkg, requested, ResolveIn(b, pkg, requested).value)
    ensures ResolveIn(b, pkg, requested).None? <==> forall m :: IsStored(b, pkg, m) ==> !Answers(m, requested)
  {
    hide VersionMatches, IsFullSemver, Folder, Candidates, Resolve, SortsLower, Answers, BucketOk, IsHighestMatch;
    var candidates := Sorted(Candidates(b, pkg));
    ResolveIsHighest(candidates, requested);
    forall m
      ensures m in candidates <==> IsStored(b, pkg, m)
      ensures IsStored(b, pkg, m) ==> (Answers(m, requested) <==> VersionMatches(m, requested))
    {
      CandidatesAreStored(b, pkg, m);
      if IsFullSemver(m) {
        AnswersIff(m, requested);
      }
    }
    if ResolveIn(b, pkg, requested).Some? {
      var r := ResolveIn(b, pkg, requested).value;
      HighestIsMatch(candidates, requested, r);
      forall m | IsStored(b, pkg, m) && Answers(m, requested)
        ensures m == r || SortsLower(m, r)
      {
        HighestSortsLast(candidates, requested, r, m);
      }
    }
  }

  lemma HighestSortsLast(candidates: seq<string>, requested: string, r: string, m: string)
    requires IsHighestMatch(candidates, requested, r) && m in candidates && VersionMatches(m, requested)
    ensures IsValid(m) && IsValid(r) && (m == r || SortsLower(m, r))
  {
    hide SortsLower;
    SortsLowerIff(m, r);
  }

  /** A pinned version addresses its own file, and the cache plays no part. */
  lemma PinnedAddressesItself(s: State, cacheEnabled: bool, pkg: string, version: string, file: string)
    requires IsPinned(version)
    ensures Addressed(s, cacheEnabled, pkg, version, file) == pkg + "@" + version + file
    ensures AfterGet(s, cacheEnabled, pkg, version, file) == s
  {
    hide IsPinned, ResolveIn, TrimLeft, IsRequestable;
  }

  /** Any other request addresses the file in the highest stored version that answers it; with
      none, the folder of its own text. */
  lemma AliasAddressesHighest(s: State, cacheEnabled: bool, pkg: string, version: string, file: string) returns (r: string)
    requires BucketOk(s.bucket) && IsRequest(pkg, file) && !IsPinned(version) && IsUncached(s, cacheEnabled, pkg, version, file)
    ensures Addressed(s, cacheEnabled, pkg, version, file) == pkg + "@" + r + "/" + TrimLeft(file, '/')
    ensures if exists m :: IsStored(s.bucket, pkg, m) && Answers(m, version) then IsHighestAnswer(s.bucket, pkg, version, r) else r == version
  {
    hide IsPinned, ResolveIn, TrimLeft, BucketOk, Answers, IsHighestAnswer, IsStored;
    ResolvesToHighest(s.bucket, pkg, version);
    var resolved := ResolveIn(s.bucket, pkg, version);
    r := if resolved.Some? then resolved.value else version;
    if resolved.Some? {
      HighestAnswers(s.bucket, pkg, version, r);
    }
  }

  lemma HighestAnswers(b: Bucket, pkg: string, requested: string, r: string)
    requires IsHighestAnswer(b, pkg, requested, r)
    ensures IsStored(b, pkg, r) && Answers(r, requested)
  {
  }

  /** A read that is remembered is repeated: until its entry is evicted or invalidated, the same
      request addresses the same object, whatever becomes of the bucket. */
  lemma ReadIsRemembered(s: State, pkg: string, version: string, file: string, b: Bucket)
    requires IsRequestable(version)
    ensures var path := Addressed(s, true, pkg, version, file);
            Addressed(AfterGet(s, true, pkg, version, file).(bucket := b), true, pkg, version, file) == path
  {
    hide IsPinned, ResolveIn, TrimLeft, IsRequestable;
  }

  /** What a read adds to the cache is the alias with the path it resolves to in this bucket. */
  lemma GetCachesHighest(s: State, pkg: string, version: string, file: string) returns (r: string)
    requires BucketOk(s.bucket) && IsRequest(pkg, file) && IsRequestable(version) && !IsPinned(version) && IsUncached(s, true, pkg, version, file)
    ensures Step(s, true, Get(pkg, version, file, false)).cache ==
            s.cache[pkg + "@" + version + file := pkg + "@" + r + "/" + TrimLeft(file, '/')]
    ensures if exists m :: IsStored(s.bucket, pkg, m) && Answers(m, version) then IsHighestAnswer(s.bucket, pkg, version, r) else r == version
  {
    r := AliasAddressesHighest(s, true, pkg, version, file);
    hide IsPinned, TrimLeft, IsRequestable, BucketOk, Answers, IsHighestAnswer, IsStored, Step, Addressed;
    GetCachesAddressed(s, pkg, version, file);
  }

  lemma GetCachesAddressed(s: State, pkg: string, version: string, file: string)
    requires IsRequestable(version) && !IsPinned(version) && IsUncached(s, true, pkg, version, file)
    ensures Step(s, true, Get(pkg, version, file, false)).cache ==
            s.cache[pkg + "@" + version + file := Addressed(s, true, pkg, version, file)]
  {
    hide IsPinned, ResolveIn, TrimLeft, IsRequestable;
  }

  /** An alias read before any version answers it is remembered under its own text, and a version
      uploaded later does not change that: the entry lasts until it expires. */
  lemma EarlyReadSticks(s: State, pkg: string, version: string, file: string, v: string, added: Bucket)
    requires BucketOk(s.bucket) && IsRequest(pkg, file) && IsRequestable(version) && !IsPinned(version) && IsUncached(s, true, pkg, version, file)
    requires forall m :: IsStored(s.bucket, pkg, m) ==> !Answers(m, version)
    ensures var later := Step(Step(s, true, Get(pkg, version, file, false)), true, Create(pkg, v, added));
            Addressed(later, true, pkg, version, file) == pkg + "@" + version + "/" + TrimLeft(file, '/')
  {
    var r := AliasAddressesHighest(s, true, pkg, version, file);
    hide IsPinned, ResolveIn, TrimLeft, IsRequestable, BucketOk, Answers, IsHighestAnswer, IsStored, IsIdentity;
    var read := Step(s, true, Get(pkg, version, file, false));
    ReadIsRemembered(s, pkg, version, file, Step(read, true, Create(pkg, v, added)).bucket);
  }

  // ---------------------------------------------------------------- reading what was created

  lemma OneSlash(file: string)
    requires file != "" && file[0] == '/' && (|file| > 1 ==> file[1] != '/')
    ensures "/" + TrimLeft(file, '/') == file
  {
    assert file == "/" + file[1..];
  }

  /** After a successful create the stored versions are the old ones and the new one. */
  lemma CreatedIsStored(b: Bucket, name: string, version: string, added: Bucket, m: string)
    requires IsIdentity(name, version) && (forall k :: k in added ==> Folder(name, version) + "/" <= k)
    ensures IsStored(b + added, name, m) ==> IsStored(b, name, m) || m == version
  {
    hide IsIdentity, Folder, IsFullSemver;
    if IsStored(b + added, name, m) && m != version && !IsStored(b, name, m) {
      var k :| k in b + added && Folder(name, m) + "/" <= k;
      assert k in added;
      CreatedElsewhere(name, version, m, k);
    }
  }

  lemma CreatedElsewhere(name: string, version: string, m: string, k: string)
    requires IsIdentity(name, version) && IsFullSemver(m) && m != version && Folder(name, version) + "/" <= k
    ensures !(Folder(name, m) + "/" <= k)
  {
    hide IsFullSemver, Folder;
    DifferentFolders(name, version, name, m, k);
  }

  /** Main result. A file just created is found by every request its version answers, when no
      other stored answer sorts above the version and no cached answer is older. */
  lemma CreatedIsRead(s: State, cacheEnabled: bool, name: string, version: string, added: Bucket, requested: string, file: string)
    requires BucketOk(s.bucket) && IsIdentity(name, version) && !Exists(s.bucket, Folder(name, version))
    requires Allowed(Create(name, version, added)) && Folder(name, version) + file in added
    requires IsRequest(name, file) && (|file| > 1 ==> file[1] != '/')
    requires Answers(version, requested) && (IsPinned(requested) || IsUncached(s, cacheEnabled, name, requested, file))
    requires forall m :: IsStored(s.bucket, name, m) && Answers(m, requested) ==> SortsLower(m, version)
    ensures var next := Step(s, cacheEnabled, Create(name, version, added));
            var path := Addressed(next, cacheEnabled, name, requested, file);
            path == name + "@" + version + file && path in next.bucket && next.bucket[path] == added[path]
  {
    hide Addressed, AfterGet, Answers, IsPinned, IsUncached, BucketOk, SortsLower, IsIdentity, IsStored, IsFullSemver;
    var next := Step(s, cacheEnabled, Create(name, version, added));
    assert next == s.(bucket := s.bucket + added);
    if IsPinned(requested) {
      IdentityIsFull(name, version);
      PinnedAnswersItself(version, requested);
      PinnedAddressesItself(next, cacheEnabled, name, requested, file);
    } else {
      CreatedIsAddressed(s, cacheEnabled, name, version, added, requested, file);
    }
  }

  lemma IdentityIsFull(name: string, version: string)
    requires IsIdentity(name, version)
    ensures IsFullSemver(version)
  {
  }

  lemma CreatedIsAddressed(s: State, cacheEnabled: bool, name: string, version: string, added: Bucket, requested: string, file: string)
    requires BucketOk(s.bucket) && IsIdentity(name, version) && !Exists(s.bucket, Folder(name, version))
    requires Allowed(Create(name, version, added)) && Folder(name, version) + file in added
    requires IsRequest(name, file) && (|file| > 1 ==> file[1] != '/')
    requires Answers(version, requested) && !IsPinned(requested) && IsUncached(s, cacheEnabled, name, requested, file)
    requires forall m :: IsStored(s.bucket, name, m) && Answers(m, requested) ==> SortsLower(m, version)
    ensures Addressed(s.(bucket := s.bucket + added), cacheEnabled, name, requested, file) == name + "@" + version + file
  {
    hide Addressed, AfterGet, Answers, IsPinned, BucketOk, IsHighestAnswer, TrimLeft, SortsLower, IsIdentity, IsStored, IsFullSemver;
    var next := s.(bucket := s.bucket + added);
    StepKeepsBucketOk(s, cacheEnabled, Create(name, version, added));
    assert next == Step(s, cacheEnabled, Create(name, version, added));
    NewIsStored(s.bucket, name, version, added, file);
    var r := AliasAddressesHighest(next, cacheEnabled, name, requested, file);
    HighestIsNew(s.bucket, name, version, added, requested, r);
    OneSlash(file);
    assert name + "@" + version + "/" + TrimLeft(file, '/') == name + "@" + version + ("/" + TrimLeft(file, '/'));
  }

  lemma NewIsStored(b: Bucket, name: string, version: string, added: Bucket, file: string)
    requires IsIdentity(name, version) && file != "" && file[0] == '/' && Folder(name, version) + file in added
    ensures IsStored(b + added, name, version)
  {
    hide IsFullSemver, Folder;
    StartsWithSlash(Folder(name, version), file);
    assert Folder(name, version) + file in b + added;
  }

  lemma HighestIsNew(b: Bucket, name: string, version: string, added: Bucket, requested: string, r: string)
    requires IsIdentity(name, version) && (forall k :: k in added ==> Folder(name, version) + "/" <= k)
    requires IsHighestAnswer(b + added, name, requested, r) && IsStored(b + added, name, version) && Answers(version, requested)
    requires forall m :: IsStored(b, name, m) && Answers(m, requested) ==> SortsLower(m, version)
    ensures r == version
  {
    CreatedIsStored(b, name, version, added, r);
    if r != version {
      SortsLowerIff(version, r);
      SortsLowerIff(r, version);
      SortsBeforeIsTotalOrder(RankedOf(version), RankedOf(r), RankedOf(version));
    }
  }

  lemma PinnedAnswersItself(v: string, requested: string)
    requires IsFullSemver(v) && Answers(v, requested) && IsPinned(requested)
    ensures requested == v
  {
    var n := Parse(v).value.numbers;
    FullSemverIff(v);
    FullVersionIsNotLatest(requested);
    assert IsNumber(n[0]) && IsNumber(n[1]);
    FullVersionHasDots(requested, n[0], n[1]);
  }

  /** In particular the highest stable version is found by its exact text, by "latest", by its
      major and by its major.minor. */
  lemma HighestStableIsRead(s: State, cacheEnabled: bool, name: string, version: string, added: Bucket, requested: string, file: string)
    requires BucketOk(s.bucket) && IsIdentity(name, version) && IsPinned(version) && !Exists(s.bucket, Folder(name, version))
    requires Allowed(Create(name, version, added)) && Folder(name, version) + file in added
    requires IsRequest(name, file) && (|file| > 1 ==> file[1] != '/')
    requires var n := Parse(version).value.numbers; |n| == 3 && requested in [version, "latest", n[0], n[0] + "." + n[1]]
    requires IsPinned(requested) || IsUncached(s, cacheEnabled, name, requested, file)
    requires forall m :: IsStored(s.bucket, name, m) && IsPinned(m) ==> SortsLower(m, version)
    ensures var next := Step(s, cacheEnabled, Create(name, version, added));
            var path := Addressed(next, cacheEnabled, name, requested, file);
            path == name + "@" + version + file && path in next.bucket && next.bucket[path] == added[path]
  {
    forall m | IsStored(s.bucket, name, m) && Answers(m, requested)
      ensures SortsLower(m, version)
    {
      AnswerIsStable(m, version, requested);
    }
    hide Step, Addressed, BucketOk, SortsLower, IsStored;
    CreatedIsRead(s, cacheEnabled, name, version, added, requested, file);
  }

  /** Two versions that answer one request are both stable, or the same. */
  lemma AnswerIsStable(m: string, version: string, requested: string)
    requires IsFullSemver(m) && IsFullSemver(version) && Answers(m, requested) && Answers(version, requested)
    ensures m == version || IsPinned(m)
  {
    if Parse(m).value.pre != [] && m != version {
      var n := Parse(version).value.numbers;
      FullSemverIff(version);
      FullVersionIsNotLatest(m);
      assert IsNumber(n[0]) && IsNumber(n[1]);
      FullVersionHasDots(m, n[0], n[1]);
    }
  }
}
