/** Sequential runs of the content service: creates, deletions, reads and cache evictions in any
    order. Stored versions are immutable and isolated from each other, and no cached alias ever
    points at a version that is gone. */
module Runs {
  import opened Strings
  import opened Semver
  import opened ObjectStore
  import opened Service
  import opened Versions

  /** One complete operation. `Create` carries what the upload left behind: everything on
      success, nothing after a rollback, some part when the rollback failed too. */
  datatype Op =
    | Create(name: string, version: string, added: Bucket)
    | Delete(name: string, version: string, refused: set<string>)
    | Get(pkg: string, version: string, file: string, setFails: bool)
    | Evict(key: string)

  /** What the callers guarantee: an upload writes under its own folder, and the router hands
      over a package without '@' or '/' and a file path starting with '/'. */
  predicate Allowed(op: Op)
  {
    match op
    case Create(name, version, added) => forall k :: k in added ==> Folder(name, version) + "/" <= k
    case Delete(_, _, _) => true
    case Get(pkg, _, file, _) => '@' !in pkg && '/' !in pkg && file != "" && file[0] == '/'
    case Evict(_) => true
  }

  ghost function Step(s: State, cacheEnabled: bool, op: Op): State
  {
    match op
    case Create(name, version, added) =>
      if !IsIdentity(name, version) || Exists(s.bucket, Folder(name, version)) then s
      else s.(bucket := s.bucket + added)
    case Delete(name, version, refused) => AfterDelete(s, cacheEnabled, name, version, refused)
    case Get(pkg, version, file, setFails) =>
      if setFails then s else AfterGet(s, cacheEnabled, pkg, version, file)
    case Evict(key) => s.(cache := s.cache - {key})
  }

  ghost function Run(s: State, cacheEnabled: bool, ops: seq<Op>): State
    decreases |ops|
  {
    if ops == [] then s else Run(Step(s, cacheEnabled, ops[0]), cacheEnabled, ops[1..])
  }

  // ---------------------------------------------------------------- reading a key back

  function KeyName(key: string): string
  {
    Before(Before(key, '/'), '@')
  }

  function KeyVersion(key: string): string
  {
    var slug, name := Before(key, '/'), KeyName(key);
    if |name| < |slug| then slug[|name| + 1..] else ""
  }

  lemma KeyParts(name: string, version: string, key: string)
    requires '@' !in name && '/' !in name && '/' !in version && Folder(name, version) + "/" <= key
    ensures KeyName(key) == name && KeyVersion(key) == version
  {
    FolderOfKey(name, version, key);
    assert Folder(name, version)[|name| + 1..] == version;
  }

  /** The key lies in the folder of a valid identity. */
  predicate InIdentity(key: string)
  {
    IsIdentity(KeyName(key), KeyVersion(key)) && Folder(KeyName(key), KeyVersion(key)) + "/" <= key
  }

  predicate BucketOk(b: Bucket)
  {
    forall k :: k in b ==> InIdentity(k)
  }

  lemma IdentityAvoids(name: string, version: string)
    requires IsIdentity(name, version)
    ensures '@' !in name && '/' !in name && '/' !in version && '@' !in version
  {
    NameAvoids(name, '@');
    NameAvoids(name, '/');
    ValidAvoids(version, '/');
    ValidAvoids(version, '@');
  }

  lemma UnderIdentity(name: string, version: string, key: string)
    requires IsIdentity(name, version) && Folder(name, version) + "/" <= key
    ensures InIdentity(key) && KeyName(key) == name && KeyVersion(key) == version
  {
    IdentityAvoids(name, version);
    KeyParts(name, version, key);
  }

  lemma StepKeepsBucketOk(s: State, cacheEnabled: bool, op: Op)
    requires BucketOk(s.bucket) && Allowed(op)
    ensures BucketOk(Step(s, cacheEnabled, op).bucket)
  {
    hide IsIdentity, InIdentity, Folder, AfterGet;
    match op
    case Create(name, version, added) =>
      if IsIdentity(name, version) {
        forall k | k in added
          ensures InIdentity(k)
        {
          UnderIdentity(name, version, k);
        }
      }
    case Delete(_, _, _) =>
    case Get(pkg, version, file, setFails) =>
      GetKeepsBucket(s, cacheEnabled, pkg, version, file);
    case Evict(_) =>
  }

  lemma GetKeepsBucket(s: State, cacheEnabled: bool, pkg: string, version: string, file: string)
    ensures AfterGet(s, cacheEnabled, pkg, version, file).bucket == s.bucket
  {
  }

  // ---------------------------------------------------------------- isolation

  /** The objects of one version. */
  function Part(b: Bucket, name: string, version: string): Bucket
  {
    map k | k in b && Folder(name, version) + "/" <= k :: b[k]
  }

  /** An operation changes the objects of a stored version only if it deletes that version. */
  lemma StepKeepsVersion(s: State, cacheEnabled: bool, op: Op, name: string, version: string)
    requires Allowed(op) && IsIdentity(name, version) && Exists(s.bucket, Folder(name, version))
    requires op.Delete? ==> op.name != name || op.version != version
    ensures Part(Step(s, cacheEnabled, op).bucket, name, version) == Part(s.bucket, name, version)
  {
    hide IsIdentity, Folder, AfterGet;
    match op
    case Create(n, v, added) =>
      if IsIdentity(n, v) && !Exists(s.bucket, Folder(n, v)) {
        forall k | k in added
          ensures !(Folder(name, version) + "/" <= k)
        {
          DifferentFolders(name, version, n, v, k);
        }
      }
    case Delete(n, v, refused) =>
      if IsIdentity(n, v) {
        forall k | k in s.bucket && Folder(name, version) + "/" <= k
          ensures !(Folder(n, v) + "/" <= k)
        {
          DifferentFolders(name, version, n, v, k);
        }
      }
    case Get(pkg, v, file, setFails) =>
      GetKeepsBucket(s, cacheEnabled, pkg, v, file);
    case Evict(_) =>
  }

  lemma DifferentFolders(n1: string, v1: string, n2: string, v2: string, key: string)
    requires IsIdentity(n1, v1) && IsIdentity(n2, v2) && (n1 != n2 || v1 != v2)
    ensures !(Folder(n1, v1) + "/" <= key && Folder(n2, v2) + "/" <= key)
  {
    IdentityAvoids(n1, v1);
    IdentityAvoids(n2, v2);
    if Folder(n1, v1) + "/" <= key && Folder(n2, v2) + "/" <= key {
      FoldersAreDisjoint(n1, v1, n2, v2, key);
    }
  }

  /** Immutability over runs: until it is deleted itself, a stored version keeps exactly its
      objects, whatever else is created, deleted, read or evicted. */
  lemma {:induction false} VersionIsImmutable(s: State, cacheEnabled: bool, ops: seq<Op>, name: string, version: string)
    requires IsIdentity(name, version) && Exists(s.bucket, Folder(name, version))
    requires forall i :: 0 <= i < |ops| ==> Allowed(ops[i]) && (ops[i].Delete? ==> ops[i].name != name || ops[i].version != version)
    ensures Part(Run(s, cacheEnabled, ops).bucket, name, version) == Part(s.bucket, name, version)
    decreases |ops|
  {
    hide IsIdentity, Folder, Step, Allowed;
    if ops != [] {
      var next := Step(s, cacheEnabled, ops[0]);
      StepKeepsVersion(s, cacheEnabled, ops[0], name, version);
      PartDecidesExists(s.bucket, next.bucket, name, version);
      VersionIsImmutable(next, cacheEnabled, ops[1..], name, version);
    }
  }

  lemma PartDecidesExists(a: Bucket, b: Bucket, name: string, version: string)
    requires Part(a, name, version) == Part(b, name, version) && Exists(a, Folder(name, version))
    ensures Exists(b, Folder(name, version))
  {
    var k :| k in a && Folder(name, version) + "/" <= k;
    assert k in Part(a, name, version);
  }

  /** A successful deletion empties exactly its own version: every other key is kept, so
      deleting 1.0.1 leaves 1.0.10. */
  lemma DeleteIsExact(s: State, cacheEnabled: bool, name: string, version: string, refused: set<string>, key: string)
    requires IsIdentity(name, version) && Under(s.bucket, Folder(name, version) + "/") !! refused
    ensures var b := Step(s, cacheEnabled, Delete(name, version, refused)).bucket;
            && !Exists(b, Folder(name, version))
            && (key in b <==> key in s.bucket && !(KeyName(key) == name && KeyVersion(key) == version && InIdentity(key)))
            && (key in b ==> b[key] == s.bucket[key])
  {
    var folder := Folder(name, version) + "/";
    if folder <= key {
      UnderIdentity(name, version, key);
      assert key in s.bucket ==> key in Under(s.bucket, folder);
    }
    forall k | k in s.bucket && folder <= k
      ensures k in Under(s.bucket, folder)
    {
    }
  }

  // ---------------------------------------------------------------- the alias cache

  /** A cached answer `key -> path` reads pkg@req/file -> pkg@r/file, where r is req itself or a
      stored version the alias matches. */
  ghost predicate EntryOk(b: Bucket, key: string, path: string)
  {
    var pkg, req, r := KeyName(key), KeyVersion(key), KeyVersion(path);
    && '@' !in pkg && '/' !in pkg && '/' !in req && '/' !in r
    && Folder(pkg, req) + "/" <= key
    && path == Folder(pkg, r) + "/" + TrimLeft(key[|Folder(pkg, req)|..], '/')
    && (r == req || (Exists(b, Folder(pkg, r)) && IsFullSemver(r) && VersionMatches(r, req)))
  }

  ghost predicate CacheOk(s: State)
  {
    forall k :: k in s.cache ==> EntryOk(s.bucket, k, s.cache[k])
  }

  /** In a bucket of valid identities the listed candidates are exactly the stored versions. */
  lemma CandidatesAreStored(b: Bucket, pkg: string, r: string)
    requires BucketOk(b) && '@' !in pkg && '/' !in pkg
    ensures r in Candidates(b, pkg) <==> Exists(b, Folder(pkg, r)) && IsFullSemver(r)
  {
    hide Candidate, Child, Folder, IsFullSemver, InIdentity;
    if r in Candidates(b, pkg) {
      var k := CandidateHasKey(b, pkg, r);
    }
    if Exists(b, Folder(pkg, r)) && IsFullSemver(r) {
      var k :| k in b && Folder(pkg, r) + "/" <= k;
      StoredIsCandidate(b, pkg, r, k);
    }
  }

  lemma CandidateHasKey(b: Bucket, pkg: string, r: string) returns (k: string)
    requires BucketOk(b) && '@' !in pkg && '/' !in pkg && r in Candidates(b, pkg)
    ensures k in b && Folder(pkg, r) + "/" <= k && IsFullSemver(r)
  {
    hide Candidate, Child, Folder, IsFullSemver;
    var c :| c in Children(b, pkg + "@") && r == Candidate(pkg, c);
    k :| k in b && pkg + "@" <= k && c == Child(pkg + "@", k);
    ChildNamesVersion(pkg, k);
  }

  lemma StoredIsCandidate(b: Bucket, pkg: string, r: string, k: string)
    requires BucketOk(b) && '@' !in pkg && '/' !in pkg && IsFullSemver(r)
    requires k in b && Folder(pkg, r) + "/" <= k
    ensures r in Candidates(b, pkg)
  {
    FullIsClean(r);
    hide Candidate, Child, IsFullSemver, KeyName, KeyVersion, Folder, InIdentity;
    KeyParts(pkg, r, k);
    FolderStarts(pkg, r, k);
    ChildNamesVersion(pkg, k);
    assert Child(pkg + "@", k) in Children(b, pkg + "@");
  }

  lemma FullIsClean(r: string)
    requires IsFullSemver(r)
    ensures '/' !in r && '@' !in r && IsValid(r)
  {
    ValidAvoids(r, '/');
    ValidAvoids(r, '@');
  }

  lemma FolderStarts(pkg: string, r: string, k: string)
    requires Folder(pkg, r) + "/" <= k
    ensures pkg + "@" <= k
  {
    var tail := k[|Folder(pkg, r)| + 1..];
    assert k == (pkg + "@") + (r + "/" + tail);
  }

  lemma ChildNamesVersion(pkg: string, k: string)
    requires '@' !in pkg && '/' !in pkg && InIdentity(k) && pkg + "@" <= k
    ensures KeyName(k) == pkg && Candidate(pkg, Child(pkg + "@", k)) == KeyVersion(k)
    ensures Folder(pkg, KeyVersion(k)) + "/" <= k && IsFullSemver(KeyVersion(k))
  {
    hide Candidate, Child;
    var n, v := KeyName(k), KeyVersion(k);
    IdentityAvoids(n, v);
    assert Folder(n, v) <= k;
    NameIsPackage(pkg, n, v, k);
    var tail := k[|Folder(pkg, v)| + 1..];
    assert k == pkg + "@" + v + "/" + tail;
    ChildOfVersion(pkg, v, tail);
    CandidateOfChild(pkg, v);
  }

  lemma ChildOfVersion(pkg: string, v: string, tail: string)
    requires '/' !in v
    ensures Child(pkg + "@", pkg + "@" + v + "/" + tail) == pkg + "@" + v + "/"
  {
    var k := pkg + "@" + v + "/" + tail;
    var rest := k[|pkg + "@"|..];
    assert rest == v + ['/'] + tail;
    BeforeSeparator(v, tail, '/');
    assert rest[|v|] == '/';
  }

  lemma CandidateOfChild(pkg: string, v: string)
    ensures Candidate(pkg, pkg + "@" + v + "/") == v
  {
    var child := pkg + "@" + v + "/";
    assert child[|pkg + "@"|..] == v + "/";
    assert (v + "/")[|v|..] == "/" && (v + "/")[..|v|] == v;
  }

  lemma NameIsPackage(pkg: string, n: string, v: string, k: string)
    requires '@' !in pkg && '@' !in n && pkg + "@" <= k && Folder(n, v) <= k
    ensures n == pkg
  {
    var a, b := k[|pkg| + 1..], k[|n| + 1..];
    assert k == pkg + ['@'] + a;
    assert Folder(n, v)[|n|] == '@' && Folder(n, v)[..|n|] == n;
    assert k == n + ['@'] + b;
    BeforeSeparator(pkg, a, '@');
    BeforeSeparator(n, b, '@');
  }

  lemma StepKeepsCacheOk(s: State, cacheEnabled: bool, op: Op)
    requires BucketOk(s.bucket) && CacheOk(s) && (cacheEnabled || s.cache == map[]) && Allowed(op)
    ensures CacheOk(Step(s, cacheEnabled, op)) && (cacheEnabled || Step(s, cacheEnabled, op).cache == map[])
  {
    DisabledCacheStaysEmpty(s, cacheEnabled, op);
    hide EntryOk, InIdentity, IsIdentity, Folder, AfterGet, AfterDelete;
    match op
    case Create(name, version, added) =>
      if IsIdentity(name, version) && !Exists(s.bucket, Folder(name, version)) {
        forall k | k in s.cache
          ensures EntryOk(s.bucket + added, k, s.cache[k])
        {
          MoreObjectsKeepEntry(s.bucket, s.bucket + added, k, s.cache[k]);
        }
      }
    case Delete(name, version, refused) =>
      DeleteKeepsCacheOk(s, cacheEnabled, name, version, refused);
    case Get(pkg, version, file, setFails) =>
      GetKeepsCacheOk(s, cacheEnabled, pkg, version, file);
    case Evict(_) =>
  }

  lemma DisabledCacheStaysEmpty(s: State, cacheEnabled: bool, op: Op)
    requires cacheEnabled || s.cache == map[]
    ensures cacheEnabled || Step(s, cacheEnabled, op).cache == map[]
  {
    hide IsIdentity, Folder, IsPinned, IsRequestable, TargetPath;
  }

  lemma MoreObjectsKeepEntry(a: Bucket, b: Bucket, key: string, path: string)
    requires EntryOk(a, key, path) && forall k :: k in a ==> k in b
    ensures EntryOk(b, key, path)
  {
    hide Folder, VersionMatches, TrimLeft, KeyName, KeyVersion;
  }

  /** A read caches its own answer: the version it resolved to is stored. */
  lemma GetKeepsCacheOk(s: State, cacheEnabled: bool, pkg: string, version: string, file: string)
    requires BucketOk(s.bucket) && CacheOk(s)
    requires '@' !in pkg && '/' !in pkg && file != "" && file[0] == '/'
    ensures CacheOk(AfterGet(s, cacheEnabled, pkg, version, file))
  {
    hide EntryOk, InIdentity, TargetPath, IsPinned, CacheKey;
    var key := CacheKey(pkg, version, file);
    if IsRequestable(version) && !IsPinned(version) {
      FreshEntryOk(s.bucket, pkg, version, file);
    }
  }

  lemma FreshEntryOk(b: Bucket, pkg: string, version: string, file: string)
    requires BucketOk(b) && IsRequestable(version) && !IsPinned(version)
    requires '@' !in pkg && '/' !in pkg && file != "" && file[0] == '/'
    ensures EntryOk(b, CacheKey(pkg, version, file), TargetPath(b, pkg, version, file))
  {
    RequestableIsClean(version);
    var r := ResolveIn(b, pkg, version);
    if r.Some? {
      ResolvedIsStored(b, pkg, version);
    }
    var effective := if r.Some? then r.value else version;
    EntryParts(pkg, version, effective, file);
  }

  lemma RequestableIsClean(version: string)
    requires IsRequestable(version)
    ensures '/' !in version
  {
    if version != LATEST {
      ValidAvoids(version, '/');
    }
  }

  lemma ResolvedIsStored(b: Bucket, pkg: string, version: string)
    requires BucketOk(b) && '@' !in pkg && '/' !in pkg && ResolveIn(b, pkg, version).Some?
    ensures var r := ResolveIn(b, pkg, version).value;
            Exists(b, Folder(pkg, r)) && IsFullSemver(r) && VersionMatches(r, version) && '/' !in r
  {
    hide VersionMatches, IsFullSemver, Folder, Candidates, Resolve;
    var r := ResolveIn(b, pkg, version).value;
    ResolveIsHighest(Sorted(Candidates(b, pkg)), version);
    assert r in Sorted(Candidates(b, pkg)) by {
      HighestIsMatch(Sorted(Candidates(b, pkg)), version, r);
    }
    CandidatesAreStored(b, pkg, r);
    FullIsClean(r);
  }

  /** How a cache key and its path read back. */
  lemma EntryParts(pkg: string, req: string, r: string, file: string)
    requires '@' !in pkg && '/' !in pkg && '/' !in req && '/' !in r && file != "" && file[0] == '/'
    ensures var key := Folder(pkg, req) + file;
            && Folder(pkg, req) + "/" <= key && KeyName(key) == pkg && KeyVersion(key) == req
            && key[|Folder(pkg, req)|..] == file
    ensures var path := Folder(pkg, r) + "/" + TrimLeft(file, '/');
            Folder(pkg, r) + "/" <= path && KeyVersion(path) == r && KeyName(path) == pkg
  {
    hide KeyName, KeyVersion, TrimLeft;
    StartsWithSlash(Folder(pkg, req), file);
    KeyParts(pkg, req, Folder(pkg, req) + file);
    var path := Folder(pkg, r) + "/" + TrimLeft(file, '/');
    assert Folder(pkg, r) + "/" <= path;
    KeyParts(pkg, r, path);
  }

  lemma StartsWithSlash(folder: string, file: string)
    requires file != "" && file[0] == '/'
    ensures folder + "/" <= folder + file && (folder + file)[|folder|..] == file
  {
    assert file == "/" + file[1..];
    assert folder + file == (folder + "/") + file[1..];
  }

  /** A cache key of the deleted version or of any alias it matches is invalidated. */
  lemma MatchingKeyIsInvalidated(name: string, version: string, req: string, key: string)
    requires IsFullSemver(version) && (req == version || VersionMatches(version, req))
    requires Folder(name, req) <= key
    ensures exists i :: 0 <= i < |DeletedPrefixes(name, version)| && DeletedPrefixes(name, version)[i] <= key
  {
    hide Folder, IsFullSemver, Aliases;
    if req == version {
      assert DeletedPrefixes(name, version)[0] <= key;
    } else {
      AliasesCoverMatches(version, req);
      var i :| 0 <= i < |Aliases(version)| && Aliases(version)[i] == req;
      assert DeletedPrefixes(name, version)[i + 1] == Folder(name, req);
    }
  }

  /** Removing one version leaves every other stored. */
  lemma OtherVersionSurvives(b: Bucket, name: string, version: string, refused: set<string>, pkg: string, r: string)
    requires IsIdentity(name, version) && '@' !in pkg && '/' !in pkg && '/' !in r
    requires Exists(b, Folder(pkg, r)) && (pkg != name || r != version)
    ensures Exists(RemoveUnderExcept(b, Folder(name, version) + "/", refused), Folder(pkg, r))
  {
    IdentityAvoids(name, version);
    hide IsIdentity, Folder;
    var k :| k in b && Folder(pkg, r) + "/" <= k;
    if Folder(name, version) + "/" <= k {
      FoldersAreDisjoint(name, version, pkg, r, k);
    }
    assert k in RemoveUnderExcept(b, Folder(name, version) + "/", refused);
  }

  /** A deletion that was refused something leaves the version stored. */
  lemma RefusedVersionSurvives(b: Bucket, folder: string, refused: set<string>)
    requires !(Under(b, folder + "/") !! refused)
    ensures Exists(RemoveUnderExcept(b, folder + "/", refused), folder)
  {
    var k :| k in Under(b, folder + "/") && k in refused;
    assert k in RemoveUnderExcept(b, folder + "/", refused);
  }

  lemma EntryAfterDelete(s: State, name: string, version: string, refused: set<string>, key: string, path: string)
    requires IsIdentity(name, version) && EntryOk(s.bucket, key, path)
    requires Under(s.bucket, Folder(name, version) + "/") !! refused ==>
               forall i :: 0 <= i < |DeletedPrefixes(name, version)| ==> !(DeletedPrefixes(name, version)[i] <= key)
    ensures EntryOk(RemoveUnderExcept(s.bucket, Folder(name, version) + "/", refused), key, path)
  {
    var pkg, req, r := KeyName(key), KeyVersion(key), KeyVersion(path);
    if r != req {
      hide Folder, IsFullSemver, VersionMatches, KeyName, KeyVersion, TrimLeft, IsPackageName;
      if pkg != name || r != version {
        OtherVersionSurvives(s.bucket, name, version, refused, pkg, r);
      } else if !(Under(s.bucket, Folder(name, version) + "/") !! refused) {
        RefusedVersionSurvives(s.bucket, Folder(name, version), refused);
      } else {
        MatchingKeyIsInvalidated(name, version, req, key);
      }
    }
  }

  /** An entry whose version is deleted is invalidated with it; the others keep their version. */
  lemma DeleteKeepsCacheOk(s: State, cacheEnabled: bool, name: string, version: string, refused: set<string>)
    requires CacheOk(s) && (cacheEnabled || s.cache == map[])
    ensures CacheOk(AfterDelete(s, cacheEnabled, name, version, refused))
  {
    hide EntryOk, IsIdentity, Folder, DeletedPrefixes;
    var next := AfterDelete(s, cacheEnabled, name, version, refused);
    if IsIdentity(name, version) {
      forall k | k in next.cache
        ensures EntryOk(next.bucket, k, next.cache[k])
      {
        EntryAfterDelete(s, name, version, refused, k, s.cache[k]);
      }
    }
  }

  /** Main result on the cache. From any sound state, after any run, every entry pkg@req/file
      points at pkg@r/file where r is req itself or a stored version that req matches. Failed
      deletions and rolled-back or half-rolled-back uploads included. */
  lemma {:induction false} AliasesNeverDangle(s: State, cacheEnabled: bool, ops: seq<Op>)
    requires BucketOk(s.bucket) && CacheOk(s) && (cacheEnabled || s.cache == map[])
    requires forall i :: 0 <= i < |ops| ==> Allowed(ops[i])
    ensures BucketOk(Run(s, cacheEnabled, ops).bucket) && CacheOk(Run(s, cacheEnabled, ops))
    decreases |ops|
  {
    hide CacheOk, BucketOk, Allowed, Step;
    if ops != [] {
      StepKeepsBucketOk(s, cacheEnabled, ops[0]);
      StepKeepsCacheOk(s, cacheEnabled, ops[0]);
      AliasesNeverDangle(Step(s, cacheEnabled, ops[0]), cacheEnabled, ops[1..]);
    }
  }

  lemma EmptyStateOk()
    ensures BucketOk(map[]) && CacheOk(State(map[], map[]))
  {
  }

  /** In particular from an empty store and cache. */
  lemma NoAliasEverDangles(cacheEnabled: bool, ops: seq<Op>, key: string)
    requires forall i :: 0 <= i < |ops| ==> Allowed(ops[i])
    ensures var s := Run(State(map[], map[]), cacheEnabled, ops);
            key in s.cache ==> EntryOk(s.bucket, key, s.cache[key])
  {
    hide Run, Allowed, EntryOk, BucketOk;
    EmptyStateOk();
    AliasesNeverDangle(State(map[], map[]), cacheEnabled, ops);
  }

  /** Right after a version is deleted, no cached path lies in its folder. */
  lemma NothingPointsAtDeleted(s: State, name: string, version: string, refused: set<string>, key: string)
    requires CacheOk(s) && IsIdentity(name, version) && Under(s.bucket, Folder(name, version) + "/") !! refused
    ensures var next := Step(s, true, Delete(name, version, refused));
            key in next.cache ==> !(Folder(name, version) + "/" <= next.cache[key])
  {
    hide Step, DeletedPrefixes, IsIdentity, Folder, Under, EntryOk, CacheOk, Invalidate;
    var next := Step(s, true, Delete(name, version, refused));
    DeletedIsInvalidated(s, name, version, refused);
    if key in next.cache && Folder(name, version) + "/" <= next.cache[key] {
      KeptEntry(s, DeletedPrefixes(name, version), key);
      PointsAtDeleted(s.bucket, name, version, key, s.cache[key]);
    }
  }

  lemma KeptEntry(s: State, prefixes: seq<string>, key: string)
    requires CacheOk(s) && key in Invalidate(s.cache, prefixes)
    ensures key in s.cache && Invalidate(s.cache, prefixes)[key] == s.cache[key] && EntryOk(s.bucket, key, s.cache[key])
    ensures forall i :: 0 <= i < |prefixes| ==> !(prefixes[i] <= key)
  {
    hide EntryOk;
  }

  lemma DeletedIsInvalidated(s: State, name: string, version: string, refused: set<string>)
    requires IsIdentity(name, version) && Under(s.bucket, Folder(name, version) + "/") !! refused
    ensures Step(s, true, Delete(name, version, refused)).cache == Invalidate(s.cache, DeletedPrefixes(name, version))
  {
    hide IsIdentity, Folder, Under, DeletedPrefixes, Invalidate, RemoveUnderExcept;
  }

  lemma PointsAtDeleted(b: Bucket, name: string, version: string, key: string, path: string)
    requires IsIdentity(name, version) && EntryOk(b, key, path) && Folder(name, version) + "/" <= path
    ensures exists i :: 0 <= i < |DeletedPrefixes(name, version)| && DeletedPrefixes(name, version)[i] <= key
  {
    var pkg, req, r := KeyName(key), KeyVersion(key), KeyVersion(path);
    IdentityAvoids(name, version);
    hide Folder, IsPackageName, VersionMatches, KeyName, KeyVersion, TrimLeft, IsFullSemver;
    assert Folder(pkg, r) + "/" <= path;
    FoldersAreDisjoint(name, version, pkg, r, path);
    assert Folder(pkg, req) <= Folder(pkg, req) + "/";
    MatchingKeyIsInvalidated(name, version, req, key);
  }
}
