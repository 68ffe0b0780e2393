/** The package content service of internal/content/content-service.go as an object over a
    bucket and an alias cache: resolving, reading, listing and deleting one version. */
module Service {
  import opened Strings
  import opened Semver
  import opened Encodings
  import opened ObjectStore
  import opened Paging
  import Versions
  import Precedence
  import Listing
  import Cache

  // ---------------------------------------------------------------- resolving on a bucket

  function TrimSuffix(s: string, p: string): string
  {
    if HasSuffix(s, p) then s[..|s| - |p|] else s
  }

  function TrimLeft(s: string, c: char): string
  {
    if s != [] && s[0] == c then TrimLeft(s[1..], c) else s
  }

  function Candidate(pkg: string, child: string): string
  {
    TrimSuffix(TrimPrefix(child, pkg + "@"), "/")
  }

  function Candidates(b: Bucket, pkg: string): set<string>
  {
    set c | c in Children(b, pkg + "@") :: Candidate(pkg, c)
  }

  /** The version an alias stands for in a bucket. */
  ghost function ResolveIn(b: Bucket, pkg: string, requested: string): Option<string>
  {
    Versions.Resolve(Sorted(Candidates(b, pkg)), requested)
  }

  /** The object key a request addresses when no cached answer is used. */
  ghost function TargetPath(b: Bucket, pkg: string, version: string, file: string): string
  {
    if IsPinned(version) then Versions.Folder(pkg, version) + file
    else
      var r := ResolveIn(b, pkg, version);
      Versions.Folder(pkg, if r.Some? then r.value else version) + "/" + TrimLeft(file, '/')
  }

  /** The stored representation chosen for a path: the first accepted encoding that is stored,
      else the identity, stored or not. */
  function Representation(b: Bucket, table: string -> bool, path: string, file: string, accepted: seq<Encoding>): Option<Encoding>
  {
    if !Compressible(table, file) || accepted == [] then None
    else if path + Suffix(accepted[0]) in b then Some(accepted[0])
    else Representation(b, table, path, file, accepted[1..])
  }

  datatype Reply = InvalidVersion | Handle(path: string, encoding: Option<Encoding>)

  // ---------------------------------------------------------------- one call as a state change

  datatype State = State(bucket: Bucket, cache: map<string, string>)

  function CacheKey(pkg: string, version: string, file: string): string
  {
    Versions.Folder(pkg, version) + file
  }

  predicate IsRequestable(version: string)
  {
    version == Versions.LATEST || IsValid(version)
  }

  /** The object key a read addresses: the cached answer for an alias, if there is one. */
  ghost function Addressed(s: State, cacheEnabled: bool, pkg: string, version: string, file: string): string
  {
    var key := CacheKey(pkg, version, file);
    if !IsPinned(version) && cacheEnabled && key in s.cache then s.cache[key]
    else TargetPath(s.bucket, pkg, version, file)
  }

  /** What a read does to the state: an alias answered afresh is remembered. */
  ghost function AfterGet(s: State, cacheEnabled: bool, pkg: string, version: string, file: string): State
  {
    var key := CacheKey(pkg, version, file);
    if !IsRequestable(version) || IsPinned(version) || !cacheEnabled || key in s.cache then s
    else s.(cache := s.cache[key := TargetPath(s.bucket, pkg, version, file)])
  }

  function Invalidate(cache: map<string, string>, prefixes: seq<string>): map<string, string>
  {
    map k | k in cache && (forall i :: 0 <= i < |prefixes| ==> !(prefixes[i] <= k)) :: cache[k]
  }

  /** The key prefixes a deletion invalidates: the version itself and its aliases. */
  function DeletedPrefixes(pkg: string, version: string): seq<string>
  {
    [Versions.Folder(pkg, version)] +
    seq(|Versions.Aliases(version)|, i requires 0 <= i < |Versions.Aliases(version)| =>
      Versions.Folder(pkg, Versions.Aliases(version)[i]))
  }

  /** What a deletion does to the state; `refused` are the objects the backend keeps. */
  function AfterDelete(s: State, cacheEnabled: bool, pkg: string, version: string, refused: set<string>): State
  {
    if !Versions.IsIdentity(pkg, version) then s
    else
      var folder := Versions.Folder(pkg, version) + "/";
      var bucket := RemoveUnderExcept(s.bucket, folder, refused);
      if !(Under(s.bucket, folder) !! refused) || !cacheEnabled then s.(bucket := bucket)
      else State(bucket, Invalidate(s.cache, DeletedPrefixes(pkg, version)))
  }

  /** Resolution over the children of a bucket in any order is resolution in the bucket. */
  lemma CandidatesFromListing(b: Bucket, pkg: string, prefixes: seq<string>, candidates: seq<string>, requested: string)
    requires forall p :: p in prefixes <==> p in Children(b, pkg + "@")
    requires |candidates| == |prefixes| && forall j :: 0 <= j < |prefixes| ==> candidates[j] == Candidate(pkg, prefixes[j])
    ensures Versions.Resolve(candidates, requested) == ResolveIn(b, pkg, requested)
  {
    forall v
      ensures v in candidates <==> v in Sorted(Candidates(b, pkg))
    {
      if v in candidates {
        var j :| 0 <= j < |candidates| && candidates[j] == v;
        assert prefixes[j] in prefixes;
      }
      if v in Candidates(b, pkg) {
        var c :| c in Children(b, pkg + "@") && v == Candidate(pkg, c);
        var j :| 0 <= j < |prefixes| && prefixes[j] == c;
        assert candidates[j] == v;
      }
    }
    Versions.ResolveIgnoresOrder(candidates, Sorted(Candidates(b, pkg)), requested);
  }

  /** Resolution in a bucket answers exactly if some candidate matches, and answers one that does. */
  lemma ResolvedIff(b: Bucket, pkg: string, version: string)
    ensures var r := ResolveIn(b, pkg, version);
            && (r.Some? <==> exists m :: m in Candidates(b, pkg) && Versions.VersionMatches(m, version))
            && (r.Some? ==> r.value in Candidates(b, pkg) && Versions.VersionMatches(r.value, version))
  {
    hide Versions.VersionMatches, Candidates, Versions.Resolve, Versions.IsHighestMatch;
    var candidates := Sorted(Candidates(b, pkg));
    Versions.ResolveIsHighest(candidates, version);
    if ResolveIn(b, pkg, version).Some? {
      Versions.HighestIsMatch(candidates, version, ResolveIn(b, pkg, version).value);
    }
  }

  /** Resolution in a bucket, on texts. */
  lemma ResolvedOnTexts(b: Bucket, pkg: string, version: string)
    ensures var r := ResolveIn(b, pkg, version);
            forall m :: m in Candidates(b, pkg) && Versions.VersionMatches(m, version) ==>
              r.Some? && Versions.VersionMatches(r.value, version) && !Precedence.Below(Parse(r.value).value, Parse(m).value)
  {
    hide Versions.VersionMatches, Precedence.Below, Candidates, Versions.Resolve;
    var candidates := Sorted(Candidates(b, pkg));
    forall m | m in Candidates(b, pkg) && Versions.VersionMatches(m, version)
      ensures var r := Versions.Resolve(candidates, version);
              r.Some? && Versions.VersionMatches(r.value, version) && !Precedence.Below(Parse(r.value).value, Parse(m).value)
    {
      assert m in candidates;
      Precedence.ResolvedIsNotBelow(candidates, version, m);
    }
  }

  datatype DeleteResult = BadRequest | StorageError | Deleted

  class ContentService {
    const storage: ObjectStorage
    const cache: Cache.RedisCache
    const cacheEnabled: bool
    const table: string -> bool
    const glob: (string, string) -> bool

    constructor (storage: ObjectStorage, cache: Cache.RedisCache, cacheEnabled: bool,
                 table: string -> bool, glob: (string, string) -> bool)
      ensures this.storage == storage && this.cache == cache && this.cacheEnabled == cacheEnabled
      ensures this.table == table && this.glob == glob
    {
      this.storage, this.cache, this.cacheEnabled := storage, cache, cacheEnabled;
      this.table, this.glob := table, glob;
    }

    /** `resolveVersion` (content-service.go:115-129). */
    method ResolveVersion(pkg: string, version: string) returns (r: Option<string>)
      ensures r == ResolveIn(storage.objects, pkg, version)
      ensures r.Some? <==> exists m :: m in Candidates(storage.objects, pkg) && Versions.VersionMatches(m, version)
      ensures r.Some? ==> r.value in Candidates(storage.objects, pkg) && Versions.VersionMatches(r.value, version)
      ensures forall m :: m in Candidates(storage.objects, pkg) && Versions.VersionMatches(m, version) ==>
                r.Some? && !Precedence.Below(Parse(r.value).value, Parse(m).value)
    {
      ResolvedIff(storage.objects, pkg, version);
      ResolvedOnTexts(storage.objects, pkg, version);
      var prefixes := storage.ListCommonPrefixes(pkg + "@");
      var versions := CollectMatches(pkg, prefixes, version);
      CandidatesFromListing(storage.objects, pkg, prefixes, CandidateNames(pkg, prefixes), version);
      var sorted := Sort(versions);
      assert |sorted| == |multiset(sorted)| == |multiset(versions)| == |versions|;
      if |versions| == 0 {
        return None;
      }
      return Some(sorted[|sorted| - 1].text);
    }

    /** `ListVersions` (content-service.go:132-151); `prefixes` is the order of the listing. */
    method ListVersions(pkg: string) returns (versions: seq<string>, ghost prefixes: seq<string>)
      ensures !Versions.IsPackageName(pkg) ==> versions == []
      ensures Versions.IsPackageName(pkg) ==>
                && (forall p :: p in prefixes <==> p in Children(storage.objects, pkg + "@"))
                && versions == Texts(Versions.Listed(CandidateNames(pkg, prefixes)))
    {
      prefixes := [];
      if !Versions.IsPackageName(pkg) {
        return [], [];
      }
      var listed := storage.ListCommonPrefixes(pkg + "@");
      prefixes := listed;
      var full := CollectFull(pkg, listed);
      versions := TextsOf(Versions.Reversed(Sort(full)));
    }

    /** `getEncodedObject` (content-service.go:355-371). */
    method GetEncodedObject(path: string, file: string, accepted: seq<Encoding>) returns (r: Reply)
      ensures r == Handle(path, Representation(storage.objects, table, path, file, accepted))
    {
      if Compressible(table, file) {
        for i := 0 to |accepted|
          invariant Representation(storage.objects, table, path, file, accepted) ==
                    Representation(storage.objects, table, path, file, accepted[i..])
        {
          assert accepted[i..][1..] == accepted[i + 1..];
          if path + Suffix(accepted[i]) in storage.objects {
            return Handle(path, Some(accepted[i]));
          }
        }
      }
      return Handle(path, None);
    }

    /** `GetFile` (content-service.go:295-342). A handle is returned whether or not the identity
        object exists; `setFails` is a cache write the backend refuses. */
    method GetFile(pkg: string, version: string, file: string, accepted: seq<Encoding>, setFails: bool) returns (r: Reply)
      modifies cache
      ensures !IsRequestable(version) ==> r == InvalidVersion
      ensures var s := State(storage.objects, old(cache.entries));
              && (IsRequestable(version) ==>
                   var path := Addressed(s, cacheEnabled, pkg, version, file);
                   r == Handle(path, Representation(storage.objects, table, path, file, accepted)))
              && cache.entries == (if setFails then s else AfterGet(s, cacheEnabled, pkg, version, file)).cache
    {
      if version != Versions.LATEST && !IsValid(version) {
        return InvalidVersion;
      }
      var pinned := IsPinned(version);
      var cacheKey := CacheKey(pkg, version, file);
      if !pinned && cacheEnabled {
        var hit := cache.Get(cacheKey);
        if hit.Some? {
          r := GetEncodedObject(hit.value, file, accepted);
          return;
        }
      }
      var objectPath;
      if pinned {
        objectPath := cacheKey;
      } else {
        var resolved := ResolveVersion(pkg, version);
        var effective := if resolved.Some? then resolved.value else version;
        objectPath := Versions.Folder(pkg, effective) + "/" + TrimLeft(file, '/');
      }
      r := GetEncodedObject(objectPath, file, accepted);
      if !pinned && cacheEnabled && !setFails {
        cache.Set(cacheKey, objectPath);
      }
    }

    /** `DeletePackage` (content-service.go:498-530). `refused` are the objects the backend does
        not delete, `pages` the server's scan order of the cache, and `outage` the page at which
        the cache call for a prefix fails, which the caller is not told. Without an outage the
        new state is that of a deletion in the sequential runs. */
    method DeletePackage(pkg: string, version: string, refused: set<string>, pages: seq<set<string>>, outage: string -> nat)
      returns (r: DeleteResult)
      requires Cache.GlobLaw(glob)
      modifies storage, cache
      ensures var before := State(old(storage.objects), old(cache.entries));
              && storage.objects == AfterDelete(before, cacheEnabled, pkg, version, refused).bucket
              && cache.entries == (if r.Deleted? && cacheEnabled then Swept(before.cache, DeletedPrefixes(pkg, version), pages, outage) else before.cache)
              && (NoOutage(before.cache, DeletedPrefixes(pkg, version), pages, outage) ==>
                   State(storage.objects, cache.entries) == AfterDelete(before, cacheEnabled, pkg, version, refused))
      ensures r.BadRequest? <==> !Versions.IsIdentity(pkg, version)
      ensures r.Deleted? <==> Versions.IsIdentity(pkg, version)
                              && Under(old(storage.objects), Versions.Folder(pkg, version) + "/") !! refused
    {
      hide Swept, NoOutage, DeletedPrefixes, Invalidate, Versions.IsIdentity;
      if !Versions.IsIdentity(pkg, version) {
        return BadRequest;
      }
      var prefix := Versions.Folder(pkg, version);
      var ok := storage.RemoveObjects(prefix + "/", refused);
      if !ok {
        return StorageError;
      }
      if cacheEnabled {
        if NoOutage(cache.entries, DeletedPrefixes(pkg, version), pages, outage) {
          SweptIsInvalidated(cache.entries, DeletedPrefixes(pkg, version), pages, outage);
        }
        InvalidateVersion(cache, glob, pkg, version, pages, outage);
      }
      return Deleted;
    }

    /** `GetFiles` (content-service.go:374-443): one page of the files of a version. */
    method GetFiles(pkg: string, version: string, after: string, limit: nat) returns (r: FileListing)
      requires limit >= 1
      ensures var b := storage.objects;
              var resolved := if IsPinned(version) then Some(version) else ResolveIn(b, pkg, version);
              if resolved.None? then r == FileListing(version, [], "", false, 0, false)
              else
                var l := KeysUnder(b, Versions.Folder(pkg, resolved.value) + "/");
                var page := Listing.PageAt(table, l, after, limit);
                && r.version == resolved.value
                && Names(r.files) == page.files && r.next == page.next && r.hasMore == page.hasMore
                && (forall i :: 0 <= i < |r.files| ==> r.files[i].name in b && r.files[i].size == |b[r.files[i].name].data|)
                && r.total == |r.files|
                && (r.totalKnown <==> after == "" && |l| <= limit && !r.hasMore)
                && (r.totalKnown ==> Names(r.files) == Listing.Visible(table, l) && r.total == |Listing.Visible(table, l)|)
    {
      hide IsPinned, ResolveIn, Listing.PageAt, Sorted, Under, Candidates, Versions.VersionMatches, Precedence.Below;
      var effective := version;
      if !IsPinned(version) {
        var resolved := ResolveVersion(pkg, version);
        if resolved.None? {
          return FileListing(version, [], "", false, 0, false);
        }
        effective := resolved.value;
      }
      var collected, singlePage := CollectPage(storage, table, Versions.Folder(pkg, effective) + "/", after, limit);
      UnderIsListing(storage.objects, Versions.Folder(pkg, effective) + "/");
      Listing.FirstPageIsExact(table, KeysUnder(storage.objects, Versions.Folder(pkg, effective) + "/"), limit);
      hide Listing.Visible, KeysUnder;
      r := ListingOf(effective, collected, singlePage, limit);
    }
  }

  function Texts(vs: seq<Ranked>): seq<string>
  {
    seq(|vs|, i requires 0 <= i < |vs| => vs[i].text)
  }

  lemma FullStep(all: seq<string>, i: nat, candidate: string)
    requires i < |all| && all[i] == candidate
    ensures Versions.FullOnes(all[..i + 1]) ==
            Versions.FullOnes(all[..i]) + (if IsFullSemver(candidate) then [RankedOf(candidate)] else [])
  {
    assert all[..i + 1] == all[..i] + [candidate];
    Versions.FullAppend(all[..i], candidate);
  }

  method TextsOf(vs: seq<Ranked>) returns (texts: seq<string>)
    ensures texts == Texts(vs)
  {
    texts := [];
    for i := 0 to |vs|
      invariant |texts| == i && forall j :: 0 <= j < i ==> texts[j] == vs[j].text
    {
      texts := texts + [vs[i].text];
    }
  }

  method CollectFull(pkg: string, prefixes: seq<string>) returns (versions: seq<Ranked>)
    ensures versions == Versions.FullOnes(CandidateNames(pkg, prefixes))
  {
    ghost var all := CandidateNames(pkg, prefixes);
    versions := [];
    for i := 0 to |prefixes|
      invariant versions == Versions.FullOnes(all[..i])
    {
      var candidate := Candidate(pkg, prefixes[i]);
      FullStep(all, i, candidate);
      if IsFullSemver(candidate) {
        versions := versions + [RankedOf(candidate)];
      }
    }
    assert all[..|prefixes|] == all;
  }

  /** What the cache calls for some prefixes leave when each may stop at a failing page. */
  function Swept(cache: map<string, string>, prefixes: seq<string>, pages: seq<set<string>>, outage: string -> nat): map<string, string>
  {
    map k | k in cache && (forall i :: 0 <= i < |prefixes| ==> !(prefixes[i] <= k && Cache.OnPages(pages, outage(prefixes[i]), k))) :: cache[k]
  }

  /** Every scan runs to its end and hands out every key. */
  ghost predicate NoOutage(cache: map<string, string>, prefixes: seq<string>, pages: seq<set<string>>, outage: string -> nat)
  {
    && (forall i :: 0 <= i < |prefixes| ==> outage(prefixes[i]) >= |pages|)
    && (forall k :: k in cache ==> exists i :: 0 <= i < |pages| && k in pages[i])
  }

  lemma SweptIsInvalidated(cache: map<string, string>, prefixes: seq<string>, pages: seq<set<string>>, outage: string -> nat)
    requires NoOutage(cache, prefixes, pages, outage)
    ensures Swept(cache, prefixes, pages, outage) == Invalidate(cache, prefixes)
  {
    forall k, i | k in cache && 0 <= i < |prefixes|
      ensures Cache.OnPages(pages, outage(prefixes[i]), k)
    {
      var j :| 0 <= j < |pages| && k in pages[j];
    }
  }

  lemma SweptStep(cache: map<string, string>, glob: (string, string) -> bool, prefixes: seq<string>, p: string, pages: seq<set<string>>, outage: string -> nat)
    requires Cache.GlobLaw(glob) && Cache.IsLiteral(p)
    ensures Cache.WithoutScanned(Swept(cache, prefixes, pages, outage), glob, p + "*", pages, outage(p)) == Swept(cache, prefixes + [p], pages, outage)
  {
    hide Cache.IsLiteral, Cache.OnPages;
    var all := prefixes + [p];
    forall k | k in cache
      ensures (forall i :: 0 <= i < |all| ==> !(all[i] <= k && Cache.OnPages(pages, outage(all[i]), k))) <==>
              (forall i :: 0 <= i < |prefixes| ==> !(prefixes[i] <= k && Cache.OnPages(pages, outage(prefixes[i]), k)))
              && !(p <= k && Cache.OnPages(pages, outage(p), k))
    {
      SweptKey(prefixes, p, pages, outage, k);
    }
    assert forall k :: glob(p + "*", k) <==> p <= k;
  }

  lemma SweptKey(prefixes: seq<string>, p: string, pages: seq<set<string>>, outage: string -> nat, k: string)
    ensures var all := prefixes + [p];
            (forall i :: 0 <= i < |all| ==> !(all[i] <= k && Cache.OnPages(pages, outage(all[i]), k))) <==>
            (forall i :: 0 <= i < |prefixes| ==> !(prefixes[i] <= k && Cache.OnPages(pages, outage(prefixes[i]), k)))
            && !(p <= k && Cache.OnPages(pages, outage(p), k))
  {
    hide Cache.OnPages;
    var all := prefixes + [p];
    assert all[|prefixes|] == p;
    assert forall i :: 0 <= i < |prefixes| ==> all[i] == prefixes[i];
  }

  /** The cache calls of a deletion: the version's own prefix, then every alias prefix. A call
      that fails does not stop the others. */
  method InvalidateVersion(cache: Cache.RedisCache, glob: (string, string) -> bool, pkg: string, version: string,
                           pages: seq<set<string>>, outage: string -> nat)
    requires Cache.GlobLaw(glob) && Versions.IsIdentity(pkg, version)
    modifies cache
    ensures cache.entries == Swept(old(cache.entries), DeletedPrefixes(pkg, version), pages, outage)
  {
    hide Versions.Aliases, IsFullSemver, Versions.IsPackageName, Cache.IsLiteral, Versions.Folder, Cache.OnPages, Cache.WithoutScanned, Cache.GlobLaw;
    ghost var c := cache.entries;
    ghost var all := DeletedPrefixes(pkg, version);
    var prefix := Versions.Folder(pkg, version);
    PrefixesAreLiteral(pkg, version);
    assert all[0] == prefix;
    SweptNothing(c, pages, outage);
    hide Swept;
    SweptStep(c, glob, [], prefix, pages, outage);
    assert [] + [prefix] == all[..1];
    var _ := cache.DeleteByPrefix(prefix, glob, pages, outage(prefix));
    var aliases := Versions.MutableAliasPrefixes(pkg, version);
    for i := 0 to |aliases|
      invariant cache.entries == Swept(c, all[..i + 1], pages, outage)
    {
      assert aliases[i] == all[i + 1];
      assert all[..i + 2] == all[..i + 1] + [all[i + 1]];
      SweptStep(c, glob, all[..i + 1], aliases[i], pages, outage);
      var _ := cache.DeleteByPrefix(aliases[i], glob, pages, outage(aliases[i]));
    }
    assert all[..|aliases| + 1] == all;
  }

  lemma SweptNothing(c: map<string, string>, pages: seq<set<string>>, outage: string -> nat)
    ensures Swept(c, [], pages, outage) == c
  {
  }

  lemma PrefixesAreLiteral(pkg: string, version: string)
    requires Versions.IsIdentity(pkg, version)
    ensures forall i :: 0 <= i < |DeletedPrefixes(pkg, version)| ==> Cache.IsLiteral(DeletedPrefixes(pkg, version)[i])
  {
    Cache.VersionIsLiteral(version);
    Cache.FolderIsLiteral(pkg, version);
    forall i | 0 <= i < |Versions.Aliases(version)|
      ensures Cache.IsLiteral(Versions.Folder(pkg, Versions.Aliases(version)[i]))
    {
      Cache.AliasesAreLiteral(version, i);
      Cache.FolderIsLiteral(pkg, Versions.Aliases(version)[i]);
    }
  }

  function CandidateNames(pkg: string, prefixes: seq<string>): (r: seq<string>)
    ensures |r| == |prefixes| && forall j :: 0 <= j < |prefixes| ==> r[j] == Candidate(pkg, prefixes[j])
  {
    seq(|prefixes|, j requires 0 <= j < |prefixes| => Candidate(pkg, prefixes[j]))
  }

  method CollectMatches(pkg: string, prefixes: seq<string>, version: string) returns (versions: seq<Ranked>)
    ensures versions == Versions.Matching(CandidateNames(pkg, prefixes), version)
  {
    ghost var all := CandidateNames(pkg, prefixes);
    versions := [];
    for i := 0 to |prefixes|
      invariant versions == Versions.Matching(all[..i], version)
    {
      var candidate := Candidate(pkg, prefixes[i]);
      MatchStep(all, i, candidate, version);
      if Versions.VersionMatches(candidate, version) {
        versions := versions + [RankedOf(candidate)];
      }
    }
    assert all[..|prefixes|] == all;
  }

  lemma MatchStep(all: seq<string>, i: nat, candidate: string, version: string)
    requires i < |all| && all[i] == candidate
    ensures Versions.Matching(all[..i + 1], version) ==
            Versions.Matching(all[..i], version) + (if Versions.VersionMatches(candidate, version) then [RankedOf(candidate)] else [])
  {
    assert all[..i + 1] == all[..i] + [candidate];
    Versions.MatchingAppend(all[..i], candidate, version);
  }
}
