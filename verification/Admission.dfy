/** What `CreatePackage` checks before it uploads, and what the checks guarantee about the
    upload: internal/content/archive-keys.go:220-245 and content-service.go:153-190. */
module Admission {
  import opened Archive
  import opened ObjectStore
  import ArchiveLaws
  import Paths
  import Runs
  import Semver
  import Service
  import Upload
  import Versions

  const MAX_INT64 := 0x7FFF_FFFF_FFFF_FFFF

  /** A non-positive limit disables its check. */
  datatype Limits = Limits(maxSize: int, maxEntries: int, maxUncompressedSize: int)

  function FileCount(entries: seq<ZipEntry>): nat
  {
    if entries == [] then 0 else (if IsFile(entries[0]) then 1 else 0) + FileCount(entries[1..])
  }

  /** The declared sizes of the file entries, summed without bound. */
  function TotalSize(entries: seq<ZipEntry>): nat
  {
    if entries == [] then 0 else (if IsFile(entries[0]) then entries[0].size else 0) + TotalSize(entries[1..])
  }

  lemma {:induction false} CountsOfConcat(a: seq<ZipEntry>, b: seq<ZipEntry>)
    ensures FileCount(a + b) == FileCount(a) + FileCount(b)
    ensures TotalSize(a + b) == TotalSize(a) + TotalSize(b)
  {
    if a == [] {
      assert a + b == b;
    } else {
      assert (a + b)[0] == a[0] && (a + b)[1..] == a[1..] + b;
      CountsOfConcat(a[1..], b);
    }
  }

  lemma CountsNext(entries: seq<ZipEntry>, i: nat)
    requires i < |entries|
    ensures FileCount(entries[..i + 1]) == FileCount(entries[..i]) + (if IsFile(entries[i]) then 1 else 0)
    ensures TotalSize(entries[..i + 1]) == TotalSize(entries[..i]) + (if IsFile(entries[i]) then entries[i].size else 0)
  {
    assert entries[..i + 1] == entries[..i] + [entries[i]];
    CountsOfConcat(entries[..i], [entries[i]]);
    assert [entries[i]][1..] == [];
  }

  predicate WithinLimits(limits: Limits, entries: seq<ZipEntry>)
  {
    && (limits.maxEntries > 0 ==> FileCount(entries) <= limits.maxEntries)
    && (limits.maxUncompressedSize > 0 ==> TotalSize(entries) <= limits.maxUncompressedSize)
  }

  /** `checkArchiveLimits` (archive-keys.go:223-245) on 64-bit sizes: the saturating sum decides
      exactly as the unbounded one would. */
  method CheckArchiveLimits(limits: Limits, entries: seq<ZipEntry>) returns (tooLarge: bool)
    requires forall i :: 0 <= i < |entries| ==> entries[i].size <= MAX_UINT64
    requires limits.maxUncompressedSize <= MAX_INT64
    ensures tooLarge <==> !WithinLimits(limits, entries)
    ensures tooLarge <==> 0 < limits.maxEntries < FileCount(entries) || 0 < limits.maxUncompressedSize < TotalSize(entries)
  {
    hide IsFile;
    var entryCount, uncompressedSize := 0, 0;
    for i := 0 to |entries|
      invariant entryCount == FileCount(entries[..i])
      invariant uncompressedSize == if TotalSize(entries[..i]) <= MAX_UINT64 then TotalSize(entries[..i]) else MAX_UINT64
    {
      CountsNext(entries, i);
      if !IsFile(entries[i]) {
        continue;
      }
      entryCount := entryCount + 1;
      if MAX_UINT64 - uncompressedSize < entries[i].size {
        uncompressedSize := MAX_UINT64;
      } else {
        uncompressedSize := uncompressedSize + entries[i].size;
      }
    }
    assert entries[..|entries|] == entries;
    if limits.maxEntries > 0 && entryCount > limits.maxEntries {
      return true;
    }
    if limits.maxUncompressedSize > 0 && uncompressedSize > limits.maxUncompressedSize {
      return true;
    }
    return false;
  }

  // ---------------------------------------------------------------- size of what is kept

  function FileSizes(files: seq<ArchiveFile>): nat
  {
    if files == [] then 0 else files[0].file.size + FileSizes(files[1..])
  }

  lemma {:induction false} FilesAreCounted(entries: seq<ZipEntry>)
    ensures |Collect(entries, ToFile)| <= FileCount(entries)
    ensures FileSizes(Collect(entries, ToFile)) <= TotalSize(entries)
  {
    if entries != [] {
      FilesAreCounted(entries[1..]);
      var rest := Collect(entries[1..], ToFile);
      if ToFile(entries[0]).Some? {
        assert ([ToFile(entries[0]).value] + rest)[1..] == rest;
      } else {
        assert [] + rest == rest;
      }
    }
  }

  lemma {:induction false} KeptIsSmaller(matches: Matcher, files: seq<ArchiveFile>, g: Ignore)
    ensures FileSizes(Collect(files, KeepUnless(matches, g))) <= FileSizes(files)
  {
    if files != [] {
      KeptIsSmaller(matches, files[1..], g);
      var keep := KeepUnless(matches, g);
      var rest := Collect(files[1..], keep);
      if keep(files[0]).Some? {
        assert ([files[0]] + rest)[1..] == rest;
      } else {
        assert [] + rest == rest;
      }
    }
  }

  function ObjectSizes(objects: seq<ArchiveObject>): nat
  {
    if objects == [] then 0 else objects[0].file.size + ObjectSizes(objects[1..])
  }

  lemma {:induction false} ObjectSizesAre(files: seq<ArchiveFile>, wrapper: Semver.Option<string>, folder: string)
    ensures ObjectSizes(ObjectsOf(files, wrapper, folder)) == FileSizes(files)
  {
    if files != [] {
      ObjectSizesAre(files[1..], wrapper, folder);
      assert ObjectsOf(files, wrapper, folder)[1..] == ObjectsOf(files[1..], wrapper, folder);
    }
  }

  /** Accepted objects are no more, and no larger, than the file entries of the archive. */
  lemma AcceptedIsCounted(matches: Matcher, entries: seq<ZipEntry>, folder: string)
    requires Keys(matches, entries, folder).Ok?
    ensures |Keys(matches, entries, folder).value| <= FileCount(entries)
    ensures ObjectSizes(Keys(matches, entries, folder).value) <= TotalSize(entries)
  {
    var files := Validated(entries).value;
    var kept := Publishable(matches, files).value;
    FilesAreCounted(entries);
    ArchiveLaws.PublishableIsPart(matches, files);
    if IgnoreOf(files).Some? {
      KeptIsSmaller(matches, files, IgnoreOf(files).value);
    }
    ObjectSizesAre(kept, Wrapper(kept), folder);
  }

  lemma {:induction false} AllAreCounted(entries: seq<ZipEntry>)
    requires forall e :: e in entries && IsFile(e) ==> !IsArchiveJunk(Paths.Clean(e.name))
    ensures |Collect(entries, ToFile)| == FileCount(entries)
    ensures FileSizes(Collect(entries, ToFile)) == TotalSize(entries)
  {
    hide IsFile, IsArchiveJunk, Paths.Clean;
    if entries != [] {
      assert entries[0] in entries && forall e :: e in entries[1..] ==> e in entries;
      AllAreCounted(entries[1..]);
      var rest := Collect(entries[1..], ToFile);
      if ToFile(entries[0]).Some? {
        assert ([ToFile(entries[0]).value] + rest)[1..] == rest;
      } else {
        assert [] + rest == rest;
      }
    }
  }

  /** Nothing is counted that would not be published: without metadata and ignore file, the two
      sums are those of the published objects. */
  lemma CountsAreExact(matches: Matcher, entries: seq<ZipEntry>, folder: string)
    requires Keys(matches, entries, folder).Ok? && IgnoreOf(Validated(entries).value).None?
    requires forall e :: e in entries && IsFile(e) ==> !IsArchiveJunk(Paths.Clean(e.name))
    ensures |Keys(matches, entries, folder).value| == FileCount(entries)
    ensures ObjectSizes(Keys(matches, entries, folder).value) == TotalSize(entries)
  {
    hide IsFile, IsArchiveJunk, Paths.Clean;
    AllAreCounted(entries);
    var files := Validated(entries).value;
    ObjectSizesAre(files, Wrapper(files), folder);
  }

  // ---------------------------------------------------------------- the upload that follows

  function UploadEntries(objects: seq<ArchiveObject>): (es: seq<Upload.Entry>)
    ensures |es| == |objects|
  {
    seq(|objects|, i requires 0 <= i < |objects| =>
      Upload.Entry(objects[i].key, objects[i].file.name, objects[i].file.data, objects[i].file.size))
  }

  /** The archive layout gives the upload what its proofs rest on. */
  lemma LayoutSuitsUpload(matches: Matcher, entries: seq<ZipEntry>, folder: string)
    requires Keys(matches, entries, folder).Ok?
    ensures var es := UploadEntries(Keys(matches, entries, folder).value);
            Upload.DistinctKeys(es) && Upload.KeysUnderFolder(es, folder)
  {
    ArchiveLaws.KeysAreContainedAndDistinct(matches, entries, folder);
    var objects := Keys(matches, entries, folder).value;
    forall i | 0 <= i < |objects|
      ensures folder + "/" <= UploadEntries(objects)[i].key
    {
      assert ArchiveLaws.IsContained(objects[i].key, folder);
      var rel :| objects[i].key == folder + "/" + rel && Paths.IsProper(rel);
    }
  }

  /** The upload starts (content-service.go:154-182). */
  predicate Admitted(limits: Limits, b: Bucket, name: string, version: string, fileSize: nat,
                     matches: Matcher, entries: seq<ZipEntry>)
  {
    && Versions.IsIdentity(name, version)
    && (limits.maxSize > 0 ==> fileSize <= limits.maxSize)
    && WithinLimits(limits, entries)
    && !Exists(b, Versions.Folder(name, version))
    && Keys(matches, entries, Versions.Folder(name, version)).Ok?
  }

  datatype Refusal = MalformedIdentity | RequestTooLarge | ArchiveTooLarge | AlreadyExists | BadArchive(error: Rejection)

  /** The checks of `CreatePackage` in their order (154-183); the first that fails is the answer.
      Reading the archive directory comes between the second and the third and is not modelled. */
  method Admit(storage: ObjectStorage, limits: Limits, name: string, version: string, fileSize: nat,
               matches: Matcher, entries: seq<ZipEntry>)
    returns (objects: seq<ArchiveObject>, refusal: Semver.Option<Refusal>)
    requires forall i :: 0 <= i < |entries| ==> entries[i].size <= MAX_UINT64
    requires limits.maxUncompressedSize <= MAX_INT64
    ensures refusal.None? <==> Admitted(limits, storage.objects, name, version, fileSize, matches, entries)
    ensures refusal.None? ==> Keys(matches, entries, Versions.Folder(name, version)) == Ok(objects)
    ensures refusal == Semver.Some(MalformedIdentity) <==> !Versions.IsIdentity(name, version)
    ensures refusal == Semver.Some(RequestTooLarge) <==> Versions.IsIdentity(name, version) && 0 < limits.maxSize < fileSize
    ensures refusal == Semver.Some(ArchiveTooLarge) ==> !WithinLimits(limits, entries)
    ensures refusal == Semver.Some(AlreadyExists) ==> WithinLimits(limits, entries) && Exists(storage.objects, Versions.Folder(name, version))
    ensures refusal.Some? && refusal.value.BadArchive? ==>
              WithinLimits(limits, entries) && !Exists(storage.objects, Versions.Folder(name, version))
              && Keys(matches, entries, Versions.Folder(name, version)) == Err(refusal.value.error)
  {
    hide Versions.IsIdentity, WithinLimits, Keys, Exists;
    objects := [];
    if !Versions.IsIdentity(name, version) {
      return objects, Semver.Some(MalformedIdentity);
    }
    if limits.maxSize > 0 && fileSize > limits.maxSize {
      return objects, Semver.Some(RequestTooLarge);
    }
    var tooLarge := CheckArchiveLimits(limits, entries);
    if tooLarge {
      return objects, Semver.Some(ArchiveTooLarge);
    }
    var folder := Versions.Folder(name, version);
    var found := storage.ObjectExists(folder);
    if found {
      return objects, Semver.Some(AlreadyExists);
    }
    var keys := ArchiveKeys(matches, entries, folder);
    if keys.Err? {
      return objects, Semver.Some(BadArchive(keys.error));
    }
    return keys.value, Semver.None;
  }

  /** With positive limits an admitted upload stores at most three objects per allowed entry,
      and its identities declare no more bytes than allowed. */
  lemma AdmittedIsBounded(limits: Limits, b: Bucket, name: string, version: string, fileSize: nat,
                          matches: Matcher, entries: seq<ZipEntry>, cfg: Upload.Config)
    requires Admitted(limits, b, name, version, fileSize, matches, entries)
    ensures var objects := Keys(matches, entries, Versions.Folder(name, version)).value;
            && (limits.maxEntries > 0 ==> |Upload.Target(cfg, UploadEntries(objects))| <= 3 * limits.maxEntries)
            && (limits.maxUncompressedSize > 0 ==> ObjectSizes(objects) <= limits.maxUncompressedSize)
  {
    hide Keys, Upload.Target;
    var folder := Versions.Folder(name, version);
    AcceptedIsCounted(matches, entries, folder);
    Upload.TargetIsSmall(cfg, UploadEntries(Keys(matches, entries, folder).value));
  }

  /** How an upload ends once its workers are joined: a run without failure keeps what was
      written, any other removes the folder, as far as the backend allows. */
  ghost function Ending(cfg: Upload.Config, es: seq<Upload.Entry>, b: Bucket, moves: seq<Upload.Move>,
                        folder: string, refused: set<string>): Bucket
  {
    var s := Upload.Exec(cfg, es, Upload.Initial(b, es), moves);
    if Upload.AllDone(s) then s.bucket else RemoveUnderExcept(s.bucket, folder + "/", refused)
  }

  /** Main result. An admitted upload, whatever its interleaving and its failures, ends in one of
      three states: the archive's own objects added to the initial store, the initial store
      itself, or, when the rollback was refused something, some objects of the new version
      added. Each is a `Create` step of the sequential runs. */
  lemma UploadEndsAsCreate(limits: Limits, b: Bucket, cache: map<string, string>, cacheEnabled: bool, name: string, version: string,
                           fileSize: nat, matches: Matcher, entries: seq<ZipEntry>, cfg: Upload.Config,
                           moves: seq<Upload.Move>, refused: set<string>)
    returns (added: Bucket)
    requires Admitted(limits, b, name, version, fileSize, matches, entries)
    requires var es := UploadEntries(Keys(matches, entries, Versions.Folder(name, version)).value);
             Upload.Joined(Upload.Exec(cfg, es, Upload.Initial(b, es), moves))
    ensures var folder := Versions.Folder(name, version);
            var es := UploadEntries(Keys(matches, entries, folder).value);
            var op := Runs.Create(name, version, added);
            && Runs.Allowed(op)
            && Runs.Step(Service.State(b, cache), cacheEnabled, op) == Service.State(Ending(cfg, es, b, moves, folder, refused), cache)
            && (Upload.AllDone(Upload.Exec(cfg, es, Upload.Initial(b, es), moves)) ==> added == Upload.Target(cfg, es))
            && (!Upload.AllDone(Upload.Exec(cfg, es, Upload.Initial(b, es), moves)) && refused == {} ==> added == map[])
  {
    var folder := Versions.Folder(name, version);
    var es := UploadEntries(Keys(matches, entries, folder).value);
    LayoutSuitsUpload(matches, entries, folder);
    hide Keys, Upload.Exec, Upload.Target, Upload.Initial, Versions.IsIdentity, WithinLimits;
    if Upload.AllDone(Upload.Exec(cfg, es, Upload.Initial(b, es), moves)) {
      added := Upload.Target(cfg, es);
      Upload.UploadIsConfluent(cfg, es, b, moves);
      forall k | k in added
        ensures folder + "/" <= k
      {
        TargetIsOwned(cfg, es, k);
        Upload.OwnedIsUnderFolder(cfg, es, folder, k);
      }
    } else {
      added := Upload.PartialRollback(cfg, es, b, moves, folder, refused);
    }
  }

  lemma TargetIsOwned(cfg: Upload.Config, es: seq<Upload.Entry>, k: string)
    requires k in Upload.Target(cfg, es)
    ensures Upload.IsOwned(cfg, es, k)
  {
  }
}
