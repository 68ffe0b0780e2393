/** What the archive layout promises about keys: they stay inside the package folder and never
    collide. */
module ArchiveLaws {
  import opened Strings
  import opened Paths
  import opened Archive
  import Semver

  // ---------------------------------------------------------------- containment

  predicate AllProper(files: seq<ArchiveFile>)
  {
    forall f :: f in files ==> IsProper(f.name)
  }

  lemma ValidatedIsProper(entries: seq<ZipEntry>)
    ensures Validated(entries).Ok? ==> Validated(entries).value != [] && AllProper(Validated(entries).value)
  {
    if Validated(entries).Ok? {
      forall f | f in Validated(entries).value
        ensures IsProper(f.name)
      {
        CollectMember(entries, ToFile, f);
        var e :| e in entries && ToFile(e) == Semver.Some(f);
        EscapesIff(e.name);
      }
    }
  }

  /** Kept files are some of the validated ones, and there is at least one. */
  lemma PublishableIsPart(matches: Matcher, files: seq<ArchiveFile>)
    requires files != []
    ensures Publishable(matches, files).Ok? ==>
              && Publishable(matches, files).value != []
              && (forall f :: f in Publishable(matches, files).value ==> f in files)
              && |Publishable(matches, files).value| <= |files|
  {
    var g := IgnoreOf(files);
    if Publishable(matches, files).Ok? && g.Some? {
      var keep := KeepUnless(matches, g.value);
      CollectIsShorter(files, keep);
      forall f | f in Collect(files, keep)
        ensures f in files
      {
        CollectMember(files, keep, f);
      }
    }
  }

  /** What is left of a proper path below its first folder is a proper path. */
  lemma StripIsProper(f: ArchiveFile, w: string)
    requires IsUnder(f, w) && IsProper(f.name)
    ensures IsSegment(w) && IsProper(Relative(f.name, Semver.Some(w)))
  {
    UnderStarts(f, w);
    var rest := Relative(f.name, Semver.Some(w));
    assert f.name == w + ['/'] + rest;
    SplitFirst(w, rest, '/');
    assert Split(f.name, '/')[0] == w;
    forall i | 0 <= i < |Split(rest, '/')|
      ensures IsSegment(Split(rest, '/')[i])
    {
      assert Split(f.name, '/')[i + 1] == Split(rest, '/')[i];
    }
  }

  lemma RelativeIsProper(files: seq<ArchiveFile>, i: nat)
    requires AllProper(files) && i < |files|
    ensures IsProper(Relative(files[i].name, Wrapper(files)))
  {
    assert files[i] in files;
    if Wrapper(files).Some? {
      StripIsProper(files[i], Wrapper(files).value);
    }
  }

  /** A key is the folder, a slash, and a path of at least one segment that never leaves it. */
  ghost predicate IsContained(key: string, folder: string)
  {
    exists rel :: key == folder + "/" + rel && IsProper(rel)
  }

  /** Every accepted key is contained, all keys differ, and there is at least one. */
  lemma KeysAreContainedAndDistinct(matches: Matcher, entries: seq<ZipEntry>, folder: string)
    ensures Keys(matches, entries, folder).Ok? ==>
              var objects := Keys(matches, entries, folder).value;
              && objects != []
              && (forall i :: 0 <= i < |objects| ==> IsContained(objects[i].key, folder))
              && (forall i, j :: 0 <= i < j < |objects| ==> objects[i].key != objects[j].key)
  {
    if Keys(matches, entries, folder).Ok? {
      var files := Validated(entries).value;
      ValidatedIsProper(entries);
      PublishableIsPart(matches, files);
      var kept := Publishable(matches, files).value;
      KeyedIsContainedAndDistinct(kept, folder);
    }
  }

  lemma KeyedIsContainedAndDistinct(kept: seq<ArchiveFile>, folder: string)
    requires AllProper(kept) && NoDuplicates(NamesOf(kept))
    ensures var objects := ObjectsOf(kept, Wrapper(kept), folder);
            && (forall i :: 0 <= i < |objects| ==> IsContained(objects[i].key, folder))
            && (forall i, j :: 0 <= i < j < |objects| ==> objects[i].key != objects[j].key)
  {
    hide Wrapper, IsProper, NoDuplicates, KeyOf;
    var objects := ObjectsOf(kept, Wrapper(kept), folder);
    forall i | 0 <= i < |objects|
      ensures IsContained(objects[i].key, folder)
    {
      RelativeIsProper(kept, i);
      KeyIs(kept[i], Wrapper(kept), folder);
    }
    forall i, j | 0 <= i < j < |objects|
      ensures objects[i].key != objects[j].key
    {
      KeysDecideNames(kept, folder, i, j);
      DistinctNames(kept, i, j);
    }
  }

  lemma KeyIs(f: ArchiveFile, wrapper: Semver.Option<string>, folder: string)
    ensures KeyOf(f, wrapper, folder) == folder + "/" + Relative(f.name, wrapper)
  {
  }

  lemma DistinctNames(files: seq<ArchiveFile>, i: nat, j: nat)
    requires NoDuplicates(NamesOf(files)) && i < j < |files|
    ensures files[i].name != files[j].name
  {
    assert NamesOf(files)[i] == files[i].name && NamesOf(files)[j] == files[j].name;
  }

  // ---------------------------------------------------------------- looking names up

  lemma {:induction false} FirstNamedIff(files: seq<ArchiveFile>, name: string)
    ensures FirstNamed(files, name).Some? ==> FirstNamed(files, name).value in files && FirstNamed(files, name).value.name == name
    ensures FirstNamed(files, name).None? ==> forall f :: f in files ==> f.name != name
  {
    if files != [] {
      FirstNamedIff(files[1..], name);
      assert files == [files[0]] + files[1..];
    }
  }

  lemma {:induction false} BaseIgnoresDirectory(dir: string, rest: string)
    ensures Base(dir + "/" + rest) == Base(rest)
  {
    var k := dir + "/" + rest;
    if rest == [] {
      assert k[|k| - 1] == '/';
    } else {
      assert k[..|k| - 1] == dir + "/" + rest[..|rest| - 1];
      BaseIgnoresDirectory(dir, rest[..|rest| - 1]);
    }
  }

  lemma {:induction false} BaseOfField(s: string)
    requires '/' !in s
    ensures Base(s) == s
  {
    if s != [] {
      BaseOfField(s[..|s| - 1]);
      assert s == s[..|s| - 1] + [s[|s| - 1]];
    }
  }
}
