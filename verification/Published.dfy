/** Which entries of an accepted archive are published, and under which keys, said of the entries
    (internal/content/archive-keys.go:38-218). */
module Published {
  import opened Strings
  import opened Paths
  import opened Archive
  import opened ArchiveLaws
  import opened ArchiveOrder
  import ObjectStore
  import Semver

  /** A file that is not macOS metadata: neither below a top-level __MACOSX nor named .DS_Store. */
  predicate IsContent(e: ZipEntry)
  {
    && !e.isDir && !(|e.name| > 0 && e.name[|e.name| - 1] == '/')
    && var segments := Split(Clean(e.name), '/');
       segments[0] != "__MACOSX" && segments[|segments| - 1] != ".DS_Store"
  }

  lemma {:induction false} BaseIsLast(s: string)
    ensures Base(s) == Split(s, '/')[|Split(s, '/')| - 1]
    decreases |s|
  {
    if '/' in s {
      var first, rest := Before(s, '/'), s[|Before(s, '/')| + 1..];
      assert s == first + ['/'] + rest;
      SplitFirst(first, rest, '/');
      assert s == first + "/" + rest;
      BaseIgnoresDirectory(first, rest);
      BaseIsLast(rest);
    } else {
      SplitField(s, '/');
      BaseOfField(s);
    }
  }

  lemma ContentIff(e: ZipEntry)
    ensures IsContent(e) <==> ToFile(e).Some?
    ensures ToFile(e).Some? ==> ToFile(e).value == ArchiveFile(Clean(e.name), e)
  {
    BaseIsLast(Clean(e.name));
    FirstFieldBefore(Clean(e.name), '/');
    EndsWithSlash(e.name);
    hide Clean, Base, Split, Before, HasSuffix;
  }

  lemma EndsWithSlash(name: string)
    ensures HasSuffix(name, "/") <==> |name| > 0 && name[|name| - 1] == '/'
  {
    if |name| > 0 {
      assert name[|name| - 1..] == [name[|name| - 1]];
    }
  }

  /** The honoured ignore file, if any, leaves the entry out: it is an ignore file itself, or its
      path, below the folder of the ignore file, is excluded. */
  predicate IsLeftOut(matches: Matcher, files: seq<ArchiveFile>, e: ZipEntry)
  {
    SiteOf(files).Some? &&
    var s := SiteOf(files).value;
    var g := FirstNamed(files, s.path);
    g.Some? && (Clean(e.name) == s.path || matches(g.value.file.data, TrimPrefix(Clean(e.name), s.prefix)))
  }

  /** The kept files of an accepted archive. */
  function Kept(matches: Matcher, entries: seq<ZipEntry>, folder: string): seq<ArchiveFile>
    requires Keys(matches, entries, folder).Ok?
  {
    Publishable(matches, Validated(entries).value).value
  }

  lemma KeptIff(matches: Matcher, entries: seq<ZipEntry>, folder: string, e: ZipEntry)
    requires Keys(matches, entries, folder).Ok?
    ensures ArchiveFile(Clean(e.name), e) in Kept(matches, entries, folder) <==>
            e in entries && IsContent(e) && !IsLeftOut(matches, Validated(entries).value, e)
  {
    var files, f := Validated(entries).value, ArchiveFile(Clean(e.name), e);
    FileIff(entries, e);
    IgnoreIsFirstAtSite(files);
    if SiteOf(files).Some? {
      var s := SiteOf(files).value;
      FirstNamedIff(files, s.path);
      var g := FirstNamed(files, s.path).value;
      CollectMember(files, Keep(matches, g.file.data, s.path, s.prefix), f);
      KeptIsItself(matches, files, g.file.data, s, f);
    }
    hide Clean, IsContent, SiteOf, FirstNamed, Collect;
  }

  lemma KeptIsItself(matches: Matcher, files: seq<ArchiveFile>, data: seq<ObjectStore.byte>, s: Site, f: ArchiveFile)
    ensures (exists t :: t in files && Keep(matches, data, s.path, s.prefix)(t) == Semver.Some(f)) <==>
            f in files && f.name != s.path && !matches(data, TrimPrefix(f.name, s.prefix))
  {
    if f in files && f.name != s.path && !matches(data, TrimPrefix(f.name, s.prefix)) {
      assert Keep(matches, data, s.path, s.prefix)(f) == Semver.Some(f);
    }
  }

  lemma FileIff(entries: seq<ZipEntry>, e: ZipEntry)
    requires Validated(entries).Ok?
    ensures ArchiveFile(Clean(e.name), e) in Validated(entries).value <==> e in entries && IsContent(e)
  {
    CollectMember(entries, ToFile, ArchiveFile(Clean(e.name), e));
    ContentIff(e);
    if t :| t in entries && ToFile(t) == Semver.Some(ArchiveFile(Clean(e.name), e)) {
      ContentIff(t);
    }
    hide Clean, IsContent, ToFile;
  }

  /** Main result. An accepted archive publishes exactly its content files that the ignore file
      does not leave out. */
  lemma PublishedIff(matches: Matcher, entries: seq<ZipEntry>, folder: string, e: ZipEntry)
    requires Keys(matches, entries, folder).Ok?
    ensures (exists o :: o in Keys(matches, entries, folder).value && o.file == e) <==>
            e in entries && IsContent(e) && !IsLeftOut(matches, Validated(entries).value, e)
  {
    KeptIff(matches, entries, folder, e);
    hide IsContent, IsLeftOut;
    var kept := Kept(matches, entries, folder);
    KeptAreClean(matches, entries, folder);
    var objects := Keys(matches, entries, folder).value;
    assert objects == ObjectsOf(kept, Wrapper(kept), folder);
    hide Keys, Kept, Wrapper, KeyOf;
    if o :| o in objects && o.file == e {
      var i :| 0 <= i < |objects| && objects[i] == o;
      assert kept[i].file == e && kept[i] in kept;
    }
    if i :| 0 <= i < |kept| && kept[i] == ArchiveFile(Clean(e.name), e) {
      assert objects[i].file == e && objects[i] in objects;
    }
  }

  lemma KeptAreClean(matches: Matcher, entries: seq<ZipEntry>, folder: string)
    requires Keys(matches, entries, folder).Ok?
    ensures forall f :: f in Kept(matches, entries, folder) ==> f == ArchiveFile(Clean(f.file.name), f.file)
  {
    var files := Validated(entries).value;
    PublishableIsPart(matches, files);
    forall f | f in files
      ensures f == ArchiveFile(Clean(f.file.name), f.file)
    {
      CollectMember(entries, ToFile, f);
      var t :| t in entries && ToFile(t) == Semver.Some(f);
      ContentIff(t);
    }
    hide Clean, ToFile, Publishable;
  }

  /** Every object's name lies in the folder w. */
  predicate ShareFolder(objects: seq<ArchiveObject>, w: string)
  {
    forall o :: o in objects ==> w + "/" <= Clean(o.file.name) && '/' !in w
  }

  lemma SharesIff(name: string, w: string)
    requires '/' !in w
    ensures w + "/" <= name <==> '/' in name && Before(name, '/') == w
  {
    if w + "/" <= name {
      assert name == w + ['/'] + name[|w| + 1..];
      BeforeSeparator(w, name[|w| + 1..], '/');
      assert name[|w|] == '/';
    }
    if '/' in name && Before(name, '/') == w {
      assert name == w + "/" + name[|w| + 1..];
    }
  }

  /** Every object's key is the folder and the clean name, without a first folder all objects
      share. */
  lemma KeysAreCleanNames(matches: Matcher, entries: seq<ZipEntry>, folder: string) returns (shared: string)
    requires Keys(matches, entries, folder).Ok?
    ensures var objects := Keys(matches, entries, folder).value;
            && (forall o :: o in objects ==> Clean(o.file.name) == shared + TrimPrefix(Clean(o.file.name), shared)
                                             && o.key == folder + "/" + TrimPrefix(Clean(o.file.name), shared))
            && (shared == "" || exists w :: shared == w + "/" && ShareFolder(objects, w))
            && (shared == "" ==> forall w :: !ShareFolder(objects, w))
  {
    var kept := Kept(matches, entries, folder);
    KeptAreClean(matches, entries, folder);
    PublishableIsPart(matches, Validated(entries).value);
    ValidatedIsProper(entries);
    var objects := Keys(matches, entries, folder).value;
    assert objects == ObjectsOf(kept, Wrapper(kept), folder) && kept != [];
    hide Keys, Kept, Clean, Validated, Publishable;
    shared := if Wrapper(kept).Some? then Wrapper(kept).value + "/" else "";
    forall o | o in objects
      ensures Clean(o.file.name) == shared + TrimPrefix(Clean(o.file.name), shared) && o.key == folder + "/" + TrimPrefix(Clean(o.file.name), shared)
    {
      var i :| 0 <= i < |objects| && objects[i] == o;
      assert kept[i] in kept && o.file == kept[i].file && o.key == KeyOf(kept[i], Wrapper(kept), folder);
      OneKey(kept, i, shared, folder);
    }
    WrapperIsShared(kept, objects);
  }

  lemma WrapperIsShared(kept: seq<ArchiveFile>, objects: seq<ArchiveObject>)
    requires |objects| == |kept| && kept != [] && forall i :: 0 <= i < |kept| ==> objects[i].file == kept[i].file && kept[i].name == Clean(kept[i].file.name)
    ensures Wrapper(kept).Some? ==> ShareFolder(objects, Wrapper(kept).value)
    ensures Wrapper(kept).None? ==> forall w :: !ShareFolder(objects, w)
  {
    hide Clean, Wrapper, Before;
    if Wrapper(kept).Some? {
      var w := Wrapper(kept).value;
      WrapperIff(kept, w);
      forall o | o in objects
        ensures w + "/" <= Clean(o.file.name) && '/' !in w
      {
        var i :| 0 <= i < |objects| && objects[i] == o;
        assert kept[i] in kept;
        FolderHasNoSlash(kept[i].name);
        SharesIff(kept[i].name, w);
      }
    } else {
      forall w | '/' !in w
        ensures !ShareFolder(objects, w)
      {
        WrapperIff(kept, w);
        var f :| f in kept && !IsUnder(f, w);
        var i :| 0 <= i < |kept| && kept[i] == f;
        SharesIff(f.name, w);
        assert objects[i] in objects;
      }
      assert objects[0] in objects;
    }
  }

  lemma FolderHasNoSlash(name: string)
    ensures '/' !in Before(name, '/')
  {
  }

  lemma OneKey(kept: seq<ArchiveFile>, i: nat, shared: string, folder: string)
    requires i < |kept| && shared == (if Wrapper(kept).Some? then Wrapper(kept).value + "/" else "")
    ensures kept[i].name == shared + TrimPrefix(kept[i].name, shared)
    ensures KeyOf(kept[i], Wrapper(kept), folder) == folder + "/" + TrimPrefix(kept[i].name, shared)
  {
    if Wrapper(kept).Some? {
      UnderStarts(kept[i], Wrapper(kept).value);
    } else {
      assert "" + TrimPrefix(kept[i].name, "") == kept[i].name;
    }
  }

  // ---------------------------------------------------------------- what is accepted

  type Filter = ArchiveFile -> Semver.Option<ArchiveFile>

  /** The filter keeps files as they are, or not at all. */
  ghost predicate IsFilter(keep: Filter)
  {
    forall f :: keep(f).Some? ==> keep(f).value == f
  }

  predicate Passes(keep: Filter, e: ZipEntry)
  {
    ToFile(e).Some? && keep(ToFile(e).value).Some?
  }

  function Filtered(entries: seq<ZipEntry>, keep: Filter): seq<ArchiveFile>
  {
    Collect(Collect(entries, ToFile), keep)
  }

  lemma FilteredCons(e: ZipEntry, rest: seq<ZipEntry>, keep: Filter)
    requires IsFilter(keep)
    ensures Filtered([e] + rest, keep) == (if Passes(keep, e) then [ArchiveFile(Clean(e.name), e)] else []) + Filtered(rest, keep)
  {
    ContentIff(e);
    hide Clean, IsContent, ToFile;
    CollectOfConcat([e], rest, ToFile);
    CollectOne(e, ToFile);
    if ToFile(e).Some? {
      CollectOfConcat([ToFile(e).value], Collect(rest, ToFile), keep);
      CollectOne(ToFile(e).value, keep);
    } else {
      assert [] + Collect(rest, ToFile) == Collect(rest, ToFile);
    }
  }

  lemma {:induction false} FilteredMember(entries: seq<ZipEntry>, keep: Filter, f: ArchiveFile)
    requires IsFilter(keep)
    ensures f in Filtered(entries, keep) <==> exists e :: e in entries && Passes(keep, e) && f == ArchiveFile(Clean(e.name), e)
  {
    hide Clean, Passes, Filtered;
    if entries == [] {
      assert Filtered(entries, keep) == [] by {
        NothingFiltered(keep);
      }
    } else {
      FilteredCons(entries[0], entries[1..], keep);
      FilteredMember(entries[1..], keep, f);
      assert entries == [entries[0]] + entries[1..];
    }
  }

  lemma NothingFiltered(keep: Filter)
    ensures Filtered([], keep) == []
  {
  }

  predicate DistinctlyNamed(entries: seq<ZipEntry>, keep: Filter)
  {
    forall i, j :: 0 <= i < j < |entries| && Passes(keep, entries[i]) && Passes(keep, entries[j]) ==>
      Clean(entries[i].name) != Clean(entries[j].name)
  }

  lemma DistinctCons(e: ZipEntry, rest: seq<ZipEntry>, keep: Filter)
    ensures DistinctlyNamed([e] + rest, keep) <==>
            DistinctlyNamed(rest, keep)
            && (Passes(keep, e) ==> forall f :: f in rest && Passes(keep, f) ==> Clean(f.name) != Clean(e.name))
  {
    hide Clean, Passes;
    var all := [e] + rest;
    if DistinctlyNamed(all, keep) {
      forall i, j | 0 <= i < j < |rest| && Passes(keep, rest[i]) && Passes(keep, rest[j])
        ensures Clean(rest[i].name) != Clean(rest[j].name)
      {
        assert all[i + 1] == rest[i] && all[j + 1] == rest[j];
      }
      forall f | f in rest && Passes(keep, f) && Passes(keep, e)
        ensures Clean(f.name) != Clean(e.name)
      {
        var j :| 0 <= j < |rest| && rest[j] == f;
        assert all[0] == e && all[j + 1] == f;
      }
    }
    if DistinctlyNamed(rest, keep) && (Passes(keep, e) ==> forall f :: f in rest && Passes(keep, f) ==> Clean(f.name) != Clean(e.name)) {
      forall i, j | 0 <= i < j < |all| && Passes(keep, all[i]) && Passes(keep, all[j])
        ensures Clean(all[i].name) != Clean(all[j].name)
      {
        assert all[j] == rest[j - 1] && (i > 0 ==> all[i] == rest[i - 1]);
      }
    }
  }

  lemma NamesDifferCons(f: ArchiveFile, rest: seq<ArchiveFile>)
    ensures NoDuplicates(NamesOf([f] + rest)) <==> NoDuplicates(NamesOf(rest)) && forall g :: g in rest ==> g.name != f.name
  {
    var all, names := NamesOf([f] + rest), NamesOf(rest);
    assert all == [f.name] + names;
    if NoDuplicates(all) {
      forall i, j | 0 <= i < j < |names|
        ensures names[i] != names[j]
      {
        assert all[i + 1] == names[i] && all[j + 1] == names[j];
      }
      forall g | g in rest
        ensures g.name != f.name
      {
        var j :| 0 <= j < |rest| && rest[j] == g;
        assert all[0] != all[j + 1];
      }
    }
  }

  lemma {:induction false} DistinctIff(entries: seq<ZipEntry>, keep: Filter)
    requires IsFilter(keep)
    ensures NoDuplicates(NamesOf(Filtered(entries, keep))) <==> DistinctlyNamed(entries, keep)
  {
    hide Clean, Passes, Filtered, NoDuplicates, NamesOf, IsFilter;
    if entries == [] {
      NothingFiltered(keep);
      NothingDuplicated();
    } else {
      var e, rest := entries[0], entries[1..];
      assert entries == [e] + rest;
      DistinctIff(rest, keep);
      FilteredCons(e, rest, keep);
      DistinctCons(e, rest, keep);
      if Passes(keep, e) {
        NamesDifferCons(ArchiveFile(Clean(e.name), e), Filtered(rest, keep));
        OthersNamed(e, rest, keep);
      } else {
        assert [] + Filtered(rest, keep) == Filtered(rest, keep);
      }
    }
  }

  lemma NothingDuplicated()
    ensures NoDuplicates(NamesOf([]))
  {
  }

  lemma OthersNamed(e: ZipEntry, rest: seq<ZipEntry>, keep: Filter)
    requires IsFilter(keep)
    ensures (forall g :: g in Filtered(rest, keep) ==> g.name != Clean(e.name)) <==>
            (forall f :: f in rest && Passes(keep, f) ==> Clean(f.name) != Clean(e.name))
  {
    hide Clean, Passes, Filtered, IsFilter;
    forall g
      ensures g in Filtered(rest, keep) <==> exists f :: f in rest && Passes(keep, f) && g == ArchiveFile(Clean(f.name), f)
    {
      FilteredMember(rest, keep, g);
    }
    forall f | f in rest && Passes(keep, f)
      ensures ArchiveFile(Clean(f.name), f) in Filtered(rest, keep)
    {
    }
  }

  /** The filter the archive's ignore file comes to; with no ignore file it keeps everything. */
  function FilterOf(matches: Matcher, files: seq<ArchiveFile>): Filter
  {
    var g := IgnoreOf(files);
    if g.None? then (f: ArchiveFile) => Semver.Some(f) else KeepUnless(matches, g.value)
  }

  lemma {:induction false} KeepsAll(files: seq<ArchiveFile>, keep: Filter)
    requires forall f :: keep(f) == Semver.Some(f)
    ensures Collect(files, keep) == files
  {
    if files != [] {
      KeepsAll(files[1..], keep);
      assert keep(files[0]) == Semver.Some(files[0]);
      assert files == [files[0]] + files[1..];
    }
  }

  /** A file entry's name: not empty, relative, and clean it stays inside the folder. */
  predicate IsAdmissible(e: ZipEntry)
  {
    e.name != "" && e.name[0] != '/' && IsProper(Clean(e.name))
  }

  lemma AdmissibleIff(e: ZipEntry)
    ensures IsBad(e) <==> !e.isDir && !(|e.name| > 0 && e.name[|e.name| - 1] == '/') && !IsAdmissible(e)
  {
    EscapesIff(e.name);
    EndsWithSlash(e.name);
    hide Clean, Escapes, IsProper, HasSuffix;
  }

  /** Main result. An archive is accepted if and only if every file entry has an admissible name,
      its ignore file can be read, something is left to publish, and what is left has different
      names. */
  lemma AcceptedIff(matches: Matcher, entries: seq<ZipEntry>, folder: string)
    ensures var files := Collect(entries, ToFile); var keep := FilterOf(matches, files);
            Keys(matches, entries, folder).Ok? <==>
              && (forall e :: e in entries && !e.isDir && !(|e.name| > 0 && e.name[|e.name| - 1] == '/') ==> IsAdmissible(e))
              && (IgnoreOf(files).Some? ==> IgnoreOf(files).value.file.file.readable)
              && (exists e :: e in entries && Passes(keep, e))
              && DistinctlyNamed(entries, keep)
  {
    var files := Collect(entries, ToFile);
    var keep := FilterOf(matches, files);
    FilterIsFilter(matches, files);
    forall e | e in entries
      ensures IsBad(e) <==> !e.isDir && !(|e.name| > 0 && e.name[|e.name| - 1] == '/') && !IsAdmissible(e)
    {
      AdmissibleIff(e);
    }
    AcceptedByFilter(matches, entries, folder);
    DistinctIff(entries, keep);
    SomethingPasses(entries, keep);
    hide Keys, IsBad, IsAdmissible, Collect, FilterOf, IgnoreOf, Filtered, Passes, DistinctlyNamed, NoDuplicates, NamesOf;
  }

  lemma FilterIsFilter(matches: Matcher, files: seq<ArchiveFile>)
    ensures IsFilter(FilterOf(matches, files))
  {
  }

  lemma SomethingPasses(entries: seq<ZipEntry>, keep: Filter)
    requires IsFilter(keep)
    ensures Filtered(entries, keep) != [] <==> exists e :: e in entries && Passes(keep, e)
  {
    hide Clean, Passes, Filtered, IsFilter;
    if Filtered(entries, keep) != [] {
      FilteredMember(entries, keep, Filtered(entries, keep)[0]);
    }
    if e :| e in entries && Passes(keep, e) {
      FilteredMember(entries, keep, ArchiveFile(Clean(e.name), e));
    }
  }

  lemma AcceptedByFilter(matches: Matcher, entries: seq<ZipEntry>, folder: string)
    ensures var files := Collect(entries, ToFile); var keep := FilterOf(matches, files);
            Keys(matches, entries, folder).Ok? <==>
              && (forall e :: e in entries ==> !IsBad(e))
              && (IgnoreOf(files).Some? ==> IgnoreOf(files).value.file.file.readable)
              && Filtered(entries, keep) != [] && NoDuplicates(NamesOf(Filtered(entries, keep)))
  {
    var files := Collect(entries, ToFile);
    if IgnoreOf(files).None? {
      KeepsAll(files, FilterOf(matches, files));
    }
    NothingKept(FilterOf(matches, files));
    hide Collect, NoDuplicates, NamesOf, IsBad, IgnoreOf, Wrapper;
  }

  lemma NothingKept(keep: Filter)
    ensures Collect([], keep) == []
  {
  }
}
