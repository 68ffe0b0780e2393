/** Archives with and without a wrapper folder: prefixing every entry with one folder publishes
    the same keys when the archive has no wrapper of its own, and otherwise comes to the same only
    for a rejected archive with two files of one name. */
module Wrapping {
  import opened Strings
  import opened Paths
  import opened Archive
  import opened ArchiveLaws
  import opened Semver

  function Wrap(e: ZipEntry, w: string): ZipEntry
  {
    e.(name := w + "/" + e.name)
  }

  function WrapFile(f: ArchiveFile, w: string): ArchiveFile
  {
    ArchiveFile(w + "/" + f.name, Wrap(f.file, w))
  }

  function WrapAll(entries: seq<ZipEntry>, w: string): (r: seq<ZipEntry>)
    ensures |r| == |entries|
  {
    seq(|entries|, i requires 0 <= i < |entries| => Wrap(entries[i], w))
  }

  function WrapFiles(files: seq<ArchiveFile>, w: string): (r: seq<ArchiveFile>)
    ensures |r| == |files|
  {
    seq(|files|, i requires 0 <= i < |files| => WrapFile(files[i], w))
  }

  /** Every file entry has an already clean name and none lies in a top-level __MACOSX. */
  predicate IsCleanArchive(entries: seq<ZipEntry>)
  {
    forall e :: e in entries && IsFile(e) ==> IsProper(e.name) && Before(e.name, '/') != "__MACOSX"
  }

  predicate IsWrapperName(w: string)
  {
    IsSegment(w) && w != "__MACOSX"
  }

  function KeyStrings(r: Result<seq<ArchiveObject>>): Result<seq<string>>
  {
    match r
    case Ok(objects) => Ok(seq(|objects|, i requires 0 <= i < |objects| => objects[i].key))
    case Err(e) => Err(e)
  }

  // ---------------------------------------------------------------- one entry

  lemma WrappedIsProper(w: string, name: string)
    requires IsSegment(w) && IsProper(name)
    ensures IsProper(w + "/" + name)
  {
    SplitFirst(w, name, '/');
    assert w + "/" + name == w + ['/'] + name;
  }

  lemma WrapParts(w: string, name: string)
    requires IsSegment(w)
    ensures Before(w + "/" + name, '/') == w && '/' in w + "/" + name
    ensures Base(w + "/" + name) == Base(name)
    ensures TrimPrefix(w + "/" + name, w + "/") == name
  {
    assert w + "/" + name == w + ['/'] + name;
    BeforeSeparator(w, name, '/');
    BaseIgnoresDirectory(w, name);
    assert (w + "/" + name)[|w|] == '/';
    assert (w + "/" + name)[|w + "/"|..] == name;
  }

  lemma ProperIsNotEmpty(name: string)
    requires IsProper(name)
    ensures name != ""
  {
    assert IsSegment(Split(name, '/')[0]);
  }

  lemma WrapKeepsKind(e: ZipEntry, w: string)
    requires IsFile(e) ==> e.name != ""
    ensures IsFile(Wrap(e, w)) == IsFile(e)
  {
    var k := w + "/" + e.name;
    if e.name != "" {
      assert k[|k| - 1..] == e.name[|e.name| - 1..];
    }
  }

  lemma WrapEntry(e: ZipEntry, w: string)
    requires IsWrapperName(w)
    requires IsFile(e) ==> IsProper(e.name) && Before(e.name, '/') != "__MACOSX"
    ensures !IsBad(e) && !IsBad(Wrap(e, w))
    ensures ToFile(Wrap(e, w)) == if ToFile(e).Some? then Some(WrapFile(ToFile(e).value, w)) else None
    ensures ToFile(e).Some? ==> ToFile(e).value == ArchiveFile(e.name, e)
  {
    if IsFile(e) {
      ProperIsNotEmpty(e.name);
      WrappedIsProper(w, e.name);
      WrapParts(w, e.name);
      ProperIsFine(e.name);
      ProperIsFine(w + "/" + e.name);
    }
    WrapKeepsKind(e, w);
    hide IsProper, Clean, Escapes, HasSuffix, Base, Before;
  }

  lemma ProperIsFine(name: string)
    requires IsProper(name)
    ensures Clean(name) == name && !Escapes(name) && name != "" && !("/" <= name)
  {
    ProperIsClean(name);
    EscapesIff(name);
    ProperIsNotEmpty(name);
  }

  // ---------------------------------------------------------------- the whole pipeline

  lemma WrapAllCons(entries: seq<ZipEntry>, w: string)
    requires entries != []
    ensures WrapAll(entries, w) == [Wrap(entries[0], w)] + WrapAll(entries[1..], w)
  {
  }

  lemma WrapFilesCons(f: ArchiveFile, rest: seq<ArchiveFile>, w: string)
    ensures WrapFiles([f] + rest, w) == [WrapFile(f, w)] + WrapFiles(rest, w)
  {
  }

  lemma {:induction false} WrapCollected(entries: seq<ZipEntry>, w: string)
    requires IsWrapperName(w) && IsCleanArchive(entries)
    ensures Collect(WrapAll(entries, w), ToFile) == WrapFiles(Collect(entries, ToFile), w)
  {
    hide IsProper, IsFile, IsWrapperName, ToFile, WrapAll, WrapFile, Wrap;
    if entries != [] {
      assert entries[0] in entries && forall e :: e in entries[1..] ==> e in entries;
      WrapEntry(entries[0], w);
      WrapCollected(entries[1..], w);
      WrapAllCons(entries, w);
      CollectOfConcat([Wrap(entries[0], w)], WrapAll(entries[1..], w), ToFile);
      CollectOne(Wrap(entries[0], w), ToFile);
      if ToFile(entries[0]).Some? {
        WrapFilesCons(ToFile(entries[0]).value, Collect(entries[1..], ToFile), w);
      }
    } else {
      assert WrapAll(entries, w) == [];
    }
  }

  lemma WrapValidated(entries: seq<ZipEntry>, w: string)
    requires IsWrapperName(w) && IsCleanArchive(entries)
    ensures Validated(entries).Ok? <==> Validated(WrapAll(entries, w)).Ok?
    ensures Validated(entries).Err? ==> Validated(WrapAll(entries, w)) == Validated(entries)
    ensures Validated(entries).Ok? ==> Validated(WrapAll(entries, w)).value == WrapFiles(Validated(entries).value, w)
  {
    hide IsBad, IsWrapperName, IsProper, IsFile;
    forall e | e in entries
      ensures !IsBad(e)
    {
      WrapEntry(e, w);
    }
    forall e | e in WrapAll(entries, w)
      ensures !IsBad(e)
    {
      var i :| 0 <= i < |entries| && WrapAll(entries, w)[i] == e;
      assert entries[i] in entries;
      WrapEntry(entries[i], w);
    }
    WrapCollected(entries, w);
  }

  lemma WrapWrapper(files: seq<ArchiveFile>, w: string)
    requires files != [] && IsSegment(w)
    ensures Wrapper(WrapFiles(files, w)) == Some(w)
  {
    forall f | f in WrapFiles(files, w)
      ensures IsUnder(f, w)
    {
      var i :| 0 <= i < |files| && WrapFiles(files, w)[i] == f;
      WrapParts(w, files[i].name);
    }
    WrapperIff(WrapFiles(files, w), w);
  }

  lemma {:induction false} WrapFirstNamed(files: seq<ArchiveFile>, w: string, name: string)
    ensures FirstNamed(WrapFiles(files, w), w + "/" + name) ==
            if FirstNamed(files, name).Some? then Some(WrapFile(FirstNamed(files, name).value, w)) else None
  {
    if files != [] {
      assert WrapFiles(files, w)[0] == WrapFile(files[0], w) && WrapFiles(files, w)[1..] == WrapFiles(files[1..], w);
      SamePrefix(w, files[0].name, name);
      WrapFirstNamed(files[1..], w, name);
    }
  }

  lemma SamePrefix(w: string, a: string, b: string)
    ensures w + "/" + a == w + "/" + b <==> a == b
  {
    assert (w + "/" + a)[|w + "/"|..] == a && (w + "/" + b)[|w + "/"|..] == b;
  }

  lemma IgnoreNameIsField()
    ensures '/' !in IGNORE_NAME
  {
  }

  lemma NoRootIgnoreInside(files: seq<ArchiveFile>, w: string)
    requires IsSegment(w)
    ensures FirstNamed(WrapFiles(files, w), IGNORE_NAME) == None
  {
    IgnoreNameIsField();
    NotNamedWithoutSlash(files, w, IGNORE_NAME);
  }

  lemma NotNamedWithoutSlash(files: seq<ArchiveFile>, w: string, name: string)
    requires IsSegment(w) && '/' !in name
    ensures FirstNamed(WrapFiles(files, w), name) == None
  {
    forall f | f in WrapFiles(files, w)
      ensures f.name != name
    {
      var i :| 0 <= i < |files| && WrapFiles(files, w)[i] == f;
      WrapParts(w, files[i].name);
    }
    FirstNamedIff(WrapFiles(files, w), name);
  }

  /** Inside the wrapper the ignore file is found where the root one was, and only there. */
  lemma WrapIgnore(files: seq<ArchiveFile>, w: string)
    requires files != [] && IsSegment(w)
    ensures IgnoreOf(WrapFiles(files, w)) ==
            var root := FirstNamed(files, IGNORE_NAME);
            if root.Some? then Some(Ignore(WrapFile(root.value, w), w + "/")) else None
  {
    NoRootIgnoreInside(files, w);
    WrapWrapper(files, w);
    WrapFirstNamed(files, w, IGNORE_NAME);
  }

  lemma WrapKeptOne(matches: Matcher, f: ArchiveFile, w: string, g: ArchiveFile)
    requires IsSegment(w)
    ensures KeepUnless(matches, Ignore(WrapFile(g, w), w + "/"))(WrapFile(f, w)) ==
            if KeepUnless(matches, Ignore(g, ""))(f).Some? then Some(WrapFile(f, w)) else None
    ensures KeepUnless(matches, Ignore(g, ""))(f).Some? ==> KeepUnless(matches, Ignore(g, ""))(f).value == f
  {
    SamePrefix(w, f.name, g.name);
    WrapParts(w, f.name);
    assert TrimPrefix(f.name, "") == f.name;
  }

  lemma {:induction false} WrapKept(matches: Matcher, files: seq<ArchiveFile>, w: string, g: ArchiveFile)
    requires IsSegment(w)
    ensures Collect(WrapFiles(files, w), KeepUnless(matches, Ignore(WrapFile(g, w), w + "/"))) ==
            WrapFiles(Collect(files, KeepUnless(matches, Ignore(g, ""))), w)
  {
    hide KeepUnless, WrapFile, IsSegment;
    var inner, outer := KeepUnless(matches, Ignore(g, "")), KeepUnless(matches, Ignore(WrapFile(g, w), w + "/"));
    if files != [] {
      WrapKeptOne(matches, files[0], w, g);
      WrapKept(matches, files[1..], w, g);
      assert files == [files[0]] + files[1..];
      WrapFilesCons(files[0], files[1..], w);
      CollectOfConcat([WrapFile(files[0], w)], WrapFiles(files[1..], w), outer);
      CollectOne(WrapFile(files[0], w), outer);
      WrapFilesCons(files[0], Collect(files[1..], inner), w);
    }
  }

  /** Without a wrapper of its own, the archive keeps the same files inside one. */
  lemma WrapPublishable(matches: Matcher, files: seq<ArchiveFile>, w: string)
    requires files != [] && IsSegment(w)
    requires FirstNamed(files, IGNORE_NAME).Some? || Wrapper(files).None?
    ensures var inner, outer := Publishable(matches, files), Publishable(matches, WrapFiles(files, w));
            outer == if inner.Ok? then Ok(WrapFiles(inner.value, w)) else inner
  {
    WrapIgnore(files, w);
    var root := FirstNamed(files, IGNORE_NAME);
    if root.Some? {
      WrapKept(matches, files, w, root.value);
    }
  }

  lemma WrapNames(files: seq<ArchiveFile>, w: string)
    ensures NoDuplicates(NamesOf(WrapFiles(files, w))) == NoDuplicates(NamesOf(files))
  {
    forall i, j | 0 <= i < j < |files|
      ensures NamesOf(WrapFiles(files, w))[i] == NamesOf(WrapFiles(files, w))[j] <==> NamesOf(files)[i] == NamesOf(files)[j]
    {
      SamePrefix(w, files[i].name, files[j].name);
    }
  }

  function PlainKeys(files: seq<ArchiveFile>, folder: string): (r: seq<string>)
    ensures |r| == |files|
  {
    seq(|files|, i requires 0 <= i < |files| => folder + "/" + files[i].name)
  }

  function PlainKeyed(files: seq<ArchiveFile>, folder: string): Result<seq<string>>
  {
    if NoDuplicates(NamesOf(files)) then Ok(PlainKeys(files, folder)) else Err(BadRequest)
  }

  lemma KeyStringsAre(files: seq<ArchiveFile>, wrapper: Option<string>, folder: string, keys: seq<string>)
    requires |keys| == |files| && forall i :: 0 <= i < |files| ==> KeyOf(files[i], wrapper, folder) == keys[i]
    ensures KeyStrings(Ok(ObjectsOf(files, wrapper, folder))) == Ok(keys)
  {
    hide KeyOf;
    var objects := ObjectsOf(files, wrapper, folder);
    var r: Result<seq<ArchiveObject>> := Ok(objects);
    assert KeyStrings(r).value == keys;
  }

  /** The keys of a wrapped list of files are the folder plus the names, wrapper taken off. */
  lemma WrapKeyed(files: seq<ArchiveFile>, w: string, folder: string)
    requires files != [] && IsSegment(w)
    ensures KeyStrings(Keyed(WrapFiles(files, w), folder)) == PlainKeyed(files, folder)
  {
    hide NoDuplicates, Wrapper, KeyStrings;
    WrapNames(files, w);
    WrapWrapper(files, w);
    forall i | 0 <= i < |files|
      ensures KeyOf(WrapFiles(files, w)[i], Some(w), folder) == PlainKeys(files, folder)[i]
    {
      WrapParts(w, files[i].name);
    }
    KeyStringsAre(WrapFiles(files, w), Some(w), folder, PlainKeys(files, folder));
    ErrorStays(BadRequest);
  }

  lemma ErrorStays(e: Rejection)
    ensures KeyStrings(Err(e)) == Err(e)
  {
  }

  lemma UnwrappedKeyed(files: seq<ArchiveFile>, folder: string)
    requires Wrapper(files).None?
    ensures KeyStrings(Keyed(files, folder)) == PlainKeyed(files, folder)
  {
    hide NoDuplicates, KeyStrings;
    KeyStringsAre(files, None, folder, PlainKeys(files, folder));
    ErrorStays(BadRequest);
  }

  /** Neither the validated files nor the kept ones lie in one top-level folder. */
  predicate HasNoOwnWrapper(matches: Matcher, entries: seq<ZipEntry>)
  {
    var validated := Validated(entries);
    validated.Ok? ==>
      && Wrapper(validated.value).None?
      && var kept := Publishable(matches, validated.value); kept.Ok? ==> Wrapper(kept.value).None?
  }

  /** Wrapping an archive that has no wrapper of its own changes nothing: same acceptance, same
      reason for rejection, same keys in the same order. */
  lemma WrappingIsTransparent(matches: Matcher, entries: seq<ZipEntry>, w: string, folder: string)
    requires IsWrapperName(w) && IsCleanArchive(entries) && HasNoOwnWrapper(matches, entries)
    ensures KeyStrings(Keys(matches, WrapAll(entries, w), folder)) == KeyStrings(Keys(matches, entries, folder))
  {
    WrapValidated(entries, w);
    if Validated(entries).Ok? {
      var files := Validated(entries).value;
      ValidatedIsProper(entries);
      WrapPublishable(matches, files, w);
      var kept := Publishable(matches, files);
      if kept.Ok? {
        PublishableIsPart(matches, files);
        WrapKeyed(kept.value, w, folder);
        UnwrappedKeyed(kept.value, folder);
      }
    }
  }

  // ---------------------------------------------------------------- the converse

  /** Stripping a wrapper shortens the first key. */
  lemma StrippedFirstKey(kept: seq<ArchiveFile>, f: string, folder: string)
    requires Wrapper(kept) == Some(f) && NoDuplicates(NamesOf(kept))
    ensures kept != [] && KeyStrings(Keyed(kept, folder)).Ok? && |KeyStrings(Keyed(kept, folder)).value| == |kept|
    ensures KeyStrings(Keyed(kept, folder)).value[0] != folder + "/" + kept[0].name
  {
    hide NoDuplicates;
    assert IsUnder(kept[0], f);
    UnderStarts(kept[0], f);
    assert |KeyOf(kept[0], Some(f), folder)| < |folder + "/" + kept[0].name|;
  }

  lemma {:induction false} FirstNamedIsDropped(matches: Matcher, files: seq<ArchiveFile>, g: Ignore)
    requires FirstNamed(files, g.file.name).Some?
    ensures |Collect(files, KeepUnless(matches, g))| < |files|
  {
    if files[0].name != g.file.name {
      FirstNamedIsDropped(matches, files[1..], g);
    } else {
      CollectIsShorter(files[1..], KeepUnless(matches, g));
    }
  }

  lemma WithoutIgnoreAllIsPublishable(matches: Matcher, files: seq<ArchiveFile>)
    requires IgnoreOf(files).None?
    ensures Publishable(matches, files) == Ok(files)
  {
  }

  /** What a wrapped list without a root ignore file publishes: everything, under its name. */
  lemma WrappedWithoutIgnore(matches: Matcher, files: seq<ArchiveFile>, w: string, folder: string)
    requires files != [] && IsSegment(w) && FirstNamed(files, IGNORE_NAME).None?
    ensures Publishable(matches, WrapFiles(files, w)) == Ok(WrapFiles(files, w))
    ensures KeyStrings(Keyed(WrapFiles(files, w), folder)) == PlainKeyed(files, folder)
  {
    WrapIgnore(files, w);
    WithoutIgnoreAllIsPublishable(matches, WrapFiles(files, w));
    WrapKeyed(files, w, folder);
  }

  /** Names that differ still differ among the kept files. */
  lemma {:induction false} KeptNamesDiffer(matches: Matcher, files: seq<ArchiveFile>, g: Ignore)
    requires NoDuplicates(NamesOf(files))
    ensures NoDuplicates(NamesOf(Collect(files, KeepUnless(matches, g))))
  {
    if files != [] {
      var keep := KeepUnless(matches, g);
      var rest := Collect(files[1..], keep);
      RestNamesDiffer(files);
      KeptNamesDiffer(matches, files[1..], g);
      if keep(files[0]).Some? {
        forall i | 0 <= i < |rest|
          ensures rest[i].name != files[0].name
        {
          CollectMember(files[1..], keep, rest[i]);
          var j :| 0 <= j < |files[1..]| && files[1..][j] == rest[i];
          assert NamesOf(files)[0] != NamesOf(files)[j + 1];
        }
        ConsNamesDiffer(files[0], rest);
      } else {
        assert [] + rest == rest;
      }
    }
  }

  lemma RestNamesDiffer(files: seq<ArchiveFile>)
    requires files != [] && NoDuplicates(NamesOf(files))
    ensures NoDuplicates(NamesOf(files[1..]))
  {
    assert NamesOf(files[1..]) == NamesOf(files)[1..];
  }

  lemma ConsNamesDiffer(f: ArchiveFile, rest: seq<ArchiveFile>)
    requires NoDuplicates(NamesOf(rest)) && forall i :: 0 <= i < |rest| ==> rest[i].name != f.name
    ensures NoDuplicates(NamesOf([f] + rest))
  {
    assert NamesOf([f] + rest) == [f.name] + NamesOf(rest);
  }

  lemma PublishableNamesDiffer(matches: Matcher, files: seq<ArchiveFile>)
    requires Publishable(matches, files).Ok? && NoDuplicates(NamesOf(files))
    ensures NoDuplicates(NamesOf(Publishable(matches, files).value))
  {
    if IgnoreOf(files).Some? {
      KeptNamesDiffer(matches, files, IgnoreOf(files).value);
    }
  }

  /** Kept files that share a folder lose it, or are rejected inside and outside alike. */
  lemma OwnKeysDiffer(kept: seq<ArchiveFile>, folder: string)
    requires Wrapper(kept).Some?
    ensures KeyStrings(Keyed(kept, folder)) == PlainKeyed(kept, folder) <==> !NoDuplicates(NamesOf(kept))
    ensures !NoDuplicates(NamesOf(kept)) ==> KeyStrings(Keyed(kept, folder)) == Err(BadRequest)
  {
    hide NoDuplicates, Wrapper;
    if NoDuplicates(NamesOf(kept)) {
      StrippedFirstKey(kept, Wrapper(kept).value, folder);
    }
  }

  /** The archive has no wrapper, but what its root ignore file leaves has one. */
  lemma KeptWrapperCase(matches: Matcher, entries: seq<ZipEntry>, w: string, folder: string)
    requires IsWrapperName(w) && IsCleanArchive(entries) && Validated(entries).Ok?
    requires Wrapper(Validated(entries).value).None? && !HasNoOwnWrapper(matches, entries)
    ensures KeyStrings(Keys(matches, WrapAll(entries, w), folder)) == KeyStrings(Keys(matches, entries, folder))
            <==> Keys(matches, entries, folder) == Err(BadRequest) && !NoDuplicates(NamesOf(Validated(entries).value))
  {
    var files := Validated(entries).value;
    var kept := Publishable(matches, files).value;
    ValidatedIsProper(entries);
    WrapValidated(entries, w);
    WrapPublishable(matches, files, w);
    PublishableIsPart(matches, files);
    WrapKeyed(kept, w, folder);
    OwnKeysDiffer(kept, folder);
    if NoDuplicates(NamesOf(files)) {
      PublishableNamesDiffer(matches, files);
    }
    hide Validated, Publishable, NoDuplicates, Wrapper, PlainKeyed;
  }

  lemma NoRootIgnoreBelow(files: seq<ArchiveFile>)
    requires Wrapper(files).Some?
    ensures FirstNamed(files, IGNORE_NAME).None?
  {
    WrapperIff(files, Wrapper(files).value);
    IgnoreNameIsField();
    FirstNamedIff(files, IGNORE_NAME);
  }

  /** The archive has a wrapper: outside another one its ignore file is no longer honoured. */
  lemma OwnWrapperCase(matches: Matcher, entries: seq<ZipEntry>, w: string, folder: string)
    requires IsWrapperName(w) && IsCleanArchive(entries) && Validated(entries).Ok?
    requires Wrapper(Validated(entries).value).Some?
    ensures KeyStrings(Keys(matches, WrapAll(entries, w), folder)) == KeyStrings(Keys(matches, entries, folder))
            <==> Keys(matches, entries, folder) == Err(BadRequest) && !NoDuplicates(NamesOf(Validated(entries).value))
  {
    var files := Validated(entries).value;
    ValidatedIsProper(entries);
    WrapValidated(entries, w);
    NoRootIgnoreBelow(files);
    WrappedWithoutIgnore(matches, files, w, folder);
    OwnWrapperOutcome(matches, files, folder);
    hide Validated, Publishable, NoDuplicates, Wrapper, PlainKeyed, Keyed;
  }

  lemma OwnWrapperOutcome(matches: Matcher, files: seq<ArchiveFile>, folder: string)
    requires files != [] && Wrapper(files).Some?
    ensures var p := Publishable(matches, files);
            p.Ok? ==> (KeyStrings(Keyed(p.value, folder)) == PlainKeyed(files, folder)
                       <==> Keyed(p.value, folder) == Err(BadRequest) && !NoDuplicates(NamesOf(files)))
    ensures PlainKeyed(files, folder) == Err(BadRequest) <==> !NoDuplicates(NamesOf(files))
    ensures PlainKeyed(files, folder) != Err(InternalError)
    ensures Publishable(matches, files).Err? ==> Publishable(matches, files).error in {BadRequest, InternalError}
  {
    var p := Publishable(matches, files);
    if p.Ok? {
      var kept := p.value;
      PublishableIsPart(matches, files);
      WrapperIff(files, Wrapper(files).value);
      WrapperIff(kept, Wrapper(files).value);
      OwnKeysDiffer(kept, folder);
      if NoDuplicates(NamesOf(files)) {
        PublishableNamesDiffer(matches, files);
      }
      if NoDuplicates(NamesOf(kept)) {
        StrippedFirstKey(kept, Wrapper(kept).value, folder);
        if IgnoreOf(files).Some? {
          DroppedIgnoreShortens(matches, files);
        } else {
          WithoutIgnoreAllIsPublishable(matches, files);
        }
      }
    }
    hide NoDuplicates, Wrapper, Publishable, IgnoreOf;
  }

  lemma DroppedIgnoreShortens(matches: Matcher, files: seq<ArchiveFile>)
    requires IgnoreOf(files).Some? && Publishable(matches, files).Ok?
    ensures |Publishable(matches, files).value| < |files|
  {
    var g := IgnoreOf(files).value;
    FirstNamedIff(files, g.file.name);
    FirstNamedIff(files, IGNORE_NAME);
    if Wrapper(files).Some? {
      FirstNamedIff(files, Wrapper(files).value + "/" + IGNORE_NAME);
    }
    FirstNamedIsDropped(matches, files, g);
  }

  /** Main result. An archive of clean names comes to the same inside a wrapper folder, keys or
      reason for rejection, if and only if it has no wrapper of its own, or it is rejected as a
      bad request while two of its files have the same name. */
  lemma WrappingIsTransparentIff(matches: Matcher, entries: seq<ZipEntry>, w: string, folder: string)
    requires IsWrapperName(w) && IsCleanArchive(entries)
    ensures KeyStrings(Keys(matches, WrapAll(entries, w), folder)) == KeyStrings(Keys(matches, entries, folder))
            <==> HasNoOwnWrapper(matches, entries)
                 || (Keys(matches, entries, folder) == Err(BadRequest) && !NoDuplicates(NamesOf(Validated(entries).value)))
  {
    if HasNoOwnWrapper(matches, entries) {
      WrappingIsTransparent(matches, entries, w, folder);
    } else if Wrapper(Validated(entries).value).None? {
      KeptWrapperCase(matches, entries, w, folder);
    } else {
      OwnWrapperCase(matches, entries, w, folder);
    }
    hide Keys, KeyStrings, Wrapper, Publishable, Validated, NoDuplicates;
  }

  // ---------------------------------------------------------------- a rejected archive revived

  lemma FolderEntry(e: ZipEntry, v: string, name: string)
    requires IsWrapperName(v) && IsSegment(name) && name != ".DS_Store" && e.name == v + "/" + name && !e.isDir
    ensures IsProper(e.name) && Before(e.name, '/') == v && '/' in e.name
    ensures !IsBad(e) && ToFile(e) == Some(ArchiveFile(e.name, e))
  {
    SplitField(name, '/');
    WrappedIsProper(v, name);
    WrapParts(v, name);
    BaseOfField(name);
    ProperIsFine(e.name);
    assert name[|name| - 1] in name && e.name[|e.name| - 1] == name[|name| - 1];
    hide IsProper, Clean, Escapes, Base, Before;
  }

  lemma PairCollected<T, U>(a: T, b: T, f: T -> Option<U>)
    ensures Collect([a, b], f) == (if f(a).Some? then [f(a).value] else []) + (if f(b).Some? then [f(b).value] else [])
  {
    CollectOfConcat([a], [b], f);
    CollectOne(a, f);
    CollectOne(b, f);
    assert [a, b] == [a] + [b];
  }

  lemma PairValidated(e1: ZipEntry, e2: ZipEntry, f1: ArchiveFile, f2: ArchiveFile)
    requires !IsBad(e1) && !IsBad(e2) && ToFile(e1) == Some(f1) && ToFile(e2) == Some(f2)
    ensures Validated([e1, e2]) == Ok([f1, f2])
  {
    hide IsBad, ToFile;
    PairCollected(e1, e2, ToFile);
    assert [f1] + [f2] == [f1, f2];
    assert forall e :: e in [e1, e2] ==> e == e1 || e == e2;
  }

  lemma PairExcluded(matches: Matcher, f: ArchiveFile, g: ArchiveFile, v: string)
    requires f.name == v + "/" + IGNORE_NAME && f.file.readable && IsUnder(f, v) && IsUnder(g, v)
    requires forall n :: matches(f.file.data, n)
    ensures Wrapper([f, g]) == Some(v) && Publishable(matches, [f, g]) == Err(BadRequest)
  {
    WrapperIff([f, g], v);
    NoRootIgnoreBelow([f, g]);
    assert FirstNamed([f, g], v + "/" + IGNORE_NAME) == Some(f);
    PairCollected(f, g, KeepUnless(matches, Ignore(f, v + "/")));
    assert matches(f.file.data, TrimPrefix(g.name, v + "/"));
    hide Wrapper, Collect;
  }

  /** A folder whose ignore file excludes everything is rejected; inside another folder the
      ignore file is no longer honoured, and everything is published. */
  lemma WrappingRevives(matches: Matcher, f: ZipEntry, g: ZipEntry, v: string, w: string, folder: string)
    requires IsWrapperName(v) && IsWrapperName(w) && (forall n :: matches(f.data, n))
    requires f.name == v + "/" + IGNORE_NAME && !f.isDir && f.readable
    requires g.name == v + "/" + "a" && !g.isDir
    ensures IsCleanArchive([f, g]) && Keys(matches, [f, g], folder) == Err(BadRequest)
    ensures KeyStrings(Keys(matches, WrapAll([f, g], w), folder)) == Ok([folder + "/" + f.name, folder + "/" + g.name])
  {
    hide Validated, Publishable, Wrapper, Keyed, IsProper, ToFile, IsBad, WrapAll, KeyStrings, NoDuplicates, Before, IsSegment;
    var x, y := ArchiveFile(f.name, f), ArchiveFile(g.name, g);
    IgnoreIsSegment();
    FolderEntry(f, v, IGNORE_NAME);
    FolderEntry(g, v, "a");
    PairValidated(f, g, x, y);
    PairExcluded(matches, x, y, v);
    assert IsCleanArchive([f, g]);
    NoRootIgnoreBelow([x, y]);
    RevivedKeys(matches, [f, g], x, y, w, folder);
    SamePrefix(v, IGNORE_NAME, "a");
    TwoNames(x, y, folder);
  }

  lemma IgnoreIsSegment()
    ensures IsSegment(IGNORE_NAME) && IsSegment("a") && IGNORE_NAME != ".DS_Store" && IGNORE_NAME != "a"
  {
  }

  lemma RevivedKeys(matches: Matcher, entries: seq<ZipEntry>, x: ArchiveFile, y: ArchiveFile, w: string, folder: string)
    requires IsWrapperName(w) && IsCleanArchive(entries) && Validated(entries) == Ok([x, y])
    requires FirstNamed([x, y], IGNORE_NAME).None?
    ensures KeyStrings(Keys(matches, WrapAll(entries, w), folder)) == PlainKeyed([x, y], folder)
  {
    WrapValidated(entries, w);
    WrappedWithoutIgnore(matches, [x, y], w, folder);
    hide Validated, Publishable, Keyed, IsCleanArchive, FirstNamed, WrapAll, WrapFiles, PlainKeyed;
  }

  lemma TwoNames(x: ArchiveFile, y: ArchiveFile, folder: string)
    requires x.name != y.name
    ensures PlainKeyed([x, y], folder) == Ok([folder + "/" + x.name, folder + "/" + y.name])
  {
    assert NoDuplicates(NamesOf([x, y]));
    assert PlainKeys([x, y], folder) == [folder + "/" + x.name, folder + "/" + y.name];
  }
}
