/** The order of archive entries: when it decides nothing and when it decides what is published.
    Two entries can clean to the one path where an ignore file is honoured; the first in archive
    order is read, and both are dropped (internal/content/archive-keys.go:115-173). */
module ArchiveOrder {
  import opened Strings
  import opened Paths
  import opened ObjectStore
  import opened Archive
  import opened ArchiveLaws
  import Semver

  lemma PermutationHasSameMembers<T>(a: seq<T>, b: seq<T>)
    requires multiset(a) == multiset(b)
    ensures forall x :: x in a <==> x in b
    ensures |a| == |b|
  {
    forall x
      ensures x in a <==> x in b
    {
      assert x in multiset(a) <==> x in multiset(b);
    }
    assert |multiset(a)| == |multiset(b)|;
  }

  lemma SameWrapper(a: seq<ArchiveFile>, b: seq<ArchiveFile>)
    requires (forall f :: f in a <==> f in b)
    ensures Wrapper(a) == Wrapper(b)
  {
    if Wrapper(a).Some? {
      WrapperIff(a, Wrapper(a).value);
      assert a[0] in b;
      WrapperIff(b, Wrapper(a).value);
    } else if Wrapper(b).Some? {
      WrapperIff(b, Wrapper(b).value);
      assert b[0] in a;
      WrapperIff(a, Wrapper(b).value);
    }
  }

  /** Both rejected for the same reason, or both accepted with the same objects, counted. */
  predicate SameUpToOrder<T(==)>(a: Result<seq<T>>, b: Result<seq<T>>)
  {
    if a.Ok? then b.Ok? && multiset(a.value) == multiset(b.value) else b == a
  }

  lemma CountAt(s: seq<string>, i: nat)
    requires i < |s|
    ensures multiset(s)[s[i]] == multiset(s[..i])[s[i]] + 1 + multiset(s[i + 1..])[s[i]]
  {
    assert s == s[..i] + [s[i]] + s[i + 1..];
    assert multiset(s) == multiset(s[..i]) + multiset{s[i]} + multiset(s[i + 1..]);
  }

  /** Absence of duplicates is a matter of multiplicities. */
  lemma NoDuplicatesIff(s: seq<string>)
    ensures NoDuplicates(s) <==> forall x :: x in s ==> multiset(s)[x] == 1
  {
    if NoDuplicates(s) {
      forall x | x in s
        ensures multiset(s)[x] == 1
      {
        var i :| 0 <= i < |s| && s[i] == x;
        CountAt(s, i);
        assert x !in s[..i] && x !in s[i + 1..];
      }
    } else {
      var i, j :| 0 <= i < j < |s| && s[i] == s[j];
      CountAt(s, i);
      assert s[i + 1..][j - i - 1] == s[i];
      assert s[i] in s[i + 1..];
    }
  }

  function NameOf(f: ArchiveFile): Semver.Option<string>
  {
    Semver.Some(f.name)
  }

  function ObjectOf(wrapper: Semver.Option<string>, folder: string): ArchiveFile -> Semver.Option<ArchiveObject>
  {
    (f: ArchiveFile) => Semver.Some(ArchiveObject(KeyOf(f, wrapper, folder), f.file))
  }

  lemma {:induction false} NamesAreCollected(files: seq<ArchiveFile>)
    ensures NamesOf(files) == Collect(files, NameOf)
  {
    if files != [] {
      NamesAreCollected(files[1..]);
      assert NamesOf(files) == [files[0].name] + NamesOf(files[1..]);
    }
  }

  lemma {:induction false} ObjectsAreCollected(files: seq<ArchiveFile>, wrapper: Semver.Option<string>, folder: string)
    ensures ObjectsOf(files, wrapper, folder) == Collect(files, ObjectOf(wrapper, folder))
  {
    if files != [] {
      ObjectsAreCollected(files[1..], wrapper, folder);
      assert ObjectsOf(files, wrapper, folder) ==
             [ArchiveObject(KeyOf(files[0], wrapper, folder), files[0].file)] + ObjectsOf(files[1..], wrapper, folder);
    }
  }

  lemma KeyedUpToOrder(a: seq<ArchiveFile>, b: seq<ArchiveFile>, folder: string)
    requires multiset(a) == multiset(b)
    ensures SameUpToOrder(Keyed(a, folder), Keyed(b, folder))
  {
    PermutationHasSameMembers(a, b);
    SameWrapper(a, b);
    NamesAreCollected(a);
    NamesAreCollected(b);
    CollectOfPermutation(a, b, NameOf);
    DuplicatesUpToOrder(NamesOf(a), NamesOf(b));
    ObjectsAreCollected(a, Wrapper(a), folder);
    ObjectsAreCollected(b, Wrapper(a), folder);
    CollectOfPermutation(a, b, ObjectOf(Wrapper(a), folder));
  }

  lemma DuplicatesUpToOrder(s: seq<string>, t: seq<string>)
    requires multiset(s) == multiset(t)
    ensures NoDuplicates(s) == NoDuplicates(t)
  {
    PermutationHasSameMembers(s, t);
    NoDuplicatesIff(s);
    NoDuplicatesIff(t);
  }

  lemma ValidatedUpToOrder(a: seq<ZipEntry>, b: seq<ZipEntry>)
    requires multiset(a) == multiset(b)
    ensures SameUpToOrder(Validated(a), Validated(b))
  {
    PermutationHasSameMembers(a, b);
    CollectOfPermutation(a, b, ToFile);
    PermutationHasSameMembers(Collect(a, ToFile), Collect(b, ToFile));
  }

  // ---------------------------------------------------------------- where the ignore file is

  datatype Site = Site(path: string, prefix: string)

  /** The path an ignore file is honoured at, and the prefix its patterns are matched without. */
  function SiteOf(files: seq<ArchiveFile>): Semver.Option<Site>
  {
    var w := Wrapper(files);
    if FirstNamed(files, IGNORE_NAME).Some? then Semver.Some(Site(IGNORE_NAME, ""))
    else if w.Some? && FirstNamed(files, w.value + "/" + IGNORE_NAME).Some? then
      Semver.Some(Site(w.value + "/" + IGNORE_NAME, w.value + "/"))
    else Semver.None
  }

  lemma IgnoreIsFirstAtSite(files: seq<ArchiveFile>)
    ensures IgnoreOf(files).None? <==> SiteOf(files).None?
    ensures SiteOf(files).Some? ==>
              var s := SiteOf(files).value;
              FirstNamed(files, s.path).Some? && IgnoreOf(files) == Semver.Some(Ignore(FirstNamed(files, s.path).value, s.prefix))
  {
  }

  lemma IsNamedIff(a: seq<ArchiveFile>, b: seq<ArchiveFile>, name: string)
    requires forall f :: f in a <==> f in b
    ensures FirstNamed(a, name).Some? <==> FirstNamed(b, name).Some?
  {
    FirstNamedIff(a, name);
    FirstNamedIff(b, name);
  }

  lemma SameSite(a: seq<ArchiveFile>, b: seq<ArchiveFile>)
    requires forall f :: f in a <==> f in b
    ensures SiteOf(a) == SiteOf(b)
  {
    IsNamedIff(a, b, IGNORE_NAME);
    SameWrapper(a, b);
    if Wrapper(a).Some? {
      IsNamedIff(a, b, Wrapper(a).value + "/" + IGNORE_NAME);
    }
  }

  /** What the files come to under an ignore file with the given readability and contents. */
  function KeysUnder(matches: Matcher, files: seq<ArchiveFile>, s: Site, readable: bool, data: seq<byte>, folder: string): Result<seq<ArchiveObject>>
  {
    var kept := Collect(files, Keep(matches, data, s.path, s.prefix));
    if !readable then Err(InternalError) else if kept == [] then Err(BadRequest) else Keyed(kept, folder)
  }

  lemma KeysBySite(matches: Matcher, entries: seq<ZipEntry>, folder: string)
    requires Validated(entries).Ok?
    ensures var files := Validated(entries).value;
            if SiteOf(files).None? then Keys(matches, entries, folder) == Keyed(files, folder)
            else
              var s := SiteOf(files).value;
              FirstNamed(files, s.path).Some? &&
              var g := FirstNamed(files, s.path).value.file;
              Keys(matches, entries, folder) == KeysUnder(matches, files, s, g.readable, g.data, folder)
  {
    IgnoreIsFirstAtSite(Validated(entries).value);
    if SiteOf(Validated(entries).value).Some? {
      FirstNamedIff(Validated(entries).value, SiteOf(Validated(entries).value).value.path);
    }
    hide Validated, Keyed, IgnoreOf, SiteOf, FirstNamed;
  }

  /** As an ignore file two entries are the same: both unreadable, or readable alike. */
  predicate ReadAlike(a: ZipEntry, b: ZipEntry)
  {
    a.readable == b.readable && (a.readable ==> a.data == b.data)
  }

  predicate AllReadAlike(files: seq<ArchiveFile>, path: string)
  {
    forall f, g :: f in files && g in files && f.name == path && g.name == path ==> ReadAlike(f.file, g.file)
  }

  /** Whatever is excluded, what is left is nothing or holds a duplicate. */
  predicate NothingPublishable(files: seq<ArchiveFile>, path: string)
  {
    && (forall f :: f in files && f.name == path ==> f.file.readable)
    && (forall f :: f in files && f.name != path ==> multiset(NamesOf(files))[f.name] > 1)
  }

  /** Which of the entries at the ignore path comes first makes no difference. */
  predicate ChoiceIsMoot(files: seq<ArchiveFile>)
  {
    SiteOf(files).Some? ==>
      AllReadAlike(files, SiteOf(files).value.path) || NothingPublishable(files, SiteOf(files).value.path)
  }

  // ---------------------------------------------------------------- when order is irrelevant

  lemma {:induction false} KeepsMultiplicity(matches: Matcher, files: seq<ArchiveFile>, s: Site, data: seq<byte>, name: string)
    requires name != s.path && !matches(data, TrimPrefix(name, s.prefix))
    ensures multiset(NamesOf(Collect(files, Keep(matches, data, s.path, s.prefix))))[name] == multiset(NamesOf(files))[name]
  {
    var keep := Keep(matches, data, s.path, s.prefix);
    if files != [] {
      var rest := Collect(files[1..], keep);
      KeepsMultiplicity(matches, files[1..], s, data, name);
      NamesOfCons(files[0], files[1..]);
      assert files == [files[0]] + files[1..];
      if keep(files[0]).Some? {
        NamesOfCons(files[0], rest);
      } else {
        assert [] + rest == rest;
      }
    }
  }

  lemma NamesOfCons(f: ArchiveFile, rest: seq<ArchiveFile>)
    ensures NamesOf([f] + rest) == [f.name] + NamesOf(rest)
    ensures multiset(NamesOf([f] + rest)) == multiset{f.name} + multiset(NamesOf(rest))
  {
    assert NamesOf([f] + rest) == [f.name] + NamesOf(rest);
  }

  lemma NothingIsPublished(matches: Matcher, files: seq<ArchiveFile>, s: Site, data: seq<byte>, folder: string)
    requires NothingPublishable(files, s.path)
    ensures KeysUnder(matches, files, s, true, data, folder) == Err(BadRequest)
  {
    var keep := Keep(matches, data, s.path, s.prefix);
    var kept := Collect(files, keep);
    if kept != [] {
      var f := kept[0];
      CollectMember(files, keep, f);
      KeepsMultiplicity(matches, files, s, data, f.name);
      assert NamesOf(kept)[0] == f.name && f.name in NamesOf(kept);
      NoDuplicatesIff(NamesOf(kept));
    }
  }

  lemma KeysUnderUpToOrder(matches: Matcher, a: seq<ArchiveFile>, b: seq<ArchiveFile>, s: Site, readable: bool, data: seq<byte>, folder: string)
    requires multiset(a) == multiset(b)
    ensures SameUpToOrder(KeysUnder(matches, a, s, readable, data, folder), KeysUnder(matches, b, s, readable, data, folder))
  {
    var keep := Keep(matches, data, s.path, s.prefix);
    CollectOfPermutation(a, b, keep);
    PermutationHasSameMembers(Collect(a, keep), Collect(b, keep));
    KeyedUpToOrder(Collect(a, keep), Collect(b, keep), folder);
    hide Keyed, Keep, Collect;
  }

  /** Where the choice among ignore files is moot, reordering the entries changes neither whether
      an archive is accepted, nor why it is rejected, nor which objects it publishes. */
  lemma OrderIsIrrelevant(matches: Matcher, a: seq<ZipEntry>, b: seq<ZipEntry>, folder: string)
    requires multiset(a) == multiset(b) && (Validated(a).Ok? ==> ChoiceIsMoot(Validated(a).value))
    ensures SameUpToOrder(Keys(matches, a, folder), Keys(matches, b, folder))
  {
    ValidatedUpToOrder(a, b);
    if Validated(a).Ok? {
      var fa, fb := Validated(a).value, Validated(b).value;
      PermutationHasSameMembers(fa, fb);
      SameSite(fa, fb);
      KeysBySite(matches, a, folder);
      KeysBySite(matches, b, folder);
      hide Validated, Keys, KeysUnder, SiteOf, Keyed, NothingPublishable;
      if SiteOf(fa).None? {
        KeyedUpToOrder(fa, fb, folder);
      } else {
        MootChoice(matches, fa, fb, SiteOf(fa).value, folder);
      }
    }
  }

  lemma MootChoice(matches: Matcher, fa: seq<ArchiveFile>, fb: seq<ArchiveFile>, s: Site, folder: string)
    requires multiset(fa) == multiset(fb) && (AllReadAlike(fa, s.path) || NothingPublishable(fa, s.path))
    requires FirstNamed(fa, s.path).Some? && FirstNamed(fb, s.path).Some?
    ensures var g, h := FirstNamed(fa, s.path).value.file, FirstNamed(fb, s.path).value.file;
            SameUpToOrder(KeysUnder(matches, fa, s, g.readable, g.data, folder), KeysUnder(matches, fb, s, h.readable, h.data, folder))
  {
    PermutationHasSameMembers(fa, fb);
    FirstNamedIff(fa, s.path);
    FirstNamedIff(fb, s.path);
    var g, h := FirstNamed(fa, s.path).value.file, FirstNamed(fb, s.path).value.file;
    KeysUnderUpToOrder(matches, fa, fb, s, h.readable, h.data, folder);
    if NothingPublishable(fa, s.path) {
      NothingIsPublished(matches, fa, s, g.data, folder);
      NothingIsPublished(matches, fa, s, h.data, folder);
    }
    hide Keyed, Collect, Keep, FirstNamed, NamesOf;
  }

  // ---------------------------------------------------------------- when order decides

  /** Any validated file can be put first by reordering the entries. */
  lemma PutFirst(entries: seq<ZipEntry>, f: ArchiveFile) returns (b: seq<ZipEntry>)
    requires Validated(entries).Ok? && f in Validated(entries).value
    ensures multiset(b) == multiset(entries) && Validated(b).Ok?
    ensures Validated(b).value != [] && Validated(b).value[0] == f
  {
    CollectMember(entries, ToFile, f);
    var e :| e in entries && ToFile(e) == Semver.Some(f);
    var i :| 0 <= i < |entries| && entries[i] == e;
    var c, d := entries[..i], entries[i + 1..];
    assert entries == c + [e] + d;
    b := [e] + (c + d);
    assert multiset(b) == multiset(entries);
    ValidatedUpToOrder(entries, b);
    assert b[0] == e && b[1..] == c + d;
  }

  /** Both orders are rejected or accepted, but not alike. */
  lemma ChoiceMatters(entries: seq<ZipEntry>, folder: string) returns (matches: Matcher, b: seq<ZipEntry>)
    requires Validated(entries).Ok? && !ChoiceIsMoot(Validated(entries).value)
    ensures multiset(b) == multiset(entries)
    ensures !SameUpToOrder(Keys(matches, entries, folder), Keys(matches, b, folder))
  {
    var files := Validated(entries).value;
    var s := SiteOf(files).value;
    var f, g, m := Rivals(files, s, folder);
    matches := m;
    var b1 := PutFirst(entries, f);
    var b2 := PutFirst(entries, g);
    FirstDecides(matches, entries, b1, s, f, folder);
    FirstDecides(matches, entries, b2, s, g, folder);
    hide Keys, KeysUnder, Validated, ChoiceIsMoot, SiteOf;
    b := if SameUpToOrder(Keys(matches, entries, folder), Keys(matches, b1, folder)) then b2 else b1;
  }

  lemma FirstDecides(matches: Matcher, entries: seq<ZipEntry>, b: seq<ZipEntry>, s: Site, f: ArchiveFile, folder: string)
    requires Validated(entries).Ok? && Validated(b).Ok? && multiset(b) == multiset(entries)
    requires SiteOf(Validated(entries).value) == Semver.Some(s) && f.name == s.path
    requires Validated(b).value != [] && Validated(b).value[0] == f
    ensures SameUpToOrder(Keys(matches, b, folder), KeysUnder(matches, Validated(entries).value, s, f.file.readable, f.file.data, folder))
  {
    var fa, fb := Validated(entries).value, Validated(b).value;
    ValidatedUpToOrder(entries, b);
    PermutationHasSameMembers(fa, fb);
    SameSite(fa, fb);
    KeysBySite(matches, b, folder);
    KeysUnderUpToOrder(matches, fb, fa, s, f.file.readable, f.file.data, folder);
    assert FirstNamed(fb, s.path) == Semver.Some(f);
    hide Keys, KeysUnder, Validated, SiteOf, FirstNamed;
  }

  /** Below the prefix names still differ. */
  lemma TrimIsInjective(files: seq<ArchiveFile>, s: Site, f: ArchiveFile, g: ArchiveFile)
    requires SiteOf(files) == Semver.Some(s) && f in files && g in files
    ensures TrimPrefix(f.name, s.prefix) == TrimPrefix(g.name, s.prefix) <==> f.name == g.name
  {
    if s.prefix == "" {
      assert TrimPrefix(f.name, "") == f.name && TrimPrefix(g.name, "") == g.name;
    } else {
      var w := Wrapper(files).value;
      WrapperIff(files, w);
      UnderStarts(f, w);
      UnderStarts(g, w);
    }
  }

  lemma {:induction false} AllExcluded(matches: Matcher, files: seq<ArchiveFile>, s: Site, data: seq<byte>)
    requires forall n :: matches(data, n)
    ensures Collect(files, Keep(matches, data, s.path, s.prefix)) == []
  {
    if files != [] {
      AllExcluded(matches, files[1..], s, data);
      assert matches(data, TrimPrefix(files[0].name, s.prefix));
    }
  }

  /** Excluding all but one name that occurs once publishes it. */
  lemma OneIsPublished(matches: Matcher, files: seq<ArchiveFile>, s: Site, data: seq<byte>, u: ArchiveFile, folder: string)
    requires u in files && u.name != s.path && multiset(NamesOf(files))[u.name] <= 1
    requires forall f :: f in files && f.name != s.path ==> (matches(data, TrimPrefix(f.name, s.prefix)) <==> f.name != u.name)
    ensures KeysUnder(matches, files, s, true, data, folder).Ok?
  {
    var keep := Keep(matches, data, s.path, s.prefix);
    var kept := Collect(files, keep);
    CollectMember(files, keep, u);
    assert keep(u) == Semver.Some(u);
    KeepsMultiplicity(matches, files, s, data, u.name);
    forall x | x in NamesOf(kept)
      ensures x == u.name
    {
      var i :| 0 <= i < |kept| && NamesOf(kept)[i] == x;
      CollectMember(files, keep, kept[i]);
    }
    assert forall x :: x in NamesOf(kept) ==> multiset(NamesOf(kept))[x] >= 1;
    NoDuplicatesIff(NamesOf(kept));
  }

  /** Two entries at the ignore path and patterns under which they disagree. */
  lemma Rivals(files: seq<ArchiveFile>, s: Site, folder: string) returns (f: ArchiveFile, g: ArchiveFile, matches: Matcher)
    requires SiteOf(files) == Semver.Some(s) && !AllReadAlike(files, s.path) && !NothingPublishable(files, s.path)
    ensures f in files && g in files && f.name == s.path && g.name == s.path
    ensures !SameUpToOrder(KeysUnder(matches, files, s, f.file.readable, f.file.data, folder),
                           KeysUnder(matches, files, s, g.file.readable, g.file.data, folder))
  {
    f, g :| f in files && g in files && f.name == s.path && g.name == s.path && !ReadAlike(f.file, g.file);
    matches := (d, n) => false;
    if f.file.readable == g.file.readable {
      if h :| h in files && h.name == s.path && !h.file.readable {
        f := h;
        assert !ReadAlike(h.file, g.file);
      } else {
        var u :| u in files && u.name != s.path && multiset(NamesOf(files))[u.name] <= 1;
        matches := (d, n) => d == f.file.data || n != TrimPrefix(u.name, s.prefix);
        forall v | v in files && v.name != s.path
          ensures matches(g.file.data, TrimPrefix(v.name, s.prefix)) <==> v.name != u.name
        {
          TrimIsInjective(files, s, v, u);
        }
        AllExcluded(matches, files, s, f.file.data);
        OneIsPublished(matches, files, s, g.file.data, u, folder);
      }
    }
  }

  /** Main result. The outcome is independent of the order of the entries, for every set of
      patterns, if and only if the archive is rejected as it stands or the choice among the
      entries at its ignore path is moot. */
  lemma OrderIsIrrelevantIff(entries: seq<ZipEntry>, folder: string)
    ensures (forall matches: Matcher, b: seq<ZipEntry> :: multiset(b) == multiset(entries) ==>
              SameUpToOrder(Keys(matches, entries, folder), Keys(matches, b, folder)))
            <==> (Validated(entries).Ok? ==> ChoiceIsMoot(Validated(entries).value))
  {
    hide Validated, ChoiceIsMoot, Keys, SameUpToOrder;
    if Validated(entries).Ok? ==> ChoiceIsMoot(Validated(entries).value) {
      forall matches: Matcher, b: seq<ZipEntry> | multiset(b) == multiset(entries)
        ensures SameUpToOrder(Keys(matches, entries, folder), Keys(matches, b, folder))
      {
        OrderIsIrrelevant(matches, entries, b, folder);
      }
    } else {
      var matches, b := ChoiceMatters(entries, folder);
    }
  }

  // ---------------------------------------------------------------- an archive on which it decides

  function Plain(name: string, data: seq<byte>): ZipEntry
  {
    ZipEntry(name, false, |data|, data, true)
  }

  lemma PlainName(name: string)
    requires IsSegment(name) && name != "__MACOSX" && name != ".DS_Store"
    ensures Clean(name) == name && !Escapes(name) && !IsArchiveJunk(name)
  {
    SplitField(name, '/');
    ProperIsClean(name);
    EscapesIff(name);
    BaseOfField(name);
  }

  lemma DottedName(name: string)
    requires IsSegment(name)
    ensures Clean("./" + name) == name
  {
    SplitField(name, '/');
    SplitFirst(".", name, '/');
    assert "." + ['/'] + name == "./" + name;
    assert Split("./" + name, '/') == [".", name];
    assert [".", name][1..] == [name] && [name][1..] == [];
    assert [] + [name] == [name];
    assert Collapse([], [name]) == Collapse([name], []);
    assert Collapse([], [".", name]) == Collapse([], [name]);
  }

  /** ".gimmeignore" and "./.gimmeignore" are one path. If the first excludes the only other file
      and the second does not, the archive is rejected in one order and accepted in the other. */
  lemma IgnoreOrderDecides(matches: Matcher, first: seq<byte>, second: seq<byte>, folder: string)
    requires matches(first, "a") && !matches(second, "a")
    ensures var f, g, a := Plain(IGNORE_NAME, first), Plain("./" + IGNORE_NAME, second), Plain("a", []);
            && Keys(matches, [f, g, a], folder) == Err(BadRequest)
            && Keys(matches, [g, f, a], folder) == Ok([ArchiveObject(folder + "/" + "a", a)])
  {
    hide Validated, Publishable, Keyed, ToFile, IsBad, Clean;
    var f, g, a := Plain(IGNORE_NAME, first), Plain("./" + IGNORE_NAME, second), Plain("a", []);
    var x, y, z := ArchiveFile(IGNORE_NAME, f), ArchiveFile(IGNORE_NAME, g), ArchiveFile("a", a);
    SegmentIsFile(IGNORE_NAME, first);
    SegmentIsFile("a", []);
    DottedIsFile(IGNORE_NAME, second);
    ThreeValidated(f, g, a, x, y, z);
    ThreeValidated(g, f, a, y, x, z);
    IgnoreLeaves(matches, x, y, z);
    IgnoreLeaves(matches, y, x, z);
    OneKey(z, folder);
  }

  lemma SegmentIsFile(name: string, data: seq<byte>)
    requires IsSegment(name) && name != "__MACOSX" && name != ".DS_Store"
    ensures ToFile(Plain(name, data)) == Semver.Some(ArchiveFile(name, Plain(name, data))) && !IsBad(Plain(name, data))
  {
    assert name[0] in name && name[|name| - 1] in name;
    PlainName(name);
    PlainIsFile(Plain(name, data), name);
    hide IsSegment, ToFile, IsBad;
  }

  lemma DottedIsFile(name: string, data: seq<byte>)
    requires IsSegment(name) && name != "__MACOSX" && name != ".DS_Store"
    ensures var e := Plain("./" + name, data); ToFile(e) == Semver.Some(ArchiveFile(name, e)) && !IsBad(e)
  {
    var e := Plain("./" + name, data);
    assert name[|name| - 1] in name && e.name[|e.name| - 1] == name[|name| - 1];
    PlainName(name);
    DottedName(name);
    PlainIsFile(e, name);
    hide IsSegment, ToFile, IsBad;
  }

  lemma PlainIsFile(e: ZipEntry, cleaned: string)
    requires !e.isDir && e.name != "" && e.name[0] != '/' && e.name[|e.name| - 1] != '/' && Clean(e.name) == cleaned
    requires !Escapes(cleaned) && !IsArchiveJunk(cleaned)
    ensures ToFile(e) == Semver.Some(ArchiveFile(cleaned, e)) && !IsBad(e)
  {
    hide Clean, Escapes, IsArchiveJunk;
    assert e.name[|e.name| - 1..] == [e.name[|e.name| - 1]];
  }

  lemma OneKey(f: ArchiveFile, folder: string)
    requires '/' !in f.name
    ensures Keyed([f], folder) == Ok([ArchiveObject(folder + "/" + f.name, f.file)])
  {
    assert !IsUnder([f][0], Before(f.name, '/'));
    assert Wrapper([f]).None?;
    assert NamesOf([f]) == [f.name];
    assert ObjectsOf([f], Semver.None, folder) == [ArchiveObject(folder + "/" + f.name, f.file)];
  }

  lemma ThreeValidated(e1: ZipEntry, e2: ZipEntry, e3: ZipEntry, f1: ArchiveFile, f2: ArchiveFile, f3: ArchiveFile)
    requires ToFile(e1) == Semver.Some(f1) && ToFile(e2) == Semver.Some(f2) && ToFile(e3) == Semver.Some(f3)
    requires !IsBad(e1) && !IsBad(e2) && !IsBad(e3)
    ensures Validated([e1, e2, e3]) == Ok([f1, f2, f3])
  {
    hide ToFile, IsBad;
    CollectThree(e1, e2, e3, ToFile);
    assert [f1] + [f2] + [f3] == [f1, f2, f3];
    assert forall e :: e in [e1, e2, e3] ==> e == e1 || e == e2 || e == e3;
  }

  lemma CollectThree<T, U>(a: T, b: T, c: T, f: T -> Semver.Option<U>)
    ensures Collect([a, b, c], f) ==
            (if f(a).Some? then [f(a).value] else []) + (if f(b).Some? then [f(b).value] else []) + (if f(c).Some? then [f(c).value] else [])
  {
    assert [a, b, c] == [a] + ([b] + [c]);
    CollectOfConcat([a], [b] + [c], f);
    CollectOfConcat([b], [c], f);
    CollectOne(a, f);
    CollectOne(b, f);
    CollectOne(c, f);
  }

  lemma IgnoreLeaves(matches: Matcher, x: ArchiveFile, y: ArchiveFile, z: ArchiveFile)
    requires x.name == IGNORE_NAME && y.name == IGNORE_NAME && z.name == "a" && x.file.readable
    ensures Publishable(matches, [x, y, z]) == if matches(x.file.data, "a") then Err(BadRequest) else Ok([z])
  {
    var g := Ignore(x, "");
    assert FirstNamed([x, y, z], IGNORE_NAME) == Semver.Some(x);
    CollectThree(x, y, z, KeepUnless(matches, g));
    assert TrimPrefix("a", "") == "a";
    assert [] + [] + [z] == [z];
    hide Collect;
  }
}
