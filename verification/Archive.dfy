/** From archive entries to object keys: internal/content/archive-keys.go. Names are taken as
    already in Unicode normal form; what an ignore file excludes is a predicate of its contents
    and a path. */
module Archive {
  import opened Strings
  import opened Paths
  import opened ObjectStore
  import Semver

  const IGNORE_NAME := ".gimmeignore"
  const MAX_UINT64 := 0xFFFF_FFFF_FFFF_FFFF

  /** One entry of the archive. `readable` tells whether its contents can be read back. */
  datatype ZipEntry = ZipEntry(name: string, isDir: bool, size: nat, data: seq<byte>, readable: bool)

  datatype ArchiveFile = ArchiveFile(name: string, file: ZipEntry)

  datatype ArchiveObject = ArchiveObject(key: string, file: ZipEntry)

  datatype Rejection = BadRequest | PayloadTooLarge | InternalError

  datatype Result<+T> = Ok(value: T) | Err(error: Rejection)

  /** Whether an ignore file with the given contents excludes a path. */
  type Matcher = (seq<byte>, string) -> bool

  // ---------------------------------------------------------------- collecting

  /** The results of a partial function along a sequence. */
  function Collect<T, U>(s: seq<T>, f: T -> Semver.Option<U>): seq<U>
  {
    if s == [] then []
    else (if f(s[0]).Some? then [f(s[0]).value] else []) + Collect(s[1..], f)
  }

  lemma {:induction false} CollectOfConcat<T, U>(a: seq<T>, b: seq<T>, f: T -> Semver.Option<U>)
    ensures Collect(a + b, f) == Collect(a, f) + Collect(b, f)
  {
    if a == [] {
      assert a + b == b;
    } else {
      assert (a + b)[0] == a[0] && (a + b)[1..] == a[1..] + b;
      CollectOfConcat(a[1..], b, f);
      var head: seq<U> := if f(a[0]).Some? then [f(a[0]).value] else [];
      assert head + (Collect(a[1..], f) + Collect(b, f)) == (head + Collect(a[1..], f)) + Collect(b, f);
    }
  }

  lemma {:induction false} CollectMember<T, U>(s: seq<T>, f: T -> Semver.Option<U>, u: U)
    ensures u in Collect(s, f) <==> exists t :: t in s && f(t) == Semver.Some(u)
  {
    if s != [] {
      CollectMember(s[1..], f, u);
      assert s == [s[0]] + s[1..];
      assert s[0] in s;
    }
  }

  lemma {:induction false} CollectIsShorter<T, U>(s: seq<T>, f: T -> Semver.Option<U>)
    ensures |Collect(s, f)| <= |s|
  {
    if s != [] {
      CollectIsShorter(s[1..], f);
    }
  }

  lemma CollectOne<T, U>(t: T, f: T -> Semver.Option<U>)
    ensures Collect([t], f) == if f(t).Some? then [f(t).value] else []
  {
    assert [t][1..] == [];
  }

  /** The first element of s taken out of a permutation of s. */
  lemma TakeOut<T>(s: seq<T>, t: seq<T>) returns (a: seq<T>, b: seq<T>)
    requires multiset(s) == multiset(t) && s != []
    ensures s == [s[0]] + s[1..] && t == a + [s[0]] + b && multiset(s[1..]) == multiset(a + b)
  {
    assert s == [s[0]] + s[1..];
    assert multiset(s) == multiset{s[0]} + multiset(s[1..]);
    assert s[0] in multiset(t);
    var i :| 0 <= i < |t| && t[i] == s[0];
    a, b := t[..i], t[i + 1..];
    assert t == a + [s[0]] + b;
    MultisetOfSplit(a, s[0], b);
    assert multiset(s[1..]) == multiset(s) - multiset{s[0]};
  }

  lemma MultisetOfSplit<T>(a: seq<T>, x: T, b: seq<T>)
    ensures multiset(a + b) == multiset(a + [x] + b) - multiset{x}
  {
  }

  /** Collecting from a permutation gives a permutation. */
  lemma {:induction false} CollectOfPermutation<T, U>(s: seq<T>, t: seq<T>, f: T -> Semver.Option<U>)
    requires multiset(s) == multiset(t)
    ensures multiset(Collect(s, f)) == multiset(Collect(t, f))
  {
    if s == [] {
      assert |multiset(t)| == 0;
      assert t == [];
    } else {
      var a, b := TakeOut(s, t);
      CollectOfPermutation(s[1..], a + b, f);
      CollectOfConcat(a + [s[0]], b, f);
      CollectOfConcat(a, [s[0]], f);
      CollectOfConcat(a, b, f);
      CollectOfConcat([s[0]], s[1..], f);
    }
  }

  // ---------------------------------------------------------------- validation

  predicate IsFile(e: ZipEntry)
  {
    !e.isDir && !HasSuffix(e.name, "/")
  }

  /** The names that reject the whole archive. */
  predicate IsBad(e: ZipEntry)
  {
    IsFile(e) && (e.name == "" || "/" <= e.name || Escapes(Clean(e.name)))
  }

  /** The last element of a path. */
  function Base(name: string): string
  {
    if name == [] || name[|name| - 1] == '/' then [] else Base(name[..|name| - 1]) + [name[|name| - 1]]
  }

  predicate IsArchiveJunk(cleaned: string)
  {
    Before(cleaned, '/') == "__MACOSX" || Base(cleaned) == ".DS_Store"
  }

  function ToFile(e: ZipEntry): Semver.Option<ArchiveFile>
  {
    if !IsFile(e) || IsArchiveJunk(Clean(e.name)) then Semver.None
    else Semver.Some(ArchiveFile(Clean(e.name), e))
  }

  function Validated(entries: seq<ZipEntry>): Result<seq<ArchiveFile>>
  {
    if exists e :: e in entries && IsBad(e) then Err(BadRequest)
    else
      var files := Collect(entries, ToFile);
      if files == [] then Err(BadRequest) else Ok(files)
  }

  /** `validatedEntries` (archive-keys.go:54-87). */
  method ValidatedEntries(entries: seq<ZipEntry>) returns (r: Result<seq<ArchiveFile>>)
    ensures r == Validated(entries)
  {
    hide Clean, Escapes, IsArchiveJunk, HasSuffix;
    var files: seq<ArchiveFile> := [];
    for i := 0 to |entries|
      invariant files == Collect(entries[..i], ToFile)
      invariant forall j :: 0 <= j < i ==> !IsBad(entries[j])
    {
      var e := entries[i];
      assert e in entries;
      CollectNext(entries, i);
      if e.isDir || HasSuffix(e.name, "/") {
        continue;
      }
      if e.name == "" || "/" <= e.name {
        assert IsBad(e);
        return Err(BadRequest);
      }
      var cleaned := Clean(e.name);
      if Escapes(cleaned) {
        assert IsBad(e);
        return Err(BadRequest);
      }
      if IsArchiveJunk(cleaned) {
        continue;
      }
      files := files + [ArchiveFile(cleaned, e)];
    }
    assert entries[..|entries|] == entries;
    if |files| == 0 {
      return Err(BadRequest);
    }
    return Ok(files);
  }

  lemma CollectNext(entries: seq<ZipEntry>, i: nat)
    requires i < |entries|
    ensures Collect(entries[..i + 1], ToFile) ==
            Collect(entries[..i], ToFile) + (if ToFile(entries[i]).Some? then [ToFile(entries[i]).value] else [])
  {
    assert entries[..i + 1] == entries[..i] + [entries[i]];
    CollectOfConcat(entries[..i], [entries[i]], ToFile);
    CollectOne(entries[i], ToFile);
  }

  // ---------------------------------------------------------------- the wrapper folder

  predicate IsUnder(f: ArchiveFile, w: string)
  {
    '/' in f.name && Before(f.name, '/') == w
  }

  predicate AllUnder(files: seq<ArchiveFile>, w: string)
  {
    forall i :: 0 <= i < |files| ==> IsUnder(files[i], w)
  }

  function Wrapper(files: seq<ArchiveFile>): Semver.Option<string>
  {
    if files != [] && AllUnder(files, Before(files[0].name, '/')) then Semver.Some(Before(files[0].name, '/'))
    else Semver.None
  }

  /** `singleTopLevelFolder` (archive-keys.go:96-113). */
  method SingleTopLevelFolder(files: seq<ArchiveFile>) returns (r: Semver.Option<string>)
    ensures r == Wrapper(files)
  {
    if |files| == 0 {
      return Semver.None;
    }
    var common := "";
    for i := 0 to |files|
      invariant i > 0 ==> common == Before(files[0].name, '/')
      invariant forall j :: 0 <= j < i ==> IsUnder(files[j], common)
    {
      var root := Before(files[i].name, '/');
      if '/' !in files[i].name {
        assert !IsUnder(files[i], Before(files[0].name, '/'));
        return Semver.None;
      }
      if i == 0 {
        common := root;
      } else if root != common {
        assert !IsUnder(files[i], Before(files[0].name, '/'));
        return Semver.None;
      }
    }
    return Semver.Some(common);
  }

  /** The wrapper is the one folder that holds every file: it depends on the set of names. */
  lemma WrapperIff(files: seq<ArchiveFile>, w: string)
    ensures Wrapper(files) == Semver.Some(w) <==> files != [] && forall f :: f in files ==> IsUnder(f, w)
  {
    if files != [] && forall f :: f in files ==> IsUnder(f, w) {
      assert files[0] in files;
      assert forall i :: 0 <= i < |files| ==> files[i] in files;
    }
  }

  // ---------------------------------------------------------------- the ignore file

  function FirstNamed(files: seq<ArchiveFile>, name: string): Semver.Option<ArchiveFile>
  {
    if files == [] then Semver.None
    else if files[0].name == name then Semver.Some(files[0])
    else FirstNamed(files[1..], name)
  }

  datatype Ignore = Ignore(file: ArchiveFile, prefix: string)

  function IgnoreOf(files: seq<ArchiveFile>): Semver.Option<Ignore>
  {
    var root := FirstNamed(files, IGNORE_NAME);
    if root.Some? then Semver.Some(Ignore(root.value, ""))
    else
      var w := Wrapper(files);
      if w.None? then Semver.None
      else
        var nested := FirstNamed(files, w.value + "/" + IGNORE_NAME);
        if nested.Some? then Semver.Some(Ignore(nested.value, w.value + "/")) else Semver.None
  }

  method FindNamed(files: seq<ArchiveFile>, name: string) returns (r: Semver.Option<ArchiveFile>)
    ensures r == FirstNamed(files, name)
  {
    for i := 0 to |files|
      invariant FirstNamed(files, name) == FirstNamed(files[i..], name)
    {
      assert files[i..][1..] == files[i + 1..];
      if files[i].name == name {
        return Semver.Some(files[i]);
      }
    }
    return Semver.None;
  }

  /** `findIgnoreFile` (archive-keys.go:118-137). */
  method FindIgnoreFile(files: seq<ArchiveFile>) returns (r: Semver.Option<Ignore>)
    ensures r == IgnoreOf(files)
  {
    var root := FindNamed(files, IGNORE_NAME);
    if root.Some? {
      return Semver.Some(Ignore(root.value, ""));
    }
    var wrapper := SingleTopLevelFolder(files);
    if wrapper.None? {
      return Semver.None;
    }
    var nested := FindNamed(files, wrapper.value + "/" + IGNORE_NAME);
    if nested.Some? {
      return Semver.Some(Ignore(nested.value, wrapper.value + "/"));
    }
    return Semver.None;
  }

  /** The entries an ignore file leaves, given its contents, its own name and the prefix its
      patterns are matched without: not itself, and none it excludes. */
  function Keep(matches: Matcher, data: seq<byte>, name: string, prefix: string): ArchiveFile -> Semver.Option<ArchiveFile>
  {
    (f: ArchiveFile) => if f.name == name || matches(data, TrimPrefix(f.name, prefix)) then Semver.None
         else Semver.Some(f)
  }

  function KeepUnless(matches: Matcher, g: Ignore): ArchiveFile -> Semver.Option<ArchiveFile>
  {
    Keep(matches, g.file.file.data, g.file.name, g.prefix)
  }

  function Publishable(matches: Matcher, files: seq<ArchiveFile>): Result<seq<ArchiveFile>>
  {
    var g := IgnoreOf(files);
    if g.None? then Ok(files)
    else if !g.value.file.file.readable then Err(InternalError)
    else
      var kept := Collect(files, KeepUnless(matches, g.value));
      if kept == [] then Err(BadRequest) else Ok(kept)
  }

  /** `applyIgnoreFile` (archive-keys.go:141-173). */
  method ApplyIgnoreFile(matches: Matcher, files: seq<ArchiveFile>) returns (r: Result<seq<ArchiveFile>>)
    ensures r == Publishable(matches, files)
  {
    var selected := FindIgnoreFile(files);
    if selected.None? {
      return Ok(files);
    }
    var g := selected.value;
    if !g.file.file.readable {
      return Err(InternalError);
    }
    var keep := KeepUnless(matches, g);
    var kept: seq<ArchiveFile> := [];
    for i := 0 to |files|
      invariant kept == Collect(files[..i], keep)
    {
      var f := files[i];
      assert files[..i + 1] == files[..i] + [f];
      CollectOfConcat(files[..i], [f], keep);
      CollectOne(f, keep);
      if f.name == g.file.name {
        continue;
      }
      if matches(g.file.file.data, TrimPrefix(f.name, g.prefix)) {
        continue;
      }
      kept := kept + [f];
    }
    assert files[..|files|] == files;
    if |kept| == 0 {
      return Err(BadRequest);
    }
    return Ok(kept);
  }

  // ---------------------------------------------------------------- object keys

  function NamesOf(files: seq<ArchiveFile>): (r: seq<string>)
    ensures |r| == |files|
  {
    seq(|files|, i requires 0 <= i < |files| => files[i].name)
  }

  function Relative(name: string, wrapper: Semver.Option<string>): string
  {
    if wrapper.Some? then TrimPrefix(name, wrapper.value + "/") else name
  }

  function KeyOf(f: ArchiveFile, wrapper: Semver.Option<string>, folder: string): string
  {
    folder + "/" + Relative(f.name, wrapper)
  }

  function ObjectsOf(files: seq<ArchiveFile>, wrapper: Semver.Option<string>, folder: string): (r: seq<ArchiveObject>)
    ensures |r| == |files|
  {
    seq(|files|, i requires 0 <= i < |files| => ArchiveObject(KeyOf(files[i], wrapper, folder), files[i].file))
  }

  /** Keys, or rejection exactly when two kept files have the same cleaned name. */
  function Keyed(files: seq<ArchiveFile>, folder: string): Result<seq<ArchiveObject>>
  {
    if NoDuplicates(NamesOf(files)) then Ok(ObjectsOf(files, Wrapper(files), folder)) else Err(BadRequest)
  }

  lemma UnderStarts(f: ArchiveFile, w: string)
    requires IsUnder(f, w)
    ensures w + "/" <= f.name && f.name == w + "/" + Relative(f.name, Semver.Some(w))
  {
    assert f.name == w + ['/'] + f.name[|w| + 1..];
  }

  /** Stripping the wrapper never makes two names collide. */
  lemma KeysDecideNames(files: seq<ArchiveFile>, folder: string, i: nat, j: nat)
    requires i < |files| && j < |files|
    ensures KeyOf(files[i], Wrapper(files), folder) == KeyOf(files[j], Wrapper(files), folder) <==>
            files[i].name == files[j].name
  {
    var w := Wrapper(files);
    var a, b := Relative(files[i].name, w), Relative(files[j].name, w);
    if w.Some? {
      UnderStarts(files[i], w.value);
      UnderStarts(files[j], w.value);
    }
    if folder + "/" + a == folder + "/" + b {
      assert a == (folder + "/" + a)[|folder + "/"|..];
      assert b == (folder + "/" + b)[|folder + "/"|..];
    }
  }

  /** `objectKeys` (archive-keys.go:195-218). */
  method ObjectKeys(files: seq<ArchiveFile>, folder: string) returns (r: Result<seq<ArchiveObject>>)
    ensures r == Keyed(files, folder)
  {
    hide Wrapper, KeyOf, IsUnder;
    var wrapper := SingleTopLevelFolder(files);
    var prefix := folder + "/";
    var objects: seq<ArchiveObject> := [];
    var seen: set<string> := {};
    for i := 0 to |files|
      invariant |objects| == i && forall j :: 0 <= j < i ==> objects[j] == ArchiveObject(KeyOf(files[j], wrapper, folder), files[j].file)
      invariant forall k :: k in seen <==> exists j :: 0 <= j < i && k == KeyOf(files[j], wrapper, folder)
      invariant forall a, b :: 0 <= a < b < i ==> files[a].name != files[b].name
    {
      var key := KeyOf(files[i], wrapper, folder);
      KeyStartsWithFolder(files[i], wrapper, folder);
      if !(prefix <= key) {
        return Err(BadRequest);
      }
      forall j | 0 <= j < i
        ensures key == KeyOf(files[j], wrapper, folder) <==> files[i].name == files[j].name
      {
        KeysDecideNames(files, folder, i, j);
      }
      if key in seen {
        var j :| 0 <= j < i && key == KeyOf(files[j], wrapper, folder);
        assert NamesOf(files)[j] == NamesOf(files)[i];
        return Err(BadRequest);
      }
      seen := seen + {key};
      objects := objects + [ArchiveObject(key, files[i].file)];
    }
    assert objects == ObjectsOf(files, wrapper, folder);
    assert forall a, b :: 0 <= a < b < |files| ==> NamesOf(files)[a] != NamesOf(files)[b];
    return Ok(objects);
  }

  lemma KeyStartsWithFolder(f: ArchiveFile, wrapper: Semver.Option<string>, folder: string)
    ensures folder + "/" <= KeyOf(f, wrapper, folder)
  {
  }

  function Keys(matches: Matcher, entries: seq<ZipEntry>, folder: string): Result<seq<ArchiveObject>>
  {
    var validated := Validated(entries);
    if validated.Err? then Err(validated.error)
    else
      var publishable := Publishable(matches, validated.value);
      if publishable.Err? then Err(publishable.error) else Keyed(publishable.value, folder)
  }

  /** `archiveKeys` (archive-keys.go:38-50). */
  method ArchiveKeys(matches: Matcher, entries: seq<ZipEntry>, folder: string) returns (r: Result<seq<ArchiveObject>>)
    ensures r == Keys(matches, entries, folder)
  {
    var validated := ValidatedEntries(entries);
    if validated.Err? {
      return Err(validated.error);
    }
    var publishable := ApplyIgnoreFile(matches, validated.value);
    if publishable.Err? {
      return Err(publishable.error);
    }
    r := ObjectKeys(publishable.value, folder);
  }
}
