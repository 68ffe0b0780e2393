/** The alias cache of internal/cache/redis-cache.go: a keyed store whose only bulk operation
    is deletion by prefix, done with Redis' cursor scan and glob patterns. */
module Cache {
  import opened Strings
  import opened Semver
  import opened Versions

  /** Characters with a meaning in a Redis glob pattern. */
  predicate IsGlobChar(c: char)
  {
    c == '*' || c == '?' || c == '[' || c == ']' || c == '\\' || c == '^'
  }

  predicate IsLiteral(s: string)
  {
    forall i :: 0 <= i < |s| ==> !IsGlobChar(s[i])
  }

  /** The one law of pattern matching used here: a literal followed by a star matches exactly
      the strings it starts. */
  ghost predicate GlobLaw(glob: (string, string) -> bool)
  {
    forall p, k :: IsLiteral(p) ==> (glob(p + "*", k) <==> p <= k)
  }

  function WithoutPrefix(entries: map<string, string>, prefix: string): map<string, string>
  {
    map k | k in entries && !(prefix <= k) :: entries[k]
  }

  /** A valid package folder, or alias of one, is a literal pattern. */
  lemma FolderIsLiteral(name: string, version: string)
    requires IsPackageName(name) && (IsLiteral(version))
    ensures IsLiteral(Folder(name, version))
  {
    var f := Folder(name, version);
    forall i | 0 <= i < |f|
      ensures !IsGlobChar(f[i])
    {
      if i < |name| {
        assert f[i] == name[i];
      } else if i > |name| {
        assert f[i] == version[i - |name| - 1];
      }
    }
  }

  class RedisCache {
    var entries: map<string, string>

    constructor ()
      ensures entries == map[]
    {
      entries := map[];
    }

    method Get(key: string) returns (path: Option<string>)
      ensures path == if key in entries then Some(entries[key]) else None
    {
      path := if key in entries then Some(entries[key]) else None;
    }

    method Set(key: string, path: string)
      modifies this
      ensures entries == old(entries)[key := path]
    {
      entries := entries[key := path];
    }

    /** `pages` is the order in which the server's scan hands out its keys, possibly repeating
        some. The loop deletes page by page; `outage` is the page whose scan or deletion the
        server fails, if it is one of them. */
    method DeleteByPrefix(prefix: string, glob: (string, string) -> bool, pages: seq<set<string>>, outage: nat) returns (ok: bool)
      modifies this
      ensures ok <==> outage >= |pages|
      ensures entries == WithoutScanned(old(entries), glob, prefix + "*", pages, outage)
    {
      var pattern := prefix + "*";
      var cursor := 0;
      while cursor < |pages|
        invariant 0 <= cursor <= |pages| && cursor <= outage
        invariant forall k :: k in entries ==> k in old(entries) && entries[k] == old(entries)[k]
        invariant forall k :: k in old(entries) && k !in entries ==> glob(pattern, k) && OnPages(pages, cursor, k)
        invariant forall k, i :: 0 <= i < cursor && k in pages[i] && glob(pattern, k) ==> k !in entries
      {
        if cursor == outage {
          return false;
        }
        var keys := set k | k in pages[cursor] && glob(pattern, k);
        entries := entries - keys;
        cursor := cursor + 1;
      }
      ok := true;
    }
  }

  /** The key is on one of the first n pages. */
  predicate OnPages(pages: seq<set<string>>, n: nat, key: string)
  {
    exists i :: 0 <= i < |pages| && i < n && key in pages[i]
  }

  /** What a scan that stops after n pages leaves. */
  function WithoutScanned(entries: map<string, string>, glob: (string, string) -> bool, pattern: string,
                          pages: seq<set<string>>, n: nat): map<string, string>
  {
    map k | k in entries && !(glob(pattern, k) && OnPages(pages, n, k)) :: entries[k]
  }

  /** With a literal prefix, a scan that runs to the end of a server that hands out every key
      deletes exactly the keys under the prefix. */
  lemma LiteralDeletion(entries: map<string, string>, glob: (string, string) -> bool, prefix: string, pages: seq<set<string>>, n: nat)
    requires GlobLaw(glob) && IsLiteral(prefix)
    requires n >= |pages| && forall k :: k in entries ==> exists i :: 0 <= i < |pages| && k in pages[i]
    ensures WithoutScanned(entries, glob, prefix + "*", pages, n) == WithoutPrefix(entries, prefix)
  {
    forall k | k in entries
      ensures OnPages(pages, n, k)
    {
      var i :| 0 <= i < |pages| && k in pages[i];
    }
  }

  // ---------------------------------------------------------------- versions are literal

  lemma {:induction false} SplitIsLiteral(s: string, sep: char)
    requires !IsGlobChar(sep) && forall f :: f in Split(s, sep) ==> IsLiteral(f)
    ensures IsLiteral(s)
  {
    if s != [] {
      var r := Split(s[1..], sep);
      if s[0] == sep {
        assert forall f :: f in r ==> f in Split(s, sep);
      } else {
        assert Split(s, sep)[0] == [s[0]] + r[0];
        assert Split(s, sep)[0] in Split(s, sep);
        assert ([s[0]] + r[0])[0] == s[0];
        forall f | f in r
          ensures IsLiteral(f)
        {
          if f == r[0] {
            assert forall i :: 0 <= i < |f| ==> f[i] == ([s[0]] + r[0])[i + 1];
          } else {
            assert f in r[1..];
          }
        }
      }
      SplitIsLiteral(s[1..], sep);
      assert forall i :: 0 < i < |s| ==> s[i] == s[1..][i - 1];
    }
  }

  lemma IdentIsLiteral(s: string)
    requires IsIdent(s) || IsNumber(s)
    ensures IsLiteral(s)
  {
  }

  lemma PartIsLiteral(s: string, head: string)
    requires head < s && IsLiteral(head) && !IsGlobChar(s[|head|]) && IsLiteral(s[|head| + 1..])
    ensures IsLiteral(s)
  {
    forall i | 0 <= i < |s|
      ensures !IsGlobChar(s[i])
    {
      if i < |head| {
        assert s[i] == head[i];
      } else if i > |head| {
        assert s[i] == s[|head| + 1..][i - |head| - 1];
      }
    }
  }

  lemma FieldsAreLiteral(v: Version)
    requires WellFormed(v)
    ensures forall f :: f in v.numbers || f in v.pre || f in v.build ==> IsLiteral(f)
  {
    forall f | f in v.numbers || f in v.pre || f in v.build
      ensures IsLiteral(f)
    {
      IdentIsLiteral(f);
    }
  }

  lemma VersionIsLiteral(version: string)
    requires IsValid(version)
    ensures IsLiteral(version)
  {
    var front := Before(version, '+');
    var core := Before(front, '-');
    var v := Parse(version).value;
    FieldsAreLiteral(v);
    assert v.numbers == Split(core, '.');
    SplitIsLiteral(core, '.');
    if core != front {
      assert v.pre == Split(front[|core| + 1..], '.');
      SplitIsLiteral(front[|core| + 1..], '.');
      PartIsLiteral(front, core);
    }
    if front != version {
      assert v.build == Split(version[|front| + 1..], '.');
      SplitIsLiteral(version[|front| + 1..], '.');
      PartIsLiteral(version, front);
    }
  }

  lemma AliasesAreLiteral(version: string, i: nat)
    requires IsFullSemver(version) && i < |Aliases(version)|
    ensures IsLiteral(Aliases(version)[i])
  {
    hide IsLiteral, Aliases, Parse, WellFormed;
    AliasesOfFull(version);
    var n := Parse(version).value.numbers;
    FieldsAreLiteral(Parse(version).value);
    assert n[0] in n && n[1] in n;
    LatestIsLiteral();
    DottedIsLiteral(n[0], n[1]);
  }

  lemma LatestIsLiteral()
    ensures IsLiteral(LATEST)
  {
  }

  lemma DottedIsLiteral(a: string, b: string)
    requires IsLiteral(a) && IsLiteral(b)
    ensures IsLiteral(a + "." + b)
  {
    var s := a + "." + b;
    assert s == a + ['.'] + b && s[|a| + 1..] == b;
    PartIsLiteral(s, a);
  }
}
