/** Semantic versions as the service's semver library reads them: a full or shortened version,
    its aliases, and precedence by section 11 of Semantic Versioning 2.0.0. */
module Semver {
  import opened Strings

  datatype Option<+T> = None | Some(value: T)

  // ---------------------------------------------------------------- syntax

  predicate IsDigit(c: char)
  {
    '0' <= c <= '9'
  }

  predicate IsIdentChar(c: char)
  {
    IsDigit(c) || 'a' <= c <= 'z' || 'A' <= c <= 'Z' || c == '-'
  }

  predicate AllDigits(s: string)
  {
    forall i :: 0 <= i < |s| ==> IsDigit(s[i])
  }

  /** A number without leading zeroes. */
  predicate IsNumber(s: string)
  {
    s != [] && AllDigits(s) && (s[0] == '0' ==> |s| == 1)
  }

  predicate IsIdent(s: string)
  {
    s != [] && forall i :: 0 <= i < |s| ==> IsIdentChar(s[i])
  }

  predicate IsPreIdent(s: string)
  {
    IsIdent(s) && (AllDigits(s) ==> IsNumber(s))
  }

  /** `numbers` holds the one, two or three numbers written; `pre` and `build` the identifiers
      after '-' and '+', empty when the part is absent. */
  datatype Version = Version(numbers: seq<string>, pre: seq<string>, build: seq<string>)

  predicate WellFormed(v: Version)
  {
    && 1 <= |v.numbers| <= 3
    && (forall i :: 0 <= i < |v.numbers| ==> IsNumber(v.numbers[i]))
    && (forall i :: 0 <= i < |v.pre| ==> IsPreIdent(v.pre[i]))
    && (forall i :: 0 <= i < |v.build| ==> IsIdent(v.build[i]))
    && (|v.numbers| < 3 ==> v.pre == [] && v.build == [])
  }

  /** Reads a version (without its leading "v"). A build part starts at the first '+', and a
      pre-release part at the first '-' in front of it. */
  function Parse(s: string): (r: Option<Version>)
    ensures r.Some? ==> WellFormed(r.value)
  {
    var front := Before(s, '+');
    var core := Before(front, '-');
    var numbers := Split(core, '.');
    var pre := if core == front then [] else Split(front[|core| + 1..], '.');
    var build := if front == s then [] else Split(s[|front| + 1..], '.');
    var v := Version(numbers, pre, build);
    if WellFormed(v) then Some(v) else None
  }

  predicate IsValid(s: string)
  {
    Parse(s).Some?
  }

  /** The service's own test for a full version
      (internal/content/content-service.go:263-267): it cuts at '-' before it cuts at '+'. */
  predicate IsFullSemver(s: string)
  {
    |Split(Before(Before(s, '-'), '+'), '.')| == 3 && IsValid(s)
  }

  /** A full version without a pre-release part. */
  predicate IsPinned(s: string)
  {
    IsFullSemver(s) && Parse(s).value.pre == []
  }

  // ---------------------------------------------------------------- cutting at '-' and '+'

  /** Cutting at '-' then '+' or at '+' then '-' leaves the same core. */
  lemma {:induction false} CutsCommute(s: string)
    ensures Before(Before(s, '-'), '+') == Before(Before(s, '+'), '-')
  {
    if s != [] && s[0] != '-' && s[0] != '+' {
      CutsCommute(s[1..]);
      var a, b := Before(s[1..], '-'), Before(s[1..], '+');
      assert Before(s, '-') == [s[0]] + a && Before(s, '+') == [s[0]] + b;
      assert ([s[0]] + a)[1..] == a && ([s[0]] + b)[1..] == b;
    }
  }

  /** The string test for a full version is the structural one: three numbers are written. */
  lemma FullSemverIff(s: string)
    ensures IsFullSemver(s) <==> Parse(s).Some? && |Parse(s).value.numbers| == 3
    ensures IsFullSemver(s) ==> Split(Before(Before(s, '-'), '+'), '.') == Parse(s).value.numbers
  {
    CutsCommute(s);
  }

  // ---------------------------------------------------------------- forbidden characters

  lemma {:induction false} SplitAvoids(s: string, sep: char, c: char)
    requires c != sep && forall f :: f in Split(s, sep) ==> c !in f
    ensures c !in s
  {
    if s != [] {
      var r := Split(s[1..], sep);
      if s[0] == sep {
        assert forall f :: f in r ==> f in Split(s, sep);
      } else {
        assert Split(s, sep)[0] == [s[0]] + r[0];
        assert Split(s, sep)[0] in Split(s, sep);
        forall f | f in r
          ensures c !in f
        {
          if f != r[0] {
            assert f in r[1..];
          }
        }
      }
      SplitAvoids(s[1..], sep, c);
      assert s == [s[0]] + s[1..];
    }
  }

  lemma PartAvoids(s: string, head: string, c: char)
    requires head < s && c !in head && c != s[|head|] && c !in s[|head| + 1..]
    ensures c !in s
  {
    assert s == head + [s[|head|]] + s[|head| + 1..];
  }

  lemma FieldsAvoid(v: Version, c: char)
    requires WellFormed(v) && (c == '/' || c == '@')
    ensures forall f :: f in v.numbers || f in v.pre || f in v.build ==> c !in f
  {
    forall f | f in v.numbers
      ensures c !in f
    {
      assert IsNumber(f);
    }
    forall f | f in v.pre || f in v.build
      ensures c !in f
    {
      assert IsIdent(f);
    }
  }

  lemma ValidIsNotEmpty(s: string)
    requires IsValid(s)
    ensures s != ""
  {
    var n := Parse(s).value.numbers[0];
    assert IsNumber(n);
    if s == "" {
      assert false;
    }
  }

  /** A valid version holds neither '/' nor '@', and is not empty. */
  lemma ValidAvoids(s: string, c: char)
    requires IsValid(s) && (c == '/' || c == '@')
    ensures s != "" && c !in s
  {
    ValidIsNotEmpty(s);
    var front := Before(s, '+');
    var core := Before(front, '-');
    var v := Parse(s).value;
    FieldsAvoid(v, c);
    assert v.numbers == Split(core, '.');
    SplitAvoids(core, '.', c);
    if core != front {
      assert v.pre == Split(front[|core| + 1..], '.');
      SplitAvoids(front[|core| + 1..], '.', c);
      PartAvoids(front, core, c);
    }
    if front != s {
      assert v.build == Split(s[|front| + 1..], '.');
      SplitAvoids(s[|front| + 1..], '.', c);
      PartAvoids(s, front, c);
    }
  }

  // ---------------------------------------------------------------- precedence (section 11)

  function Value(s: string): nat
    requires AllDigits(s)
  {
    if s == [] then 0 else 10 * Value(s[..|s| - 1]) + (s[|s| - 1] as int - '0' as int)
  }

  datatype Ident = Numeric(n: nat) | Alphanumeric(s: string)

  function ToIdent(s: string): Ident
  {
    if s != [] && AllDigits(s) then Numeric(Value(s)) else Alphanumeric(s)
  }

  /** What precedence looks at; build metadata is not part of it (section 11.1). */
  datatype Rank = Rank(major: nat, minor: nat, patch: nat, pre: seq<Ident>)

  function Number(v: Version, i: nat): nat
    requires WellFormed(v)
  {
    if i < |v.numbers| then
      assert IsNumber(v.numbers[i]);
      Value(v.numbers[i])
    else 0
  }

  function RankOf(v: Version): Rank
    requires WellFormed(v)
  {
    Rank(Number(v, 0), Number(v, 1), Number(v, 2), seq(|v.pre|, i requires 0 <= i < |v.pre| => ToIdent(v.pre[i])))
  }

  /** Section 11.4.1 to 11.4.3: numbers numerically, other identifiers in ASCII order, numbers
      below the others. */
  predicate IdentLess(a: Ident, b: Ident)
  {
    match (a, b)
    case (Numeric(m), Numeric(n)) => m < n
    case (Alphanumeric(s), Alphanumeric(t)) => Less(s, t)
    case (Numeric(_), Alphanumeric(_)) => true
    case (Alphanumeric(_), Numeric(_)) => false
  }

  /** Section 11.4: left to right; of two lists with a common start the longer is higher. */
  predicate IdentsLess(a: seq<Ident>, b: seq<Ident>)
  {
    b != [] && (a == [] || IdentLess(a[0], b[0]) || (a[0] == b[0] && IdentsLess(a[1..], b[1..])))
  }

  /** Section 11.3: a pre-release is below its release. */
  predicate PreLess(a: seq<Ident>, b: seq<Ident>)
  {
    a != [] && (b == [] || IdentsLess(a, b))
  }

  predicate Precedes(a: Rank, b: Rank)
  {
    || a.major < b.major
    || (a.major == b.major && a.minor < b.minor)
    || (a.major == b.major && a.minor == b.minor && a.patch < b.patch)
    || (a.major == b.major && a.minor == b.minor && a.patch == b.patch && PreLess(a.pre, b.pre))
  }

  lemma {:induction false} IdentsLessTransitive(a: seq<Ident>, b: seq<Ident>, c: seq<Ident>)
    requires IdentsLess(a, b) && IdentsLess(b, c)
    ensures IdentsLess(a, c)
  {
    if a != [] {
      if a[0] == b[0] && b[0] == c[0] {
        if a[0].Alphanumeric? {
          LessIrreflexive(a[0].s);
        }
        IdentsLessTransitive(a[1..], b[1..], c[1..]);
      } else if IdentLess(a[0], b[0]) && IdentLess(b[0], c[0]) && a[0].Alphanumeric? && b[0].Alphanumeric? {
        LessTransitive(a[0].s, b[0].s, c[0].s);
      }
    }
  }

  lemma {:induction false} IdentsLessIrreflexive(a: seq<Ident>)
    ensures !IdentsLess(a, a)
  {
    if a != [] {
      if a[0].Alphanumeric? {
        LessIrreflexive(a[0].s);
      }
      IdentsLessIrreflexive(a[1..]);
    }
  }

  lemma {:induction false} IdentsLessTotal(a: seq<Ident>, b: seq<Ident>)
    ensures IdentsLess(a, b) || a == b || IdentsLess(b, a)
  {
    if a != [] && b != [] {
      if a[0].Alphanumeric? && b[0].Alphanumeric? {
        LessTotal(a[0].s, b[0].s);
      }
      if a[0] == b[0] {
        IdentsLessTotal(a[1..], b[1..]);
        assert a == [a[0]] + a[1..] && b == [b[0]] + b[1..];
      }
    }
  }

  /** Precedence is a strict total order on ranks. */
  lemma PrecedesIsTotalOrder(a: Rank, b: Rank, c: Rank)
    ensures !Precedes(a, a)
    ensures Precedes(a, b) || a == b || Precedes(b, a)
    ensures Precedes(a, b) && Precedes(b, c) ==> Precedes(a, c)
  {
    IdentsLessIrreflexive(a.pre);
    IdentsLessTotal(a.pre, b.pre);
    if IdentsLess(a.pre, b.pre) && IdentsLess(b.pre, c.pre) {
      IdentsLessTransitive(a.pre, b.pre, c.pre);
    }
  }

  // ---------------------------------------------------------------- sorting

  /** A version's text with its rank. */
  datatype Ranked = Ranked(text: string, rank: Rank)

  function RankedOf(text: string): Ranked
    requires IsValid(text)
  {
    Ranked(text, RankOf(Parse(text).value))
  }

  /** The sort order of the semver library: precedence, ties broken by the texts. */
  predicate SortsBefore(a: Ranked, b: Ranked)
  {
    Precedes(a.rank, b.rank) || (a.rank == b.rank && Less(a.text, b.text))
  }

  lemma SortsBeforeIsTotalOrder(a: Ranked, b: Ranked, c: Ranked)
    ensures !SortsBefore(a, a)
    ensures SortsBefore(a, b) || a == b || SortsBefore(b, a)
    ensures SortsBefore(a, b) && SortsBefore(b, c) ==> SortsBefore(a, c)
  {
    PrecedesIsTotalOrder(a.rank, b.rank, c.rank);
    LessIrreflexive(a.text);
    LessTotal(a.text, b.text);
    if Less(a.text, b.text) && Less(b.text, c.text) {
      LessTransitive(a.text, b.text, c.text);
    }
  }

  predicate AtMost(a: Ranked, b: Ranked)
  {
    a == b || SortsBefore(a, b)
  }

  lemma AtMostIsTotalOrder(a: Ranked, b: Ranked, c: Ranked)
    ensures AtMost(a, b) || AtMost(b, a)
    ensures AtMost(a, b) && AtMost(b, a) ==> a == b
    ensures AtMost(a, b) && AtMost(b, c) ==> AtMost(a, c)
  {
    SortsBeforeIsTotalOrder(a, b, c);
    SortsBeforeIsTotalOrder(a, b, a);
  }

  predicate IsSorted(vs: seq<Ranked>)
  {
    forall i, j :: 0 <= i < j < |vs| ==> AtMost(vs[i], vs[j])
  }

  function Insert(v: Ranked, vs: seq<Ranked>): (r: seq<Ranked>)
    ensures multiset(r) == multiset{v} + multiset(vs)
  {
    if vs == [] || AtMost(v, vs[0]) then [v] + vs
    else
      assert vs == [vs[0]] + vs[1..];
      [vs[0]] + Insert(v, vs[1..])
  }

  /** `semver.Sort`: ascending. */
  function Sort(vs: seq<Ranked>): (r: seq<Ranked>)
    ensures multiset(r) == multiset(vs)
  {
    if vs == [] then []
    else
      assert vs == [vs[0]] + vs[1..];
      Insert(vs[0], Sort(vs[1..]))
  }

  lemma {:induction false} InsertKeepsOrder(v: Ranked, vs: seq<Ranked>)
    requires IsSorted(vs)
    ensures IsSorted(Insert(v, vs))
  {
    if vs == [] {
    } else if AtMost(v, vs[0]) {
      forall j | 0 < j < |vs|
        ensures AtMost(v, vs[j])
      {
        AtMostIsTotalOrder(v, vs[0], vs[j]);
      }
    } else {
      InsertKeepsOrder(v, vs[1..]);
      AtMostIsTotalOrder(v, vs[0], v);
      var r := Insert(v, vs[1..]);
      forall j | 0 <= j < |r|
        ensures AtMost(vs[0], r[j])
      {
        assert r[j] in multiset(r);
        if r[j] != v {
          assert r[j] in vs[1..];
        }
      }
    }
  }

  lemma {:induction false} SortSorts(vs: seq<Ranked>)
    ensures IsSorted(Sort(vs))
  {
    if vs != [] {
      SortSorts(vs[1..]);
      InsertKeepsOrder(vs[0], Sort(vs[1..]));
    }
  }

  lemma LeastIsFirst(a: seq<Ranked>, b: seq<Ranked>)
    requires IsSorted(a) && IsSorted(b) && multiset(a) == multiset(b) && a != [] && b != []
    ensures a[0] == b[0]
  {
    assert a[0] in multiset(b) && b[0] in multiset(a);
    var i :| 0 <= i < |b| && b[i] == a[0];
    var j :| 0 <= j < |a| && a[j] == b[0];
    AtMostIsTotalOrder(a[0], b[0], a[0]);
  }

  /** Sorting forgets the order of its input. */
  lemma {:induction false} SortedIsUnique(a: seq<Ranked>, b: seq<Ranked>)
    requires IsSorted(a) && IsSorted(b) && multiset(a) == multiset(b)
    ensures a == b
  {
    assert |a| == |multiset(a)| == |multiset(b)| == |b|;
    if a != [] {
      LeastIsFirst(a, b);
      assert a == [a[0]] + a[1..] && b == [b[0]] + b[1..];
      assert multiset(a[1..]) == multiset(a) - multiset{a[0]};
      SortedIsUnique(a[1..], b[1..]);
    }
  }
}
