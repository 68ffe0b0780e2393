/** Keyset pagination over the files of one version: the fast incremental walk of `GetFiles`
    (internal/content/content-service.go:374-495) against the plain statement "filter the
    whole listing, then slice it". */
module Listing {
  import opened Strings
  import opened Encodings

  // ---------------------------------------------------------------- the plain statement

  function Elems(l: seq<string>): set<string>
  {
    set k | k in l
  }

  /** The keys of `t` that are not variants of a known key. */
  function Shown(table: string -> bool, known: set<string>, t: seq<string>): (r: seq<string>)
    ensures |r| <= |t|
  {
    if t == [] then []
    else
      var rest := Shown(table, known, t[1..]);
      if Hidden(table, known, t[0]) then rest else [t[0]] + rest
  }

  lemma {:induction false} ShownMember(table: string -> bool, known: set<string>, t: seq<string>, k: string)
    ensures k in Shown(table, known, t) <==> k in t && !Hidden(table, known, k)
  {
    if t != [] {
      ShownMember(table, known, t[1..], k);
      assert t == [t[0]] + t[1..];
    }
  }

  /** What a reader of the whole listing would call its files: every key but true variants. */
  function Visible(table: string -> bool, l: seq<string>): seq<string>
  {
    Shown(table, Elems(l), l)
  }

  function Take(n: nat, s: seq<string>): seq<string>
  {
    if |s| <= n then s else s[..n]
  }

  /** The listed keys strictly above a cursor, listed or not. */
  function Tail(l: seq<string>, after: string): (t: seq<string>)
    ensures |t| <= |l|
  {
    if l == [] || Less(after, l[0]) then l else Tail(l[1..], after)
  }

  lemma {:induction false} TailIsSuffix(l: seq<string>, after: string) returns (pre: seq<string>)
    ensures l == pre + Tail(l, after)
  {
    if l == [] || Less(after, l[0]) {
      pre := [];
    } else {
      var rest := TailIsSuffix(l[1..], after);
      pre := [l[0]] + rest;
    }
  }

  lemma {:induction false} TailSplits(l: seq<string>, after: string)
    requires Ordered(l)
    ensures forall k :: k in Tail(l, after) <==> k in l && Less(after, k)
  {
    if l == [] {
    } else if Less(after, l[0]) {
      forall k | k in l
        ensures Less(after, k)
      {
        if k != l[0] {
          LessTransitive(after, l[0], k);
        }
      }
    } else {
      TailSplits(l[1..], after);
      assert l == [l[0]] + l[1..];
    }
  }

  lemma TailIsOrdered(l: seq<string>, after: string)
    requires Ordered(l)
    ensures Ordered(Tail(l, after))
  {
    var pre := TailIsSuffix(l, after);
    HalvesAreOrdered(pre, Tail(l, after));
  }

  /** Above one of its keys an ordered listing continues with the next key. */
  lemma {:induction false} TailAfterKey(pre: seq<string>, x: string, b: seq<string>)
    requires Ordered(pre + [x] + b)
    ensures Tail(pre + [x] + b, x) == b
  {
    var l := pre + [x] + b;
    if pre == [] {
      LessIrreflexive(x);
      assert l[0] == x && l[1..] == b;
      if b != [] {
        assert l[1] == b[0];
      }
    } else {
      assert l[0] == pre[0] && l[|pre|] == x;
      LessIrreflexive(x);
      if Less(x, pre[0]) {
        LessTransitive(x, pre[0], x);
      }
      assert l[1..] == pre[1..] + [x] + b;
      RestIsOrdered(l);
      TailAfterKey(pre[1..], x, b);
    }
  }

  lemma RestIsOrdered(l: seq<string>)
    requires Ordered(l) && l != []
    ensures Ordered(l[1..])
  {
  }

  lemma HalvesAreOrdered(a: seq<string>, b: seq<string>)
    requires Ordered(a + b)
    ensures Ordered(a) && Ordered(b)
    ensures forall x, y :: x in a && y in b ==> Less(x, y)
  {
    var t := a + b;
    forall i, j | 0 <= i < j < |a|
      ensures Less(a[i], a[j])
    {
      assert a[i] == t[i] && a[j] == t[j];
    }
    forall i, j | 0 <= i < j < |b|
      ensures Less(b[i], b[j])
    {
      assert b[i] == t[|a| + i] && b[j] == t[|a| + j];
    }
    forall x, y | x in a && y in b
      ensures Less(x, y)
    {
      var i :| 0 <= i < |a| && a[i] == x;
      var j :| 0 <= j < |b| && b[j] == y;
      assert x == t[i] && y == t[|a| + j];
    }
  }

  lemma TailFromStart(l: seq<string>)
    requires forall k :: k in l ==> k != ""
    ensures Tail(l, "") == l
  {
    if l != [] {
      assert l[0] in l;
    }
  }

  // ---------------------------------------------------------------- one page

  /** The keys a page treats as listed below its first key: the cursor and its stem
      (content-service.go:448-458). */
  function Seeds(after: string): set<string>
  {
    if after == "" then {}
    else if HasStem(after) then {after, Stem(after)}
    else {after}
  }

  function Known(l: seq<string>, after: string): set<string>
  {
    Seeds(after) + Elems(Tail(l, after))
  }

  /** The keys of `t` a page consumes, up to the file that exceeds the limit, and the rest. */
  function Break(table: string -> bool, known: set<string>, t: seq<string>, limit: nat): (r: (seq<string>, seq<string>))
    ensures r.0 + r.1 == t
  {
    if t == [] then ([], [])
    else if !Hidden(table, known, t[0]) && limit == 0 then ([], t)
    else
      var r := Break(table, known, t[1..], if Hidden(table, known, t[0]) then limit else limit - 1);
      assert [t[0]] + (r.0 + r.1) == t;
      ([t[0]] + r.0, r.1)
  }

  datatype Page = Page(files: seq<string>, hasMore: bool, next: string)

  function PageOf(table: string -> bool, known: set<string>, a: seq<string>, b: seq<string>): Page
  {
    Page(Shown(table, known, a), b != [], if a == [] || b == [] then "" else a[|a| - 1])
  }

  /** What one call of `GetFiles` answers on a fixed listing. */
  function PageAt(table: string -> bool, l: seq<string>, after: string, limit: nat): Page
  {
    var (a, b) := Break(table, Known(l, after), Tail(l, after), limit);
    PageOf(table, Known(l, after), a, b)
  }

  lemma {:induction false} ShownOfConcat(table: string -> bool, known: set<string>, a: seq<string>, b: seq<string>)
    ensures Shown(table, known, a + b) == Shown(table, known, a) + Shown(table, known, b)
  {
    if a == [] {
      assert a + b == b;
    } else {
      assert (a + b)[1..] == a[1..] + b;
      ShownOfConcat(table, known, a[1..], b);
    }
  }

  lemma ShownOfCons(table: string -> bool, known: set<string>, x: string, t: seq<string>)
    ensures Shown(table, known, [x] + t) ==
            (if Hidden(table, known, x) then [] else [x]) + Shown(table, known, t)
  {
    assert ([x] + t)[1..] == t;
  }

  /** The break falls right before shown key number `limit`. */
  lemma {:induction false} BreakIsExact(table: string -> bool, known: set<string>, t: seq<string>, limit: nat)
    ensures var (a, b) := Break(table, known, t, limit);
            && Shown(table, known, a) == Take(limit, Shown(table, known, t))
            && (b != [] <==> |Shown(table, known, t)| > limit)
            && (b != [] ==> |Shown(table, known, a)| == limit && !Hidden(table, known, b[0]))
  {
    if t == [] {
    } else if !Hidden(table, known, t[0]) && limit == 0 {
    } else {
      var rest := if Hidden(table, known, t[0]) then limit else limit - 1;
      BreakIsExact(table, known, t[1..], rest);
      var (a, b) := Break(table, known, t[1..], rest);
      ShownOfCons(table, known, t[0], a);
    }
  }

  /** Where the break falls is determined by the number of files in front of it. */
  lemma {:induction false} BreakAt(table: string -> bool, known: set<string>, a: seq<string>, b: seq<string>)
    requires b != [] && !Hidden(table, known, b[0])
    ensures Break(table, known, a + b, |Shown(table, known, a)|) == (a, b)
  {
    if a == [] {
      assert a + b == b;
    } else {
      assert (a + b)[0] == a[0] && (a + b)[1..] == a[1..] + b;
      BreakAt(table, known, a[1..], b);
      assert a == [a[0]] + a[1..];
    }
  }

  lemma BreakWhole(table: string -> bool, known: set<string>, t: seq<string>, limit: nat)
    requires |Shown(table, known, t)| <= limit
    ensures Break(table, known, t, limit) == (t, [])
  {
    BreakIsExact(table, known, t, limit);
    var (a, b) := Break(table, known, t, limit);
    assert a + b == a;
  }

  /** Two key sets that hide the same keys of `t` show the same files. */
  lemma {:induction false} ShownAgree(table: string -> bool, k1: set<string>, k2: set<string>, t: seq<string>)
    requires forall k :: k in t ==> Hidden(table, k1, k) == Hidden(table, k2, k)
    ensures Shown(table, k1, t) == Shown(table, k2, t)
  {
    if t != [] {
      assert t[0] in t;
      forall k | k in t[1..]
        ensures Hidden(table, k1, k) == Hidden(table, k2, k)
      {
        assert k in t;
      }
      ShownAgree(table, k1, k2, t[1..]);
    }
  }

  /** A listing as the object store returns it: ordered, and no key is empty. */
  predicate IsListing(l: seq<string>)
  {
    Ordered(l) && "" !in l
  }

  /** A key below the cursor is known to a page only as one of its seeds. */
  lemma KnownIsSeedOrTail(table: string -> bool, l: seq<string>, after: string, k: string)
    requires Ordered(l)
    ensures Hidden(table, Known(l, after), k) <==>
            HasStem(k) && Compressible(table, Stem(k)) &&
            (Stem(k) in Seeds(after) || (Stem(k) in l && Less(after, Stem(k))))
  {
    TailSplits(l, after);
  }

  lemma TailIsAbove(l: seq<string>, after: string, x: string)
    requires Ordered(l) && x in Tail(l, after)
    ensures x in l && Less(after, x)
  {
    TailSplits(l, after);
  }

  /** One page splits the keys above its cursor in two: those it has consumed and those it
      leaves, starting with a file. */
  lemma PageFiles(table: string -> bool, l: seq<string>, after: string, limit: nat) returns (a: seq<string>, b: seq<string>)
    ensures (a, b) == Break(table, Known(l, after), Tail(l, after), limit) && Tail(l, after) == a + b
    ensures PageAt(table, l, after, limit) == PageOf(table, Known(l, after), a, b)
    ensures b != [] ==> |Shown(table, Known(l, after), a)| == limit && !Hidden(table, Known(l, after), b[0])
  {
    BreakIsExact(table, Known(l, after), Tail(l, after), limit);
    var r := Break(table, Known(l, after), Tail(l, after), limit);
    a, b := r.0, r.1;
  }

  /** Progress: an advertised cursor is the last consumed key, a listed key strictly above the
      previous cursor, and the next page resumes on the raw key that follows it. */
  lemma PageShape(table: string -> bool, l: seq<string>, after: string, limit: nat) returns (a: seq<string>, b: seq<string>)
    requires Ordered(l) && limit >= 1
    ensures (a, b) == Break(table, Known(l, after), Tail(l, after), limit) && Tail(l, after) == a + b
    ensures PageAt(table, l, after, limit) == PageOf(table, Known(l, after), a, b)
    ensures b != [] ==>
              && |Shown(table, Known(l, after), a)| == limit && !Hidden(table, Known(l, after), b[0])
              && a != [] && a[|a| - 1] in l && Less(after, a[|a| - 1])
              && Tail(l, a[|a| - 1]) == b
  {
    hide Less, Hidden, Known, PageAt, PageOf, Tail, Break;
    a, b := PageFiles(table, l, after, limit);
    if b != [] {
      assert a != [];
      var pre := TailIsSuffix(l, after);
      var front, x := a[..|a| - 1], a[|a| - 1];
      assert l == (pre + front) + [x] + b;
      TailAfterKey(pre + front, x, b);
      assert x in a + b;
      TailIsAbove(l, after, x);
    }
  }

  /** The same for the cursor alone. */
  lemma NextIsAbove(table: string -> bool, l: seq<string>, after: string, limit: nat)
    requires Ordered(l) && limit >= 1
    ensures var page := PageAt(table, l, after, limit);
            page.hasMore ==> page.next in l && Less(after, page.next) && |Tail(l, page.next)| < |Tail(l, after)|
  {
    var a, b := PageShape(table, l, after, limit);
  }

  /** The files a client collects by following `next` to the end. */
  ghost function Walk(table: string -> bool, l: seq<string>, after: string, limit: nat): seq<string>
    requires Ordered(l) && limit >= 1
    decreases |Tail(l, after)|
  {
    var page := PageAt(table, l, after, limit);
    if page.hasMore then
      NextIsAbove(table, l, after, limit);
      page.files + Walk(table, l, page.next, limit)
    else
      page.files
  }

  // ---------------------------------------------------------------- exactness of one page

  /** From the start of the version a page is exactly the first `limit` visible files,
      whatever the names. */
  lemma FirstPageIsExact(table: string -> bool, l: seq<string>, limit: nat)
    requires IsListing(l)
    ensures PageAt(table, l, "", limit).files == Take(limit, Visible(table, l))
    ensures PageAt(table, l, "", limit).hasMore <==> |Visible(table, l)| > limit
  {
    TailFromStart(l);
    assert Known(l, "") == Elems(l);
    BreakIsExact(table, Elems(l), l, limit);
  }

  /** What a caller can check of a cursor: for each compressible stem of a later key that is
      not itself later, being listed and being seeded are the same thing. */
  predicate Faithful(table: string -> bool, l: seq<string>, after: string)
  {
    forall k :: k in Tail(l, after) && HasStem(k) && Compressible(table, Stem(k)) && !Less(after, Stem(k)) ==>
      (Stem(k) in l <==> Stem(k) in Seeds(after))
  }

  lemma SeedsAreNotAbove(after: string)
    ensures forall s :: s in Seeds(after) ==> !Less(after, s)
  {
    forall s | s in Seeds(after)
      ensures !Less(after, s)
    {
      LessIrreflexive(after);
      if HasStem(after) && s == Stem(after) && Less(after, s) {
        StemIsSmaller(after);
        LessTransitive(s, after, s);
        LessIrreflexive(s);
      }
    }
  }

  lemma FaithfulHidesAlike(table: string -> bool, l: seq<string>, after: string, k: string)
    requires Ordered(l) && k in Tail(l, after)
    ensures Hidden(table, Known(l, after), k) == Hidden(table, Elems(l), k) <==>
            (HasStem(k) && Compressible(table, Stem(k)) && !Less(after, Stem(k)) ==>
              (Stem(k) in l <==> Stem(k) in Seeds(after)))
  {
    KnownIsSeedOrTail(table, l, after, k);
    SeedsAreNotAbove(after);
  }

  /** A page resumed at a cursor is the exact slice of the visible files above it, for every
      limit, if and only if the cursor is faithful. */
  lemma ResumedPageIsExactIff(table: string -> bool, l: seq<string>, after: string)
    requires Ordered(l)
    ensures (forall limit: nat :: PageAt(table, l, after, limit).files ==
                                  Take(limit, Shown(table, Elems(l), Tail(l, after))))
            <==> Faithful(table, l, after)
  {
    var t := Tail(l, after);
    if Faithful(table, l, after) {
      forall limit: nat
        ensures PageAt(table, l, after, limit).files == Take(limit, Shown(table, Elems(l), t))
      {
        FaithfulPage(table, l, after, limit);
      }
    }
    if forall limit: nat :: PageAt(table, l, after, limit).files == Take(limit, Shown(table, Elems(l), t)) {
      assert PageAt(table, l, after, |t|).files == Take(|t|, Shown(table, Elems(l), t));
      BreakIsExact(table, Known(l, after), t, |t|);
      assert Shown(table, Known(l, after), t) == Shown(table, Elems(l), t);
      forall k | k in t && HasStem(k) && Compressible(table, Stem(k)) && !Less(after, Stem(k))
        ensures Stem(k) in l <==> Stem(k) in Seeds(after)
      {
        ShownMember(table, Known(l, after), t, k);
        ShownMember(table, Elems(l), t, k);
        FaithfulHidesAlike(table, l, after, k);
      }
    }
  }

  lemma FaithfulPage(table: string -> bool, l: seq<string>, after: string, limit: nat)
    requires Ordered(l) && Faithful(table, l, after)
    ensures Shown(table, Known(l, after), Tail(l, after)) == Shown(table, Elems(l), Tail(l, after))
    ensures PageAt(table, l, after, limit).files == Take(limit, Shown(table, Elems(l), Tail(l, after)))
  {
    var t := Tail(l, after);
    forall k | k in t
      ensures Hidden(table, Known(l, after), k) == Hidden(table, Elems(l), k)
    {
      FaithfulHidesAlike(table, l, after, k);
    }
    ShownAgree(table, Known(l, after), Elems(l), t);
    BreakIsExact(table, Known(l, after), t, limit);
  }

  // ---------------------------------------------------------------- the whole walk

  lemma {:induction false} ShownIsOrdered(table: string -> bool, known: set<string>, t: seq<string>)
    requires Ordered(t)
    ensures Ordered(Shown(table, known, t))
  {
    if t != [] {
      var rest := Shown(table, known, t[1..]);
      ShownIsOrdered(table, known, t[1..]);
      forall k | k in rest
        ensures Less(t[0], k)
      {
        ShownMember(table, known, t[1..], k);
      }
    }
  }

  /** Whatever the names and whatever the limit, the collected pages list keys above the
      cursor in order and never one twice. */
  lemma {:induction false} WalkIsOrdered(table: string -> bool, l: seq<string>, after: string, limit: nat)
    requires Ordered(l) && limit >= 1
    ensures Ordered(Walk(table, l, after, limit))
    ensures forall k :: k in Walk(table, l, after, limit) ==> k in Tail(l, after)
    decreases |Tail(l, after)|
  {
    var page := PageAt(table, l, after, limit);
    var a, b := PageShape(table, l, after, limit);
    TailIsOrdered(l, after);
    HalvesAreOrdered(a, b);
    ShownIsOrdered(table, Known(l, after), a);
    forall k | k in page.files
      ensures k in a
    {
      ShownMember(table, Known(l, after), a, k);
    }
    if page.hasMore {
      WalkIsOrdered(table, l, page.next, limit);
      OrderedConcat(a, b, page.files, Walk(table, l, page.next, limit));
    }
  }

  lemma OrderedConcat(a: seq<string>, b: seq<string>, x: seq<string>, y: seq<string>)
    requires forall u, v :: u in a && v in b ==> Less(u, v)
    requires Ordered(x) && Ordered(y)
    requires (forall k :: k in x ==> k in a) && (forall k :: k in y ==> k in b)
    ensures Ordered(x + y)
  {
    forall i, j | 0 <= i < j < |x + y|
      ensures Less((x + y)[i], (x + y)[j])
    {
      if i < |x| <= j {
        assert x[i] in x && y[j - |x|] in y;
      }
    }
  }

  /** (H1) Every variant of a compressible name has its identity listed. */
  predicate IdentitiesListed(table: string -> bool, l: seq<string>)
  {
    forall k :: k in l && HasStem(k) && Compressible(table, Stem(k)) ==> Stem(k) in l
  }

  lemma HiddenIsTrueVariant(table: string -> bool, l: seq<string>, after: string, k: string)
    requires Ordered(l) && IdentitiesListed(table, l) && (after == "" || after in l)
    requires Hidden(table, Known(l, after), k)
    ensures Hidden(table, Elems(l), k)
  {
    KnownIsSeedOrTail(table, l, after, k);
  }

  /** Filtering twice is filtering by the wider of the two key sets. */
  lemma {:induction false} ShownTwice(table: string -> bool, narrow: set<string>, wide: set<string>, t: seq<string>)
    requires forall k :: k in t && Hidden(table, narrow, k) ==> Hidden(table, wide, k)
    ensures Shown(table, wide, Shown(table, narrow, t)) == Shown(table, wide, t)
  {
    if t != [] {
      assert t[0] in t;
      forall k | k in t[1..] && Hidden(table, narrow, k)
        ensures Hidden(table, wide, k)
      {
        assert k in t;
      }
      ShownTwice(table, narrow, wide, t[1..]);
      if !Hidden(table, narrow, t[0]) {
        ShownOfCons(table, wide, t[0], Shown(table, narrow, t[1..]));
      }
    }
  }

  /** Under H1 alone every visible file above the cursor is collected exactly once and in
      order, for every limit: dropping the true variants from the walk leaves them all. */
  lemma {:induction false} WalkLosesNothing(table: string -> bool, l: seq<string>, after: string, limit: nat)
    requires Ordered(l) && limit >= 1 && IdentitiesListed(table, l) && (after == "" || after in l)
    ensures Shown(table, Elems(l), Walk(table, l, after, limit)) == Shown(table, Elems(l), Tail(l, after))
    decreases |Tail(l, after)|
  {
    var page := PageAt(table, l, after, limit);
    var a, b := PageShape(table, l, after, limit);
    forall k | k in a && Hidden(table, Known(l, after), k)
      ensures Hidden(table, Elems(l), k)
    {
      HiddenIsTrueVariant(table, l, after, k);
    }
    ShownTwice(table, Known(l, after), Elems(l), a);
    if page.hasMore {
      WalkLosesNothing(table, l, page.next, limit);
      ShownOfConcat(table, Elems(l), page.files, Walk(table, l, page.next, limit));
      ShownOfConcat(table, Elems(l), a, b);
    } else {
      assert a + b == a;
    }
  }

  /** (H2) Only a file's own variants sort between the file and one of its variants. */
  predicate OnlyVariantsBetween(table: string -> bool, l: seq<string>)
  {
    forall k, x :: k in l && x in l && Hidden(table, Elems(l), k) && Less(Stem(k), x) && Less(x, k) ==>
      HasStem(x) && Stem(x) == Stem(k)
  }

  /** Key number i is a visible file, k a later true variant, and the key right before i lies
      above the variant's identity without being one of its variants: a page that resumes at i
      has forgotten the identity when it meets k. */
  predicate Straddles(table: string -> bool, l: seq<string>, i: int, k: string)
  {
    && 0 < i < |l|
    && !Hidden(table, Elems(l), l[i])
    && Less(l[i], k)
    && Hidden(table, Elems(l), k)
    && Less(Stem(k), l[i - 1])
    && !(HasStem(l[i - 1]) && Stem(l[i - 1]) == Stem(k))
  }

  predicate NoStraddle(table: string -> bool, l: seq<string>)
  {
    forall i, k :: 0 <= i < |l| && k in l ==> !Straddles(table, l, i, k)
  }

  lemma OnlyVariantsBetweenSuffices(table: string -> bool, l: seq<string>)
    requires Ordered(l) && OnlyVariantsBetween(table, l)
    ensures NoStraddle(table, l)
  {
    forall i, k | 0 <= i < |l| && k in l
      ensures !Straddles(table, l, i, k)
    {
      if 0 < i && Less(l[i], k) {
        LessTransitive(l[i - 1], l[i], k);
        assert l[i - 1] in l;
      }
    }
  }

  /** A page that starts at key number i, right after a variant of a name that is not listed,
      takes that name as known; if key number j is the other variant, it hides a visible file.
      It does so as long as no more files lie between than lie in front: some page size then
      starts a page at i and still reaches j on it. */
  predicate Loses(table: string -> bool, l: seq<string>, i: int, j: int)
  {
    && 0 < i <= j < |l|
    && !Hidden(table, Elems(l), l[i])
    && HasStem(l[j]) && Compressible(table, Stem(l[j])) && Stem(l[j]) !in l
    && HasStem(l[i - 1]) && Stem(l[i - 1]) == Stem(l[j])
    && |Shown(table, Elems(l), l[i..j])| <= |Shown(table, Elems(l), l[..i])|
  }

  predicate NoLoss(table: string -> bool, l: seq<string>)
  {
    forall i, j :: 0 < i <= j < |l| ==> !Loses(table, l, i, j)
  }

  lemma IdentitiesListedSuffices(table: string -> bool, l: seq<string>)
    requires IdentitiesListed(table, l)
    ensures NoLoss(table, l)
  {
    forall i, j | 0 < i <= j < |l|
      ensures !Loses(table, l, i, j)
    {
      assert l[j] in l;
    }
  }

  /** Right before a visible file the cursor remembers every listed identity it needs. */
  lemma BoundaryHides(table: string -> bool, l: seq<string>, pre: seq<string>, x: string, b: seq<string>, k: string)
    requires IsListing(l) && NoStraddle(table, l)
    requires l == pre + [x] + b && Ordered(b) && b != [] && !Hidden(table, Elems(l), b[0])
    requires k in b && Hidden(table, Elems(l), k)
    ensures Hidden(table, Known(l, x), k)
  {
    assert k in l && x in l;
    var j :| 0 <= j < |b| && b[j] == k;
    assert Less(b[0], k);
    assert l[|pre| + 1] == b[0] && l[|pre|] == x;
    assert !Straddles(table, l, |pre| + 1, k);
    LessTotal(Stem(k), x);
    KnownIsSeedOrTail(table, l, x, k);
  }

  /** What such a cursor hides in excess is a visible file that its own stem gives away. */
  lemma ExcessIsSeeded(table: string -> bool, l: seq<string>, x: string, k: string)
    requires Ordered(l) && x in l && Hidden(table, Known(l, x), k) && !Hidden(table, Elems(l), k)
    ensures HasStem(k) && Compressible(table, Stem(k)) && Stem(k) !in l && HasStem(x) && Stem(x) == Stem(k)
  {
    KnownIsSeedOrTail(table, l, x, k);
  }

  /** So with fewer files in front of the key than lie below the cursor, nothing is lost. */
  lemma BoundaryShows(table: string -> bool, l: seq<string>, pre: seq<string>, x: string, mid: seq<string>, k: string, rest: seq<string>)
    requires Ordered(l) && NoLoss(table, l) && l == pre + [x] + (mid + [k] + rest)
    requires !Hidden(table, Elems(l), (mid + [k])[0]) && !Hidden(table, Elems(l), k)
    requires |Shown(table, Elems(l), mid)| <= |Shown(table, Elems(l), pre + [x])|
    ensures !Hidden(table, Known(l, x), k)
  {
    var i, j := |pre| + 1, |pre| + 1 + |mid|;
    assert l[i - 1] == x && l[j] == k && l[..i] == pre + [x] && l[i..j] == mid && l[i] == (mid + [k])[0];
    assert x in l;
    if Hidden(table, Known(l, x), k) {
      ExcessIsSeeded(table, l, x, k);
      assert Loses(table, l, i, j);
    }
  }

  /** A page breaks where it does because of the keys it consumes and the one it stops on. */
  lemma {:induction false} BreakAgrees(table: string -> bool, k1: set<string>, k2: set<string>, t: seq<string>, limit: nat)
    requires var (a, b) := Break(table, k1, t, limit);
             && (forall k :: k in a ==> Hidden(table, k1, k) == Hidden(table, k2, k))
             && (b != [] ==> Hidden(table, k1, b[0]) == Hidden(table, k2, b[0]))
    ensures Break(table, k2, t, limit) == Break(table, k1, t, limit)
  {
    if t != [] && (Hidden(table, k1, t[0]) || limit > 0) {
      var rest := if Hidden(table, k1, t[0]) then limit else limit - 1;
      var (a, b) := Break(table, k1, t[1..], rest);
      assert t[0] in [t[0]] + a;
      forall k | k in a
        ensures Hidden(table, k1, k) == Hidden(table, k2, k)
      {
        assert k in [t[0]] + a;
      }
      BreakAgrees(table, k1, k2, t[1..], rest);
    }
  }

  /** The files in front of a file that a page consumes, or stops on, are within its limit. */
  lemma FilesInFront(table: string -> bool, known: set<string>, a: seq<string>, b: seq<string>, k: string, limit: nat)
    returns (mid: seq<string>, rest: seq<string>)
    requires |Shown(table, known, a)| <= limit && (k in a || (b != [] && k == b[0]))
    ensures a + b == mid + [k] + rest && |Shown(table, known, mid)| <= limit
  {
    hide Hidden, Shown;
    if k in a {
      var j :| 0 <= j < |a| && a[j] == k;
      mid, rest := a[..j], a[j + 1..] + b;
      assert a + b == a[..j] + [a[j]] + (a[j + 1..] + b);
      assert a == mid + a[j..];
      ShownOfConcat(table, known, mid, a[j..]);
    } else {
      mid, rest := a, b[1..];
    }
  }

  /** A page at a boundary consumes what the plain statement would, when no names straddle and
      none are lost. */
  lemma BoundaryPage(table: string -> bool, l: seq<string>, pre: seq<string>, x: string, t: seq<string>, limit: nat)
    returns (a: seq<string>, b: seq<string>)
    requires IsListing(l) && NoStraddle(table, l) && NoLoss(table, l) && limit >= 1
    requires l == pre + [x] + t && t != [] && !Hidden(table, Elems(l), t[0])
    requires limit <= |Shown(table, Elems(l), pre + [x])|
    ensures t == a + b && a != [] && PageAt(table, l, x, limit) == Page(Shown(table, Elems(l), a), b != [], if b == [] then "" else a[|a| - 1])
    ensures b != [] ==> |Shown(table, Elems(l), a)| == limit && !Hidden(table, Elems(l), b[0])
    ensures Shown(table, Elems(l), a) != []
  {
    hide Less, Hidden, Known, NoLoss, NoStraddle;
    var known, all := Known(l, x), Elems(l);
    TailAfterKey(pre, x, t);
    HalvesAreOrdered(pre + [x], t);
    BreakIsExact(table, all, t, limit);
    var r := Break(table, all, t, limit);
    a, b := r.0, r.1;
    forall k | k in a || (b != [] && k == b[0])
      ensures Hidden(table, all, k) == Hidden(table, known, k)
    {
      assert k in a + b;
      if Hidden(table, all, k) {
        BoundaryHides(table, l, pre, x, t, k);
      } else {
        var mid, rest := FilesInFront(table, all, a, b, k, limit);
        assert (mid + [k])[0] == t[0];
        BoundaryShows(table, l, pre, x, mid, k, rest);
      }
    }
    BreakAgrees(table, all, known, t, limit);
    ShownAgree(table, all, known, a);
    FirstIsShown(table, all, t);
  }

  lemma FirstIsShown(table: string -> bool, known: set<string>, t: seq<string>)
    requires t != [] && !Hidden(table, known, t[0])
    ensures Shown(table, known, t) != []
  {
  }

  /** The pages from a cursor on, none of them empty. */
  ghost predicate NoEmptyPage(table: string -> bool, l: seq<string>, after: string, limit: nat)
    requires Ordered(l) && limit >= 1
    decreases |Tail(l, after)|
  {
    var page := PageAt(table, l, after, limit);
    if page.hasMore then
      NextIsAbove(table, l, after, limit);
      && |page.files| == limit
      && PageAt(table, l, page.next, limit).files != []
      && NoEmptyPage(table, l, page.next, limit)
    else
      true
  }

  lemma {:induction false} BoundaryWalk(table: string -> bool, l: seq<string>, pre: seq<string>, x: string, t: seq<string>, limit: nat)
    requires IsListing(l) && NoStraddle(table, l) && NoLoss(table, l) && limit >= 1
    requires l == pre + [x] + t && t != [] && !Hidden(table, Elems(l), t[0])
    requires limit <= |Shown(table, Elems(l), pre + [x])|
    ensures Walk(table, l, x, limit) == Shown(table, Elems(l), t)
    ensures PageAt(table, l, x, limit).files != [] && NoEmptyPage(table, l, x, limit)
    decreases |t|
  {
    hide Less, Hidden, Known, NoLoss, NoStraddle, PageAt;
    var a, b := BoundaryPage(table, l, pre, x, t, limit);
    ShownOfConcat(table, Elems(l), a, b);
    if b != [] {
      NextIsAbove(table, l, x, limit);
      NextBoundary(table, l, pre + [x], a, b);
      BoundaryWalk(table, l, pre + [x] + a[..|a| - 1], a[|a| - 1], b, limit);
    } else {
      assert a + b == a;
    }
  }

  lemma NextBoundary(table: string -> bool, l: seq<string>, pre: seq<string>, a: seq<string>, b: seq<string>)
    requires l == pre + (a + b) && a != []
    ensures l == pre + a[..|a| - 1] + [a[|a| - 1]] + b
    ensures |Shown(table, Elems(l), pre)| <= |Shown(table, Elems(l), pre + a[..|a| - 1] + [a[|a| - 1]])|
  {
    assert pre + a[..|a| - 1] + [a[|a| - 1]] == pre + a;
    ShownOfConcat(table, Elems(l), pre, a);
  }

  /** A true variant whose identity lies below the cursor and is not seeded by it gets listed
      as a file by some later page. */
  lemma {:induction false} ForgottenVariantLeaks(table: string -> bool, l: seq<string>, after: string, k: string, limit: nat)
    requires Ordered(l) && limit >= 1
    requires k in Tail(l, after) && HasStem(k) && Less(Stem(k), after)
    requires !(HasStem(after) && Stem(after) == Stem(k))
    requires forall x :: x in Tail(l, after) && Less(x, k) && HasStem(x) ==> Stem(x) != Stem(k)
    ensures k in Walk(table, l, after, limit)
    decreases |Tail(l, after)|
  {
    var page := PageAt(table, l, after, limit);
    var a, b := PageShape(table, l, after, limit);
    NotSeeded(table, l, after, k);
    ShownMember(table, Known(l, after), a, k);
    if k !in a {
      assert k in b;
      assert a[|a| - 1] in a;
      TailIsOrdered(l, after);
      HalvesAreOrdered(a, b);
      LessTransitive(Stem(k), after, page.next);
      ForgottenVariantLeaks(table, l, page.next, k, limit);
    }
  }

  lemma NotSeeded(table: string -> bool, l: seq<string>, after: string, k: string)
    requires Ordered(l) && HasStem(k) && Less(Stem(k), after) && !(HasStem(after) && Stem(after) == Stem(k))
    ensures !Hidden(table, Known(l, after), k)
  {
    KnownIsSeedOrTail(table, l, after, k);
    LessIrreflexive(after);
    if Less(after, Stem(k)) {
      LessTransitive(after, Stem(k), after);
    }
  }

  /** A page that consumes `a` in front of a shown key. */
  lemma PageEndsBefore(table: string -> bool, l: seq<string>, after: string, a: seq<string>, b: seq<string>)
    requires Tail(l, after) == a + b && b != [] && !Hidden(table, Known(l, after), b[0])
    ensures PageAt(table, l, after, |Shown(table, Known(l, after), a)|) == PageOf(table, Known(l, after), a, b)
  {
    BreakAt(table, Known(l, after), a, b);
  }

  /** Of the variants of one identity above a cursor, the first in byte order. */
  lemma FirstVariantAbove(t: seq<string>, k0: string) returns (k: string)
    requires k0 in t && HasStem(k0)
    ensures k in t && HasStem(k) && Stem(k) == Stem(k0)
    ensures forall x :: x in t && Less(x, k) && HasStem(x) ==> Stem(x) != Stem(k)
  {
    var s := Stem(k0);
    var br, gz := s + Suffix(Brotli), s + Suffix(Gzip);
    StemOfVariant(s, Brotli);
    StemOfVariant(s, Gzip);
    var e := VariantOfStem(k0);
    k := if br in t then br else gz;
    LessIrreflexive(br);
    LessIrreflexive(gz);
    BrotliBeforeGzip(s);
    if Less(gz, br) {
      LessTransitive(br, gz, br);
    }
    forall x | x in t && Less(x, k) && HasStem(x)
      ensures Stem(x) != s
    {
      if Stem(x) == s {
        var e' := VariantOfStem(x);
      }
    }
  }

  lemma {:induction false} BrotliBeforeGzip(s: string)
    ensures Less(s + Suffix(Brotli), s + Suffix(Gzip))
  {
    if s == [] {
      assert s + ".br" == ".br" && s + ".gz" == ".gz";
      assert ".br"[1..] == "br" && ".gz"[1..] == "gz";
    } else {
      assert (s + ".br")[1..] == s[1..] + ".br" && (s + ".gz")[1..] == s[1..] + ".gz";
      BrotliBeforeGzip(s[1..]);
    }
  }

  /** Where names straddle, some page size makes the walk list a variant as a file. */
  lemma StraddleLeaks(table: string -> bool, l: seq<string>, i: nat, k0: string) returns (limit: nat)
    requires IsListing(l) && SaneTable(table) && k0 in l && Straddles(table, l, i, k0)
    ensures limit >= 1 && Walk(table, l, "", limit) != Visible(table, l)
  {
    var pre, x, b := l[..i - 1], l[i - 1], l[i..];
    assert l == pre + [x] + b;
    HalvesAreOrdered(pre + [x], b);
    IdentityIsShownBelow(table, l, pre + [x], b, Stem(k0));
    limit := |Shown(table, Elems(l), pre + [x])|;
    FirstBoundary(table, l, pre, x, b);
    TailAfterKey(pre, x, b);
    LaterIsInRest(pre + [x], b, k0);
    var k := FirstVariantAbove(b, k0);
    ForgottenVariantLeaks(table, l, x, k, limit);
    ShownMember(table, Elems(l), l, k);
    assert k in Walk(table, l, "", limit);
  }

  /** With as many files per page as lie in front of a visible file, the first page ends there. */
  lemma FirstBoundary(table: string -> bool, l: seq<string>, pre: seq<string>, x: string, b: seq<string>)
    requires IsListing(l) && l == pre + [x] + b && b != [] && !Hidden(table, Elems(l), b[0])
    ensures var page := PageAt(table, l, "", |Shown(table, Elems(l), pre + [x])|);
            page.hasMore && page.next == x
  {
    TailFromStart(l);
    assert Known(l, "") == Elems(l);
    PageEndsBefore(table, l, "", pre + [x], b);
  }

  lemma LaterIsInRest(a: seq<string>, b: seq<string>, k: string)
    requires (forall x, y :: x in a && y in b ==> Less(x, y)) && b != [] && k in a + b && Less(b[0], k)
    ensures k in b
  {
    if k in a {
      assert b[0] in b;
      LessTransitive(b[0], k, b[0]);
      LessIrreflexive(b[0]);
    }
  }

  lemma IdentityIsShownBelow(table: string -> bool, l: seq<string>, a: seq<string>, b: seq<string>, s: string)
    requires l == a + b && a != [] && (forall x, y :: x in a && y in b ==> Less(x, y)) && SaneTable(table)
    requires s in l && Less(s, a[|a| - 1]) && Compressible(table, s)
    ensures |Shown(table, Elems(l), a)| >= 1
  {
    if s in b {
      LessTransitive(a[|a| - 1], s, a[|a| - 1]);
      LessIrreflexive(a[|a| - 1]);
    }
    if HasStem(s) {
      VariantsAreNotCompressible(table, s);
    }
    ShownMember(table, Elems(l), a, s);
  }

  lemma PrefixOfCons(x: string, p: seq<string>, s: seq<string>)
    requires p <= s
    ensures [x] + p <= [x] + s
  {
  }

  /** A page passes over a hidden key when no more than its limit of files lie in front. */
  lemma {:induction false} BreakPasses(table: string -> bool, known: set<string>, mid: seq<string>, k: string, rest: seq<string>, limit: nat)
    requires Hidden(table, known, k) && |Shown(table, known, mid)| <= limit
    ensures mid + [k] <= Break(table, known, mid + [k] + rest, limit).0
  {
    hide Hidden;
    var t := mid + [k] + rest;
    if mid == [] {
      assert t[0] == k;
    } else {
      assert t[0] == mid[0] && t[1..] == mid[1..] + [k] + rest;
      var less := if Hidden(table, known, mid[0]) then limit else limit - 1;
      BreakPasses(table, known, mid[1..], k, rest, less);
      assert Break(table, known, t, limit).0 == [mid[0]] + Break(table, known, t[1..], less).0;
      assert mid + [k] == [mid[0]] + (mid[1..] + [k]);
      PrefixOfCons(mid[0], mid[1..] + [k], Break(table, known, t[1..], less).0);
    }
  }

  /** Hiding more shows no more. */
  lemma {:induction false} HidingMore(table: string -> bool, narrow: set<string>, wide: set<string>, t: seq<string>)
    requires forall k :: k in t && Hidden(table, narrow, k) ==> Hidden(table, wide, k)
    ensures |Shown(table, wide, t)| <= |Shown(table, narrow, t)|
  {
    if t != [] {
      assert t[0] in t;
      forall k | k in t[1..] && Hidden(table, narrow, k)
        ensures Hidden(table, wide, k)
      {
        assert k in t;
      }
      HidingMore(table, narrow, wide, t[1..]);
    }
  }

  /** A page that passes over a hidden key loses it for good. */
  lemma PassedIsLost(table: string -> bool, l: seq<string>, x: string, mid: seq<string>, k: string, rest: seq<string>, limit: nat)
    requires Ordered(l) && limit >= 1 && Tail(l, x) == mid + [k] + rest
    requires Hidden(table, Known(l, x), k) && |Shown(table, Known(l, x), mid)| <= limit
    ensures k !in Walk(table, l, x, limit)
  {
    hide Less, Hidden, Known, Break;
    BreakPasses(table, Known(l, x), mid, k, rest, limit);
    var a, b := PageShape(table, l, x, limit);
    assert (mid + [k])[|mid|] == k && a[|mid|] == k;
    ShownMember(table, Known(l, x), a, k);
    if b != [] {
      NotInLaterWalk(table, l, x, a, b, k, limit);
    }
  }

  /** What a page has consumed is not collected later. */
  lemma NotInLaterWalk(table: string -> bool, l: seq<string>, after: string, a: seq<string>, b: seq<string>, k: string, limit: nat)
    requires Ordered(l) && limit >= 1 && Tail(l, after) == a + b && a != [] && Tail(l, a[|a| - 1]) == b && k in a
    ensures k !in Walk(table, l, a[|a| - 1], limit)
  {
    hide Less;
    TailIsOrdered(l, after);
    HalvesAreOrdered(a, b);
    LessIrreflexive(k);
    WalkIsOrdered(table, l, a[|a| - 1], limit);
  }

  /** Where a file can be lost, some page size loses it, unless names straddle anyway. */
  lemma LossLoses(table: string -> bool, l: seq<string>, i: nat, j: nat) returns (limit: nat)
    requires IsListing(l) && NoStraddle(table, l) && Loses(table, l, i, j)
    ensures limit >= 1 && l[j] in Visible(table, l) && l[j] !in Walk(table, l, "", limit)
  {
    var pre, x, mid, k, rest := l[..i - 1], l[i - 1], l[i..j], l[j], l[j + 1..];
    assert l == pre + [x] + (mid + [k] + rest) && l[..i] == pre + [x] && (mid + [k] + rest)[0] == l[i];
    assert k in l && x in l;
    limit := |Shown(table, Elems(l), pre + [x])|;
    ShownMember(table, Elems(l), pre + [x], x);
    ShownMember(table, Elems(l), l, k);
    OrphanIsPassed(table, l, pre, x, mid, k, rest);
  }

  /** The page that starts right after one orphan variant passes over the other. */
  lemma OrphanIsPassed(table: string -> bool, l: seq<string>, pre: seq<string>, x: string, mid: seq<string>, k: string, rest: seq<string>)
    requires IsListing(l) && NoStraddle(table, l) && l == pre + [x] + (mid + [k] + rest)
    requires !Hidden(table, Elems(l), (mid + [k] + rest)[0])
    requires HasStem(k) && Compressible(table, Stem(k)) && HasStem(x) && Stem(x) == Stem(k)
    requires |Shown(table, Elems(l), mid)| <= |Shown(table, Elems(l), pre + [x])| && |Shown(table, Elems(l), pre + [x])| >= 1
    ensures k !in Walk(table, l, "", |Shown(table, Elems(l), pre + [x])|)
  {
    hide Less, NoStraddle;
    var t, limit := mid + [k] + rest, |Shown(table, Elems(l), pre + [x])|;
    assert t[|mid|] == k && x in l;
    TailAfterKey(pre, x, t);
    HalvesAreOrdered(pre + [x], t);
    KnownIsSeedOrTail(table, l, x, k);
    hide Hidden, Known, Walk;
    forall m | m in mid && Hidden(table, Elems(l), m)
      ensures Hidden(table, Known(l, x), m)
    {
      assert m in t;
      BoundaryHides(table, l, pre, x, t, m);
    }
    HidingMore(table, Elems(l), Known(l, x), mid);
    PassedIsLost(table, l, x, mid, k, rest, limit);
    FirstBoundary(table, l, pre, x, t);
    FirstPageStops(table, l, x, t, k, limit);
  }

  lemma FirstPageStops(table: string -> bool, l: seq<string>, x: string, t: seq<string>, k: string, limit: nat)
    requires IsListing(l) && limit >= 1 && Tail(l, x) == t && k in t
    requires PageAt(table, l, "", limit).hasMore && PageAt(table, l, "", limit).next == x
    requires k !in Walk(table, l, x, limit)
    ensures k !in Walk(table, l, "", limit)
  {
    hide Less, Hidden, Known, Break;
    var a, b := PageShape(table, l, "", limit);
    TailIsOrdered(l, "");
    HalvesAreOrdered(a, b);
    LessIrreflexive(k);
    ShownMember(table, Known(l, ""), a, k);
  }

  /** Main result. Following `next` collects exactly the visible files, for every page size, if
      and only if no names straddle and none can be lost. */
  lemma WalkIsExactIff(table: string -> bool, l: seq<string>)
    requires IsListing(l) && SaneTable(table)
    ensures (forall limit: nat :: limit >= 1 ==> Walk(table, l, "", limit) == Visible(table, l))
            <==> NoStraddle(table, l) && NoLoss(table, l)
  {
    if !NoStraddle(table, l) {
      var i, k :| 0 <= i < |l| && k in l && Straddles(table, l, i, k);
      var limit := StraddleLeaks(table, l, i, k);
    } else if !NoLoss(table, l) {
      var i, j :| 0 < i <= j < |l| && Loses(table, l, i, j);
      var limit := LossLoses(table, l, i, j);
    } else {
      forall limit: nat | limit >= 1
        ensures Walk(table, l, "", limit) == Visible(table, l)
      {
        WalkIsExact(table, l, limit);
      }
    }
  }

  /** Without straddling or lost names: the pages concatenate to the visible files, every page
      but the last is full, and no advertised page is empty. */
  lemma WalkIsExact(table: string -> bool, l: seq<string>, limit: nat)
    requires IsListing(l) && limit >= 1 && NoStraddle(table, l) && NoLoss(table, l)
    ensures Walk(table, l, "", limit) == Visible(table, l)
    ensures NoEmptyPage(table, l, "", limit)
  {
    hide Less, Hidden, NoLoss, NoStraddle;
    TailFromStart(l);
    assert Known(l, "") == Elems(l);
    var a, b := PageShape(table, l, "", limit);
    ShownOfConcat(table, Elems(l), a, b);
    if b != [] {
      assert [] + (a + b) == l;
      NextBoundary(table, l, [], a, b);
      assert [] + a[..|a| - 1] + [a[|a| - 1]] == a;
      BoundaryWalk(table, l, a[..|a| - 1], a[|a| - 1], b, limit);
    } else {
      assert a + b == a;
    }
  }

  /** The two plain hypotheses together suffice. */
  lemma ListedAndAdjacentSuffices(table: string -> bool, l: seq<string>, limit: nat)
    requires IsListing(l) && limit >= 1 && IdentitiesListed(table, l) && OnlyVariantsBetween(table, l)
    ensures Walk(table, l, "", limit) == Visible(table, l) && NoEmptyPage(table, l, "", limit)
  {
    IdentitiesListedSuffices(table, l);
    OnlyVariantsBetweenSuffices(table, l);
    WalkIsExact(table, l, limit);
  }

  // ---------------------------------------------------------------- both hypotheses matter

  /** The two variants of a compressible name, as an archive may hold them without the name
      itself: "a.js.br" and "a.js.gz". */
  function Orphans(s: string): seq<string>
  {
    [s + Suffix(Brotli), s + Suffix(Gzip)]
  }

  lemma OrphansAreVisible(table: string -> bool, s: string)
    ensures IsListing(Orphans(s)) && NoStraddle(table, Orphans(s))
    ensures Visible(table, Orphans(s)) == Orphans(s)
    ensures HasStem(Orphans(s)[0]) && Stem(Orphans(s)[0]) == s
    ensures HasStem(Orphans(s)[1]) && Stem(Orphans(s)[1]) == s
  {
    var l := Orphans(s);
    StemOfVariant(s, Brotli);
    StemOfVariant(s, Gzip);
    BrotliBeforeGzip(s);
    assert s !in l by {
      assert |l[0]| == |s| + 3 && |l[1]| == |s| + 3;
    }
    ShownOfCons(table, Elems(l), l[0], [l[1]]);
    ShownOfCons(table, Elems(l), l[1], []);
    assert l == [l[0]] + [l[1]] && [l[1]] == [l[1]] + [];
  }

  lemma FirstOrphanPage(table: string -> bool, s: string)
    ensures PageAt(table, Orphans(s), "", 1) == Page([Orphans(s)[0]], true, Orphans(s)[0])
  {
    var l := Orphans(s);
    OrphansAreVisible(table, s);
    TailFromStart(l);
    assert Known(l, "") == Elems(l);
    ShownMember(table, Elems(l), l, l[0]);
    ShownMember(table, Elems(l), l, l[1]);
    ShownOfCons(table, Elems(l), l[0], []);
    assert l == [l[0]] + [l[1]] && [l[0]] + [] == [l[0]];
    PageEndsBefore(table, l, "", [l[0]], [l[1]]);
  }

  lemma HiddenOnlyKey(table: string -> bool, l: seq<string>, after: string, k: string, limit: nat)
    requires Tail(l, after) == [k] && Hidden(table, Known(l, after), k)
    ensures PageAt(table, l, after, limit) == Page([], false, "")
  {
    var known := Known(l, after);
    ShownOfCons(table, known, k, []);
    assert [k] + [] == [k];
    BreakWhole(table, known, [k], limit);
  }

  lemma SecondOrphanPage(table: string -> bool, s: string)
    requires Compressible(table, s)
    ensures PageAt(table, Orphans(s), Orphans(s)[0], 1) == Page([], false, "")
  {
    var l := Orphans(s);
    OrphansAreVisible(table, s);
    assert l == [] + [l[0]] + [l[1]];
    TailAfterKey([], l[0], [l[1]]);
    assert s in Seeds(l[0]);
    HiddenOnlyKey(table, l, l[0], l[1], 1);
  }

  /** Without H1 a file can be lost: both variants are visible, the first page of one file
      advertises the second, and the page that resumes there hides it and is empty. */
  lemma OrphanVariantIsLost(table: string -> bool, s: string)
    requires Compressible(table, s)
    ensures var l := Orphans(s);
            && IsListing(l) && NoStraddle(table, l) && Loses(table, l, 1, 1) && Visible(table, l) == l
            && PageAt(table, l, "", 1) == Page([l[0]], true, l[0])
            && PageAt(table, l, l[0], 1) == Page([], false, "")
            && Walk(table, l, "", 1) == [l[0]]
  {
    OrphansAreVisible(table, s);
    FirstOrphanPage(table, s);
    SecondOrphanPage(table, s);
  }

  /** Two keys interposed between a file and its variant, as in "a.js", "a.js-x", "a.js-y",
      "a.js.br". */
  function Interposed(s: string): seq<string>
  {
    [s, s + "-x", s + "-y", s + ".br"]
  }

  lemma InterposedIsOrdered(s: string)
    requires s != ""
    ensures IsListing(Interposed(s))
  {
    CommonStart(s, [], "-x");
    CommonStart(s, [], "-y");
    CommonStart(s, [], ".br");
    CommonStart(s, "-x", "-y");
    CommonStart(s, "-x", ".br");
    CommonStart(s, "-y", ".br");
    assert s + [] == s;
    assert "-x"[1..] == "x" && "-y"[1..] == "y";
  }

  lemma InterposedHasNoStem(s: string, c: char)
    requires c == 'x' || c == 'y'
    ensures !HasStem(s + ['-', c])
  {
    var k := s + ['-', c];
    assert k[|k| - 1] == c;
    if HasStem(k) {
      var e := VariantOfStem(k);
      assert false;
    }
  }

  /** Without H2 a variant can leak although every identity is listed: some page size makes
      the walk list more than the visible files. */
  lemma InterposedKeyLeaks(table: string -> bool, s: string)
    requires SaneTable(table) && Compressible(table, s)
    ensures IsListing(Interposed(s)) && IdentitiesListed(table, Interposed(s))
    ensures Straddles(table, Interposed(s), 2, s + ".br")
    ensures exists limit: nat :: limit >= 1 && Walk(table, Interposed(s), "", limit) != Visible(table, Interposed(s))
  {
    var l := Interposed(s);
    InterposedIsOrdered(s);
    StemOfVariant(s, Brotli);
    InterposedHasNoStem(s, 'x');
    InterposedHasNoStem(s, 'y');
    if HasStem(s) {
      VariantsAreNotCompressible(table, s);
    }
    assert l[0] in l && l[1] == s + ['-', 'x'] && l[2] == s + ['-', 'y'];
    assert Less(l[0], l[1]);
    assert Less(l[2], l[3]) && l[3] in l;
    assert Hidden(table, Elems(l), l[3]);
    var limit := StraddleLeaks(table, l, 2, l[3]);
  }

  lemma {:induction false} CommonStart(s: string, a: string, b: string)
    ensures Less(s + a, s + b) == Less(a, b)
  {
    if s == [] {
      assert s + a == a && s + b == b;
    } else {
      assert (s + a)[1..] == s[1..] + a && (s + b)[1..] == s[1..] + b;
      CommonStart(s[1..], a, b);
    }
  }
}
