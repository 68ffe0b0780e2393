/** The loops of `GetFiles` (internal/content/content-service.go:384-443): fetch raw keys page by
    page, skip variants, collect one file more than asked for. Proved to compute the page that
    module Listing specifies. */
module Paging {
  import opened Strings
  import opened Encodings
  import opened ObjectStore
  import Listing

  datatype File = File(name: string, size: nat)

  datatype FileListing = FileListing(version: string, files: seq<File>, next: string, hasMore: bool, total: nat, totalKnown: bool)

  datatype PagedFile = PagedFile(file: File, cursor: string)

  function Names(files: seq<File>): (r: seq<string>)
    ensures |r| == |files|
  {
    seq(|files|, i requires 0 <= i < |files| => files[i].name)
  }

  function PagedNames(collected: seq<PagedFile>): (r: seq<string>)
    ensures |r| == |collected|
  {
    seq(|collected|, i requires 0 <= i < |collected| => collected[i].file.name)
  }

  /** Every collected size is the size of the stored object. */
  predicate FilesSized(b: Bucket, collected: seq<PagedFile>)
  {
    forall i :: 0 <= i < |collected| ==>
      collected[i].file.name in b && collected[i].file.size == |b[collected[i].file.name].data|
  }

  function LastOr(done: seq<string>, after: string): string
  {
    if done == [] then after else done[|done| - 1]
  }

  /** The loop has scanned `done` and is not full. */
  predicate Going(table: string -> bool, b: Bucket, known: set<string>, after: string,
                  done: seq<string>, cursor: string, collected: seq<PagedFile>)
  {
    cursor == LastOr(done, after) && PagedNames(collected) == Listing.Shown(table, known, done) && FilesSized(b, collected)
  }

  /** The loop stopped on `x`, the first file too many, after scanning `front`. */
  predicate Stopped(table: string -> bool, b: Bucket, known: set<string>, after: string,
                    front: seq<string>, x: string, kept: seq<PagedFile>, last: PagedFile)
  {
    && PagedNames(kept) == Listing.Shown(table, known, front)
    && last.file.name == x && last.cursor == LastOr(front, after)
    && !Hidden(table, known, x)
    && FilesSized(b, kept)
  }

  lemma ShownNext(table: string -> bool, known: set<string>, done: seq<string>, x: string)
    ensures Listing.Shown(table, known, done + [x]) ==
            Listing.Shown(table, known, done) + (if Hidden(table, known, x) then [] else [x])
  {
    Listing.ShownOfConcat(table, known, done, [x]);
    Listing.ShownOfCons(table, known, x, []);
    assert [x] + [] == [x];
  }

  lemma NamesNext(collected: seq<PagedFile>, f: PagedFile)
    ensures PagedNames(collected + [f]) == PagedNames(collected) + [f.file.name]
  {
  }

  /** One key further: hidden keys are skipped, others collected with the previous cursor. */
  lemma GoingNext(table: string -> bool, b: Bucket, known: set<string>, after: string,
                  done: seq<string>, cursor: string, collected: seq<PagedFile>, info: ObjectInfo)
    requires Going(table, b, known, after, done, cursor, collected)
    requires info.key in b && info.size == |b[info.key].data|
    ensures Hidden(table, known, info.key) ==> Going(table, b, known, after, done + [info.key], info.key, collected)
    ensures !Hidden(table, known, info.key) ==>
              var f := PagedFile(File(info.key, info.size), cursor);
              && Going(table, b, known, after, done + [info.key], info.key, collected + [f])
              && Stopped(table, b, known, after, done, info.key, collected, f)
  {
    ShownNext(table, known, done, info.key);
    NamesNext(collected, PagedFile(File(info.key, info.size), cursor));
  }

  /** Keys fetched so far decide hiding like the whole tail: a stem sorts before its variant. */
  lemma FetchedKeysDecide(table: string -> bool, l: seq<string>, after: string, seen: seq<string>, rest: seq<string>, k: string)
    requires Ordered(l) && Listing.Tail(l, after) == seen + rest && k in seen
    ensures Hidden(table, Listing.Seeds(after) + Listing.Elems(seen), k) == Hidden(table, Listing.Known(l, after), k)
  {
    Listing.TailIsOrdered(l, after);
    Listing.HalvesAreOrdered(seen, rest);
    if HasStem(k) && Stem(k) in rest {
      StemIsSmaller(k);
      LessTransitive(k, Stem(k), k);
      LessIrreflexive(k);
    }
  }

  /** The first inner loop of `GetFiles`: every fetched key becomes known, and the known keys
      then decide hiding on the fetched page. */
  method LearnKeys(table: string -> bool, fetched: seq<ObjectInfo>, before: set<string>,
                   ghost l: seq<string>, ghost after: string, ghost done: seq<string>, ghost rest: seq<string>)
    returns (keys: set<string>)
    requires Ordered(l) && Listing.Tail(l, after) == done + InfoKeys(fetched) + rest
    requires before == Listing.Seeds(after) + Listing.Elems(done)
    ensures keys == Listing.Seeds(after) + Listing.Elems(done + InfoKeys(fetched))
    ensures forall k :: k in InfoKeys(fetched) ==> Hidden(table, keys, k) == Hidden(table, Listing.Known(l, after), k)
  {
    ghost var ks := InfoKeys(fetched);
    keys := before;
    for i := 0 to |fetched|
      invariant keys == before + Listing.Elems(ks[..i])
    {
      assert ks[..i + 1] == ks[..i] + [ks[i]];
      keys := keys + {fetched[i].key};
    }
    assert ks[..|fetched|] == ks;
    forall k | k in ks
      ensures Hidden(table, keys, k) == Hidden(table, Listing.Known(l, after), k)
    {
      FetchedKeysDecide(table, l, after, done + ks, rest, k);
    }
  }

  /** One fetched page: the second inner loop of `GetFiles`. */
  method ScanPage(table: string -> bool, fetched: seq<ObjectInfo>, keys: set<string>, start: string,
                  soFar: seq<PagedFile>, limit: nat,
                  ghost b: Bucket, ghost known: set<string>, ghost after: string, ghost done: seq<string>)
    returns (cursor: string, collected: seq<PagedFile>, ghost front: seq<string>, ghost x: string, ghost more: seq<string>)
    requires Going(table, b, known, after, done, start, soFar) && |soFar| <= limit
    requires Sized(b, fetched)
    requires forall k :: k in InfoKeys(fetched) ==> Hidden(table, keys, k) == Hidden(table, known, k)
    ensures |collected| <= limit ==> Going(table, b, known, after, done + InfoKeys(fetched), cursor, collected)
    ensures |collected| > limit ==>
              && |collected| == limit + 1
              && Stopped(table, b, known, after, front, x, collected[..limit], collected[limit])
              && front + [x] + more == done + InfoKeys(fetched)
  {
    hide Listing.Tail, Listing.Shown, Listing.Known, Listing.Seeds, Listing.PageAt, Hidden, Less;
    ghost var ks := InfoKeys(fetched);
    cursor, collected, front, x, more := start, soFar, [], "", [];
    assert done + ks[..0] == done;
    for i := 0 to |fetched|
      invariant |collected| <= limit
      invariant Going(table, b, known, after, done + ks[..i], cursor, collected)
    {
      var info := fetched[i];
      var previous := cursor;
      cursor := info.key;
      assert ks[i] == info.key && ks[i] in ks;
      assert done + ks[..i + 1] == done + ks[..i] + [info.key];
      GoingNext(table, b, known, after, done + ks[..i], previous, collected, info);
      var hidden := IsEncodedVariant(table, info.key, keys);
      if hidden {
        continue;
      }
      ghost var kept := collected;
      collected := collected + [PagedFile(File(info.key, info.size), previous)];
      if |collected| > limit {
        front, x, more := done + ks[..i], info.key, ks[i + 1..];
        assert collected[..limit] == kept;
        assert ks == ks[..i] + [info.key] + ks[i + 1..];
        return;
      }
    }
    assert ks[..|fetched|] == ks;
  }

  /** What the fetch loop returns: the page, and one file more when another page follows. */
  predicate CollectedPage(table: string -> bool, b: Bucket, l: seq<string>, after: string,
                          collected: seq<PagedFile>, limit: nat)
  {
    if |collected| > limit then
      && FilesSized(b, collected[..limit])
      && Listing.PageAt(table, l, after, limit) == Listing.Page(PagedNames(collected[..limit]), true, collected[limit].cursor)
    else
      && FilesSized(b, collected)
      && Listing.PageAt(table, l, after, limit) == Listing.Page(PagedNames(collected), false, "")
  }

  lemma StoppedIsPage(table: string -> bool, b: Bucket, l: seq<string>, after: string,
                      front: seq<string>, x: string, more: seq<string>, collected: seq<PagedFile>, limit: nat)
    requires limit >= 1 && |collected| == limit + 1 && Listing.Tail(l, after) == front + [x] + more
    requires Stopped(table, b, Listing.Known(l, after), after, front, x, collected[..limit], collected[limit])
    ensures CollectedPage(table, b, l, after, collected, limit)
  {
    var rest := [x] + more;
    assert front + [x] + more == front + rest;
    assert |PagedNames(collected[..limit])| == limit;
    Listing.PageEndsBefore(table, l, after, front, rest);
  }

  lemma ExhaustedIsPage(table: string -> bool, b: Bucket, l: seq<string>, after: string,
                        cursor: string, collected: seq<PagedFile>, limit: nat)
    requires |collected| <= limit
    requires Going(table, b, Listing.Known(l, after), after, Listing.Tail(l, after), cursor, collected)
    ensures CollectedPage(table, b, l, after, collected, limit)
  {
    Listing.BreakWhole(table, Listing.Known(l, after), Listing.Tail(l, after), limit);
  }

  /** Resuming at the cursor of the loop continues the tail. */
  lemma ResumedTail(l: seq<string>, after: string, done: seq<string>, rest: seq<string>)
    requires Ordered(l) && Listing.Tail(l, after) == done + rest
    ensures Listing.Tail(l, LastOr(done, after)) == rest
  {
    if done != [] {
      var pre := Listing.TailIsSuffix(l, after);
      var front, x := done[..|done| - 1], done[|done| - 1];
      assert l == (pre + front) + [x] + rest;
      Listing.TailAfterKey(pre + front, x, rest);
    }
  }

  /** What a fetch leaves of the keys above its cursor. */
  lemma AfterFetch(done: seq<string>, rest: seq<string>, ks: seq<string>, limit: nat) returns (rest': seq<string>)
    requires ks == Listing.Take(limit, rest)
    ensures rest == ks + rest' && done + rest == done + ks + rest'
    ensures |rest| <= limit <==> rest' == []
  {
    rest' := rest[|ks|..];
  }

  /** The ghost state of the fetch loop: keys scanned and keys left, or where it stopped. */
  datatype Progress = Running(done: seq<string>, rest: seq<string>) | Full(front: seq<string>, x: string, more: seq<string>)

  ghost predicate InProgress(table: string -> bool, b: Bucket, l: seq<string>, after: string, limit: nat,
                             at: Progress, cursor: string, keys: set<string>, collected: seq<PagedFile>)
  {
    match at
    case Running(done, rest) =>
      && |collected| <= limit && done + rest == Listing.Tail(l, after)
      && Going(table, b, Listing.Known(l, after), after, done, cursor, collected)
      && keys == Listing.Seeds(after) + Listing.Elems(done)
    case Full(front, x, more) =>
      && |collected| == limit + 1 && front + [x] + more == Listing.Tail(l, after)
      && Stopped(table, b, Listing.Known(l, after), after, front, x, collected[..limit], collected[limit])
  }

  lemma LoopStarts(table: string -> bool, b: Bucket, l: seq<string>, after: string, limit: nat)
    ensures InProgress(table, b, l, after, limit, Running([], Listing.Tail(l, after)), after, Listing.Seeds(after), [])
  {
    assert [] + Listing.Tail(l, after) == Listing.Tail(l, after);
  }

  lemma ResumesAtCursor(table: string -> bool, b: Bucket, l: seq<string>, after: string, limit: nat,
                        at: Progress, cursor: string, keys: set<string>, collected: seq<PagedFile>)
    requires Ordered(l) && at.Running? && InProgress(table, b, l, after, limit, at, cursor, keys, collected)
    ensures Listing.Tail(l, cursor) == at.rest
  {
    ResumedTail(l, after, at.done, at.rest);
  }

  lemma LoopEnds(table: string -> bool, b: Bucket, l: seq<string>, after: string, limit: nat,
                 at: Progress, cursor: string, keys: set<string>, collected: seq<PagedFile>)
    requires limit >= 1 && InProgress(table, b, l, after, limit, at, cursor, keys, collected)
    requires at.Running? ==> at.rest == []
    ensures CollectedPage(table, b, l, after, collected, limit)
  {
    match at
    case Running(done, _) =>
      assert done + [] == done;
      ExhaustedIsPage(table, b, l, after, cursor, collected, limit);
    case Full(front, x, more) =>
      StoppedIsPage(table, b, l, after, front, x, more, collected, limit);
  }

  /** One round of the fetch loop on what was fetched: learn the keys, then scan them. */
  method Round(table: string -> bool, fetched: seq<ObjectInfo>, before: set<string>, start: string,
               soFar: seq<PagedFile>, limit: nat, ghost b: Bucket, ghost l: seq<string>, ghost after: string, ghost at: Progress)
    returns (cursor: string, keys: set<string>, collected: seq<PagedFile>, ghost next: Progress)
    requires Ordered(l) && at.Running? && InProgress(table, b, l, after, limit, at, start, before, soFar)
    requires Sized(b, fetched) && InfoKeys(fetched) == Listing.Take(limit, at.rest)
    ensures InProgress(table, b, l, after, limit, next, cursor, keys, collected)
    ensures next.Running? ==> at.rest == InfoKeys(fetched) + next.rest
    ensures |collected| <= limit + 1 && (next.Running? <==> |collected| <= limit)
  {
    hide Listing.Tail, Listing.Shown, Listing.Known, Listing.Seeds, Listing.PageAt, Hidden, Less;
    ghost var ks := InfoKeys(fetched);
    ghost var rest := AfterFetch(at.done, at.rest, ks, limit);
    keys := LearnKeys(table, fetched, before, l, after, at.done, rest);
    ghost var front, x, more;
    cursor, collected, front, x, more := ScanPage(table, fetched, keys, start, soFar, limit, b, Listing.Known(l, after), after, at.done);
    next := if |collected| > limit then Full(front, x, more + rest) else Running(at.done + ks, rest);
  }

  /** The fetch loop of `GetFiles`. */
  method CollectPage(storage: ObjectStorage, table: string -> bool, prefix: string, after: string, limit: nat)
    returns (collected: seq<PagedFile>, singlePage: bool)
    requires limit >= 1
    ensures CollectedPage(table, storage.objects, KeysUnder(storage.objects, prefix), after, collected, limit)
    ensures |collected| <= limit + 1
    ensures singlePage <==> after == "" && |Listing.Tail(KeysUnder(storage.objects, prefix), "")| <= limit
  {
    hide Listing.Tail, Listing.Known, Listing.Seeds, Listing.PageAt, Less, InProgress, CollectedPage;
    ghost var b := storage.objects;
    ghost var l := KeysUnder(b, prefix);
    ghost var at := Running([], Listing.Tail(l, after));
    var cursor, keys := after, Listing.Seeds(after);
    collected, singlePage := [], false;
    LoopStarts(table, b, l, after, limit);
    var firstFetch, exhausted := true, false;
    while |collected| <= limit && !exhausted
      invariant InProgress(table, b, l, after, limit, at, cursor, keys, collected)
      invariant |collected| <= limit + 1 && (at.Running? <==> |collected| <= limit)
      invariant exhausted && at.Running? ==> at.rest == []
      invariant firstFetch ==> at.Running? && at.rest == Listing.Tail(l, after) && !exhausted
      invariant singlePage <==> !firstFetch && after == "" && |Listing.Tail(l, after)| <= limit
      decreases if at.Running? then |at.rest| else 0, !exhausted, at.Running?
    {
      ResumesAtCursor(table, b, l, after, limit, at, cursor, keys, collected);
      var fetched, hasMore := storage.ListObjectsPage(prefix, cursor, limit);
      if firstFetch && after == "" && !hasMore {
        singlePage := true;
      }
      firstFetch := false;
      if |fetched| == 0 {
        break;
      }
      cursor, keys, collected, at := Round(table, fetched, keys, cursor, collected, limit, b, l, after, at);
      exhausted := !hasMore;
    }
    LoopEnds(table, b, l, after, limit, at, cursor, keys, collected);
  }

  /** Packs what was collected, holding back the extra file. */
  method ListingOf(version: string, collected: seq<PagedFile>, singlePage: bool, limit: nat) returns (r: FileListing)
    ensures r.version == version && r.hasMore == (|collected| > limit)
    ensures Names(r.files) == PagedNames(if |collected| > limit then collected[..limit] else collected)
    ensures |r.files| <= |collected| && forall i :: 0 <= i < |r.files| ==> r.files[i] == collected[i].file
    ensures r.next == (if |collected| > limit then collected[limit].cursor else "")
    ensures r.total == |r.files| && r.totalKnown == (singlePage && !r.hasMore)
  {
    var hasMore := |collected| > limit;
    var next := if hasMore then collected[limit].cursor else "";
    var kept := if hasMore then collected[..limit] else collected;
    var files := [];
    for i := 0 to |kept|
      invariant |files| == i && forall j :: 0 <= j < i ==> files[j] == kept[j].file
    {
      files := files + [kept[i].file];
    }
    r := FileListing(version, files, next, hasMore, |files|, singlePage && !hasMore);
    assert Names(files) == PagedNames(kept);
  }
}
