/** The bucket: a map from key to object, listed in byte order, and the storage primitives of
    internal/storage/objectstorage-manager.go over it. Which requests the backend refuses is a
    parameter; listings are taken as error-free. */
module ObjectStore {
  import opened Strings
  import Listing

  newtype byte = x: int | 0 <= x < 256

  datatype Object = Object(data: seq<byte>, integrity: string)

  type Bucket = map<string, Object>

  datatype ObjectInfo = ObjectInfo(key: string, size: nat)

  function InfoKeys(infos: seq<ObjectInfo>): (r: seq<string>)
    ensures |r| == |infos|
  {
    seq(|infos|, i requires 0 <= i < |infos| => infos[i].key)
  }

  /** Every listed size is the size of the stored object. */
  predicate Sized(b: Bucket, infos: seq<ObjectInfo>)
  {
    forall i :: 0 <= i < |infos| ==> infos[i].key in b && infos[i].size == |b[infos[i].key].data|
  }

  /** How one PUT ends: a reported failure may come before or after the object is durable. */
  datatype PutOutcome = Stored | Refused | StoredButReported

  function Put(b: Bucket, key: string, o: Object, outcome: PutOutcome): Bucket
  {
    if outcome.Refused? then b else b[key := o]
  }

  function Under(b: Bucket, prefix: string): set<string>
  {
    set k | k in b && prefix <= k
  }

  function Above(b: Bucket, prefix: string, after: string): set<string>
  {
    set k | k in b && prefix <= k && Less(after, k)
  }

  /** The whole listing under a prefix. */
  ghost function KeysUnder(b: Bucket, prefix: string): seq<string>
  {
    Sorted(Under(b, prefix))
  }

  function RemoveUnder(b: Bucket, prefix: string): Bucket
  {
    map k | k in b && !(prefix <= k) :: b[k]
  }

  /** What a removal leaves when the backend refuses to delete some keys. */
  function RemoveUnderExcept(b: Bucket, prefix: string, refused: set<string>): Bucket
  {
    map k | k in b && (!(prefix <= k) || k in refused) :: b[k]
  }

  predicate Exists(b: Bucket, folder: string)
  {
    exists k :: k in b && folder + "/" <= k
  }

  /** The immediate child of `prefix` that holds `key`: a folder when the rest has a slash. */
  function Child(prefix: string, key: string): string
    requires prefix <= key
  {
    var rest := key[|prefix|..];
    if '/' in rest then prefix + Before(rest, '/') + "/" else key
  }

  function Children(b: Bucket, prefix: string): set<string>
  {
    set k | k in b && prefix <= k :: Child(prefix, k)
  }

  /** Listing above a cursor is the tail of the listing under the prefix. */
  lemma ListingAboveIsTail(b: Bucket, prefix: string, after: string)
    ensures Sorted(Above(b, prefix, after)) == Listing.Tail(KeysUnder(b, prefix), after)
  {
    var l := KeysUnder(b, prefix);
    var t := Listing.Tail(l, after);
    Listing.TailSplits(l, after);
    Listing.TailIsOrdered(l, after);
    OrderedIsUnique(Sorted(Above(b, prefix, after)), t);
  }

  lemma SortedStep(s: set<string>, m: string)
    requires IsMinimum(s, m)
    ensures Sorted(s) == [m] + Sorted(s - {m})
  {
    hide Less;
    var t := [m] + Sorted(s - {m});
    forall j | 0 < j < |t|
      ensures Less(m, t[j])
    {
      assert t[j] in Sorted(s - {m});
    }
    OrderedIsUnique(Sorted(s), t);
  }

  /** What lies under a non-empty prefix is a listing, and lies above the empty cursor. */
  lemma UnderIsListing(b: Bucket, prefix: string)
    requires prefix != ""
    ensures Listing.IsListing(KeysUnder(b, prefix))
    ensures Listing.Tail(KeysUnder(b, prefix), "") == KeysUnder(b, prefix)
  {
    assert "" !in Under(b, prefix);
    Listing.TailFromStart(KeysUnder(b, prefix));
  }

  lemma StreamStep(keys: seq<string>, rest: set<string>, m: string)
    requires IsMinimum(rest, m)
    ensures m in rest && keys + [m] + Sorted(rest - {m}) == keys + Sorted(rest)
  {
    SortedStep(rest, m);
  }

  lemma EmptyIsSorted()
    ensures Sorted({}) == []
  {
  }

  method First(s: set<string>) returns (m: string)
    requires s != {}
    ensures IsMinimum(s, m)
  {
    ghost var least := MinimumExists(s);
    assert IsMinimum(s, least);
    m :| m in s && IsMinimum(s, m);
  }

  lemma StreamIsUnder(b: Bucket, prefix: string, stream: seq<string>)
    requires (prefix != "" || "" !in b) && stream == Sorted(Above(b, prefix, ""))
    ensures forall k :: k in stream <==> k in Under(b, prefix)
  {
    forall k
      ensures k in stream <==> k in Under(b, prefix)
    {
      assert k in stream <==> k in Above(b, prefix, "");
    }
  }

  class ObjectStorage {
    var objects: Bucket

    constructor ()
      ensures objects == map[]
    {
      objects := map[];
    }

    /** The client's listing stream: keys in byte order (the backend's own promise). */
    method ListObjects(prefix: string, after: string) returns (keys: seq<string>)
      ensures keys == Sorted(Above(objects, prefix, after))
    {
      hide Less, Above, Sorted, IsMinimum, Under, KeysUnder;
      var rest := Above(objects, prefix, after);
      ghost var all := Sorted(rest);
      keys := [];
      assert [] + all == all;
      EmptyIsSorted();
      while rest != {}
        invariant keys + Sorted(rest) == all
        decreases rest
      {
        var m := First(rest);
        StreamStep(keys, rest, m);
        keys := keys + [m];
        rest := rest - {m};
      }
    }

    /** At most `limit` objects above `after`, and whether another one follows. */
    method ListObjectsPage(prefix: string, after: string, limit: nat) returns (page: seq<ObjectInfo>, more: bool)
      ensures var t := Listing.Tail(KeysUnder(objects, prefix), after);
              InfoKeys(page) == Listing.Take(limit, t) && (more <==> |t| > limit)
      ensures Sized(objects, page)
    {
      hide Less, Sorted, Listing.Tail;
      var stream := ListObjects(prefix, after);
      ListingAboveIsTail(objects, prefix, after);
      forall i | 0 <= i < |stream|
        ensures stream[i] in objects
      {
        assert stream[i] in Above(objects, prefix, after);
      }
      page := [];
      for i := 0 to |stream|
        invariant |page| == i <= limit
        invariant InfoKeys(page) == stream[..i] && Sized(objects, page)
      {
        if |page| == limit {
          return page, true;
        }
        page := page + [ObjectInfo(stream[i], |objects[stream[i]].data|)];
        assert stream[..i + 1] == stream[..i] + [stream[i]];
      }
      more := false;
      assert stream[..|stream|] == stream;
    }

    /** The immediate children below `prefix`. No store holds an object without a name. */
    method ListCommonPrefixes(prefix: string) returns (prefixes: seq<string>)
      requires prefix != "" || "" !in objects
      ensures forall p :: p in prefixes <==> p in Children(objects, prefix)
    {
      var stream := ListObjects(prefix, "");
      forall i | 0 <= i < |stream|
        ensures prefix <= stream[i] && stream[i] in objects
      {
        assert stream[i] in Above(objects, prefix, "");
      }
      prefixes := [];
      for i := 0 to |stream|
        invariant forall p :: p in prefixes ==> p in Children(objects, prefix)
        invariant forall j :: 0 <= j < i ==> Child(prefix, stream[j]) in prefixes
      {
        var child := Child(prefix, stream[i]);
        if child !in prefixes {
          prefixes := prefixes + [child];
        }
      }
      forall k | k in objects && prefix <= k
        ensures Child(prefix, k) in prefixes
      {
        assert k != "";
        assert k in Above(objects, prefix, "");
        assert k in stream;
      }
    }

    /** Whether some object lies in the folder; a longer sibling folder does not count. */
    method ObjectExists(folder: string) returns (found: bool)
      ensures found <==> Exists(objects, folder)
    {
      var stream := ListObjects(folder + "/", "");
      if stream != [] {
        assert stream[0] in Above(objects, folder + "/", "");
        return true;
      }
      forall k | k in objects && folder + "/" <= k
        ensures k in Above(objects, folder + "/", "")
      {
      }
      return false;
    }

    /** Deletes everything under a prefix; reports failure when a deletion was refused. */
    method RemoveObjects(prefix: string, refused: set<string>) returns (ok: bool)
      requires prefix != "" || "" !in objects
      modifies this
      ensures objects == RemoveUnderExcept(old(objects), prefix, refused)
      ensures ok <==> Under(old(objects), prefix) !! refused
    {
      hide Less, Sorted, Above;
      var stream := ListObjects(prefix, "");
      StreamIsUnder(objects, prefix, stream);
      ok := true;
      for i := 0 to |stream|
        invariant forall k :: k in objects ==> k in old(objects) && objects[k] == old(objects)[k]
        invariant forall k :: k in old(objects) && (k !in stream || k in refused) ==> k in objects
        invariant forall j :: 0 <= j < i && stream[j] !in refused ==> stream[j] !in objects
        invariant ok <==> forall j :: 0 <= j < i ==> stream[j] !in refused
      {
        if stream[i] in refused {
          ok := false;
        } else {
          objects := objects - {stream[i]};
        }
      }
      assert forall k :: k in Under(old(objects), prefix) ==> k in stream;
      forall k | k in objects && prefix <= k
        ensures k in refused
      {
        assert k in Under(old(objects), prefix);
        var j :| 0 <= j < |stream| && stream[j] == k;
      }
    }

    /** One PUT (`AddObject` and `AddBytes`). */
    method AddObject(key: string, o: Object, outcome: PutOutcome) returns (ok: bool)
      modifies this
      ensures objects == Put(old(objects), key, o, outcome)
      ensures ok <==> outcome.Stored?
    {
      if !outcome.Refused? {
        objects := objects[key := o];
      }
      ok := outcome.Stored?;
    }
  }
}
