/** The file token store (internal/auth/file-token-store.go): two maps share one heap object per
    token, and every mutation writes the whole set to a temporary file renamed over the token
    file. Encryption followed by decryption is the identity, and torn data does not decrypt. */
module FileTokens {
  import opened Semver
  import opened Tokens

  // ---------------------------------------------------------------- the disk

  /** What a file decrypts to: a full list of tokens, or nothing usable. */
  datatype Data = Whole(tokens: seq<Token>) | Torn

  datatype Blob = Blob(data: Data, synced: bool)

  type Files = map<string, Blob>

  /** Power loss keeps what was synced and may tear anything else. */
  function PowerLoss(files: Files): Files
  {
    map n | n in files :: if files[n].synced then files[n] else Blob(Torn, true)
  }

  /** The tokens listed are exactly those of s, each once. */
  ghost predicate IsSnapshot(tokens: seq<Token>, s: Issued)
  {
    && |tokens| == |s|
    && (forall t :: t in tokens ==> t.id in s && s[t.id] == t)
    && (forall id :: id in s ==> s[id].id == id && s[id] in tokens)
  }

  /** The token file durably holds exactly the tokens s; a missing file holds none. */
  ghost predicate Holds(files: Files, path: string, s: Issued)
  {
    if path !in files then s == map[]
    else files[path].synced && files[path].data.Whole? && IsSnapshot(files[path].data.tokens, s)
  }

  lemma SurvivesPowerLoss(files: Files, path: string, s: Issued)
    requires Holds(files, path, s)
    ensures Holds(PowerLoss(files), path, s)
  {
    if path in files {
      assert PowerLoss(files)[path] == files[path];
    }
  }

  /** At every moment from index `start` on, the token file holds one of two sets in full. */
  ghost predicate CrashSafe(history: seq<Files>, start: nat, path: string, before: Issued, after: Issued)
  {
    forall i :: start <= i < |history| ==> Holds(history[i], path, before) || Holds(history[i], path, after)
  }

  /** A crash during a flush, power loss included, leaves the old tokens or the new ones. */
  lemma CrashRecovers(history: seq<Files>, start: nat, path: string, before: Issued, after: Issued, i: nat)
    requires CrashSafe(history, start, path, before, after) && start <= i < |history|
    ensures Holds(PowerLoss(history[i]), path, before) || Holds(PowerLoss(history[i]), path, after)
  {
    hide Holds;
    if Holds(history[i], path, before) {
      SurvivesPowerLoss(history[i], path, before);
    } else {
      SurvivesPowerLoss(history[i], path, after);
    }
  }

  class Disk {
    var files: Files
    ghost var history: seq<Files>

    constructor (files: Files)
      ensures this.files == files && history == []
    {
      this.files, history := files, [];
    }

    method Create(name: string)
      modifies this
      ensures files == old(files)[name := Blob(Torn, false)]
      ensures history == old(history) + [files]
    {
      files := files[name := Blob(Torn, false)];
      history := history + [files];
    }

    method Write(name: string, tokens: seq<Token>, fails: bool) returns (ok: bool)
      modifies this
      ensures files == old(files)[name := Blob(if fails then Torn else Whole(tokens), false)]
      ensures history == old(history) + [files] && ok == !fails
    {
      files := files[name := Blob(if fails then Torn else Whole(tokens), false)];
      history := history + [files];
      ok := !fails;
    }

    method Sync(name: string, fails: bool) returns (ok: bool)
      requires name in files
      modifies this
      ensures files == if fails then old(files) else old(files)[name := old(files)[name].(synced := true)]
      ensures history == old(history) + [files] && ok == !fails
    {
      if !fails {
        files := files[name := files[name].(synced := true)];
      }
      history := history + [files];
      ok := !fails;
    }

    method Rename(from: string, to: string, fails: bool) returns (ok: bool)
      requires from in files
      modifies this
      ensures files == if fails then old(files) else (old(files) - {from})[to := old(files)[from]]
      ensures history == old(history) + [files] && ok == !fails
    {
      if !fails {
        files := (files - {from})[to := files[from]];
      }
      history := history + [files];
      ok := !fails;
    }

    method Remove(name: string)
      modifies this
      ensures files == old(files) - {name}
      ensures history == old(history) + [files]
    {
      files := files - {name};
      history := history + [files];
    }

    /** Temporary file, then rename (157-186): at every step the other files, the target
        included, are the old ones or the target alone is replaced in full. */
    method Replace(path: string, tokens: seq<Token>, io: Io) returns (ok: bool)
      requires io.tmp !in files && io.tmp != path
      modifies this
      ensures ok <==> io.fault.NoFault? || io.fault.EncryptFails?
      ensures files == if ok then old(files)[path := Blob(Whole(tokens), true)] else old(files)
      ensures old(history) <= history
      ensures forall i :: |old(history)| <= i < |history| ==>
                history[i] - {io.tmp} in {old(files), old(files)[path := Blob(Whole(tokens), true)]}
    {
      ghost var before, after := files, files[path := Blob(Whole(tokens), true)];
      if io.fault.CreateFails? {
        return false;
      }
      Create(io.tmp);
      assert files - {io.tmp} == before;
      ok := Write(io.tmp, tokens, io.fault.WriteFails?);
      assert files - {io.tmp} == before;
      if ok {
        ok := Sync(io.tmp, io.fault.SyncFails?);
        assert files - {io.tmp} == before;
      }
      if ok {
        ok := !io.fault.CloseFails?;
      }
      if ok {
        ok := Rename(io.tmp, path, io.fault.RenameFails?);
        assert files - {io.tmp} == if ok then after else before;
      }
      if !ok {
        Remove(io.tmp);
        assert files == before == files - {io.tmp};
      }
    }
  }

  /** The step of a flush that fails, if any. */
  datatype Fault = NoFault | EncryptFails | CreateFails | WriteFails | SyncFails | CloseFails | RenameFails

  /** What the system decides for one flush: the temporary name and the failing step. */
  datatype Io = Io(tmp: string, fault: Fault)

  // ---------------------------------------------------------------- entries and the store

  /** Only the time of revocation is ever assigned after an entry is made. */
  class TokenEntry {
    const id: string
    const name: string
    const hash: string
    const createdAt: int
    const expiresAt: Option<int>
    var revokedAt: Option<int>

    constructor (t: Token)
      ensures Value() == t
    {
      id, name, hash, createdAt, expiresAt, revokedAt := t.id, t.name, t.hash, t.createdAt, t.expiresAt, t.revokedAt;
    }

    function Value(): (t: Token)
      reads this
    {
      Token(id, name, hash, createdAt, expiresAt, revokedAt)
    }
  }

  function Purged(s: Issued, now: int): Issued
  {
    map id | id in s && !IsExpired(s[id], now) :: s[id]
  }

  predicate AnyExpired(s: Issued, now: int)
  {
    exists id :: id in s && IsExpired(s[id], now)
  }

  ghost predicate HashesDistinct(s: Issued)
  {
    forall a, b :: a in s && b in s && s[a].hash == s[b].hash ==> a == b
  }

  /** No token is older than one after it. */
  predicate IsNewestFirst(tokens: seq<Token>)
  {
    tokens == [] || ((forall t :: t in tokens[1..] ==> tokens[0].createdAt >= t.createdAt) && IsNewestFirst(tokens[1..]))
  }

  function Placed(t: Token, sorted: seq<Token>): (r: seq<Token>)
    ensures multiset(r) == multiset([t]) + multiset(sorted)
  {
    if sorted == [] || t.createdAt >= sorted[0].createdAt then [t] + sorted
    else
      assert sorted == [sorted[0]] + sorted[1..];
      [sorted[0]] + Placed(t, sorted[1..])
  }

  lemma {:induction false} PlacedMembers(t: Token, sorted: seq<Token>, x: Token)
    ensures x in Placed(t, sorted) <==> x == t || x in sorted
  {
    hide Placed;
    assert x in Placed(t, sorted) <==> x in multiset(Placed(t, sorted));
    assert x in sorted <==> x in multiset(sorted);
  }

  lemma {:induction false} PlacedIsSorted(t: Token, sorted: seq<Token>)
    requires IsNewestFirst(sorted)
    ensures IsNewestFirst(Placed(t, sorted))
  {
    var r := Placed(t, sorted);
    if sorted == [] || t.createdAt >= sorted[0].createdAt {
      assert r[1..] == sorted;
      if sorted != [] {
        assert sorted == [sorted[0]] + sorted[1..];
      }
    } else {
      PlacedIsSorted(t, sorted[1..]);
      assert r[1..] == Placed(t, sorted[1..]);
      forall x | x in r[1..]
        ensures r[0].createdAt >= x.createdAt
      {
        PlacedMembers(t, sorted[1..], x);
      }
    }
  }

  /** Newest first; the order among tokens created at the same time is not promised. */
  function Newest(tokens: seq<Token>): (r: seq<Token>)
    ensures multiset(r) == multiset(tokens) && IsNewestFirst(r)
  {
    if tokens == [] then [] else
      assert tokens == [tokens[0]] + tokens[1..];
      PlacedIsSorted(tokens[0], Newest(tokens[1..]));
      Placed(tokens[0], Newest(tokens[1..]))
  }

  lemma PermutedSnapshot(a: seq<Token>, b: seq<Token>, s: Issued)
    requires IsSnapshot(a, s) && multiset(a) == multiset(b)
    ensures IsSnapshot(b, s)
  {
    assert |a| == |multiset(a)| == |multiset(b)| == |b|;
    assert forall t :: t in b <==> t in multiset(b);
    assert forall t :: t in a <==> t in multiset(a);
  }

  function Values(entries: seq<TokenEntry>): (r: seq<Token>)
    reads entries
    ensures |r| == |entries| && forall i :: 0 <= i < |r| ==> r[i] == entries[i].Value()
  {
    seq(|entries|, i requires 0 <= i < |entries| reads entries => entries[i].Value())
  }

  predicate HasExpired(e: TokenEntry, now: int)
  {
    e.expiresAt.Some? && e.expiresAt.value < now
  }

  type Entries = map<string, TokenEntry>

  ghost predicate IsKeyed(byID: Entries)
  {
    forall id :: id in byID ==> byID[id].id == id
  }

  /** The hash index is exactly the hash view of the id index, through the same objects. */
  ghost predicate IndexesAgree(byID: Entries, byHash: Entries)
  {
    && IsKeyed(byID)
    && (forall id :: id in byID ==> byID[id].hash in byHash && byHash[byID[id].hash] == byID[id])
    && (forall h :: h in byHash ==> byHash[h].hash == h && byHash[h].id in byID && byID[byHash[h].id] == byHash[h])
  }

  /** Neither key belongs to another stored token. */
  predicate IsUnclaimed(byID: Entries, byHash: Entries, id: string, hash: string)
  {
    && (id in byID ==> byID[id].hash == hash)
    && (hash in byHash ==> byHash[hash].id == id)
  }

  /** An entry put in both maps keeps them in agreement exactly when no other token claims
      either of its keys. */
  lemma InsertAgreesIff(byID: Entries, byHash: Entries, e: TokenEntry)
    requires IndexesAgree(byID, byHash)
    ensures IndexesAgree(byID[e.id := e], byHash[e.hash := e]) <==> IsUnclaimed(byID, byHash, e.id, e.hash)
  {
    if e.id in byID && byID[e.id].hash != e.hash {
      var o := byID[e.id];
      assert byHash[e.hash := e][o.hash] == o && byID[e.id := e][o.id] == e;
    }
    if e.hash in byHash && byHash[e.hash].id != e.id {
      var o := byHash[e.hash];
      assert byID[e.id := e][o.id] == o && byHash[e.hash := e][o.hash] == e;
    }
  }

  lemma AgreeIsKeyed(byID: Entries, byHash: Entries)
    requires IndexesAgree(byID, byHash)
    ensures IsKeyed(byID)
  {
  }

  lemma NothingAgrees()
    ensures IndexesAgree(map[], map[])
  {
  }

  lemma RemoveAgrees(byID: Entries, byHash: Entries, id: string)
    requires IndexesAgree(byID, byHash) && id in byID
    ensures IndexesAgree(byID - {id}, byHash - {byID[id].hash})
  {
  }

  /** Purging at one time changes no answer at that time or later. */
  lemma PurgeIsInvisible(s: Issued, now: int)
    ensures Agree(Purged(s, now), s, now)
  {
  }

  method Copies(tokens: seq<Token>) returns (entries: seq<TokenEntry>)
    ensures forall i :: 0 <= i < |entries| ==> fresh(entries[i])
    ensures Values(entries) == tokens
  {
    entries := [];
    for i := 0 to |tokens|
      invariant |entries| == i
      invariant forall j :: 0 <= j < i ==> fresh(entries[j]) && entries[j].Value() == tokens[j]
    {
      var cp := new TokenEntry(tokens[i]);
      entries := entries + [cp];
    }
  }

  class FileTokenStore {
    var byID: map<string, TokenEntry>
    var byHash: map<string, TokenEntry>
    const disk: Disk
    const path: string
    ghost var durable: Issued

    /** No map entry yet; `Load` fills the maps. */
    constructor (disk: Disk, path: string)
      ensures this.disk == disk && this.path == path && byID == map[] && byHash == map[] && durable == map[]
    {
      this.disk, this.path := disk, path;
      byID, byHash, durable := map[], map[], map[];
    }

    /** The tokens held in memory, as values. */
    ghost function Abs(): (s: Issued)
      reads this, byID.Values
    {
      map id | id in byID :: byID[id].Value()
    }

    /** The indexes agree, and the token file holds memory as of the last successful flush. */
    ghost predicate Inv()
      reads this, disk
    {
      IndexesAgree(byID, byHash) && Holds(disk.files, path, durable) && HashesDistinct(durable)
    }

    lemma TwoIndexDistinct()
      requires IndexesAgree(byID, byHash)
      ensures HashesDistinct(Abs())
    {
      forall a, b | a in byID && b in byID && byID[a].hash == byID[b].hash
        ensures a == b
      {
        assert byID[a] == byHash[byID[a].hash] == byID[b];
      }
    }

    predicate CanWrite(io: Io)
      reads this, disk
    {
      io.tmp !in disk.files && io.tmp != path
    }

    /** The values of the id index, in the arbitrary order of map iteration (141-145). */
    method Snapshot() returns (tokens: seq<Token>)
      requires IsKeyed(byID)
      ensures IsSnapshot(tokens, Abs())
    {
      tokens := [];
      var rest := byID.Keys;
      while rest != {}
        invariant rest <= byID.Keys && |tokens| + |rest| == |byID|
        invariant forall t :: t in tokens ==> t.id in byID && t.id !in rest && byID[t.id].Value() == t
        invariant forall id :: id in byID && id !in rest ==> byID[id].Value() in tokens
        decreases |rest|
      {
        var id :| id in rest;
        tokens := tokens + [byID[id].Value()];
        rest := rest - {id};
      }
      assert Abs().Keys == byID.Keys;
      assert |Abs()| == |Abs().Keys|;
    }

    /** The second half of `flush` (147-186): s is what the tokens list. */
    method WriteTokens(tokens: seq<Token>, ghost s: Issued, io: Io) returns (ok: bool)
      requires IsSnapshot(tokens, s) && CanWrite(io) && Holds(disk.files, path, durable)
      modifies disk, this`durable
      ensures ok <==> io.fault.NoFault?
      ensures Flushed(old(disk.files), old(disk.history), old(durable), io, s)
    {
      hide Holds, IsSnapshot, CrashSafe;
      ghost var files := disk.files;
      if io.fault.EncryptFails? {
        NothingHappened(disk.history, path, durable, s);
        return false;
      }
      ok := disk.Replace(path, tokens, io);
      ReplacedHolds(files, path, tokens, s);
      EveryMomentHolds(disk.history, |old(disk.history)|, io.tmp, path, files, tokens, durable, s);
      if ok {
        durable := s;
      }
    }

    /** `flush` (140-187). The token file is replaced in one step or not at all. */
    method Flush(io: Io) returns (ok: bool)
      requires IsKeyed(byID) && CanWrite(io) && Holds(disk.files, path, durable)
      modifies disk, this`durable
      ensures ok <==> io.fault.NoFault?
      ensures Committed(old(disk.files), old(disk.history), old(durable), io, old(Abs()))
    {
      hide Holds, IsSnapshot, Flushed, IsKeyed;
      var tokens := Snapshot();
      ok := WriteTokens(tokens, Abs(), io);
    }

    /** A copy of the token enters both maps as one object. */
    method Insert(t: Token)
      modifies this`byID, this`byHash
      ensures t.id in byID && fresh(byID[t.id]) && byID[t.id].Value() == t
      ensures byID == old(byID)[t.id := byID[t.id]] && byHash == old(byHash)[t.hash := byID[t.id]]
    {
      var cp := new TokenEntry(t);
      byID := byID[t.id := cp];
      byHash := byHash[t.hash := cp];
    }

    /** What one mutation leaves behind, given the disk and the durable set before it: memory as
        `after`; the disk durable as memory after a successful flush and as before otherwise;
        every moment in between crash-safe. */
    ghost predicate Committed(files: Files, history: seq<Files>, before: Issued, io: Io, after: Issued)
      reads this, byID.Values, disk
    {
      Abs() == after && Flushed(files, history, before, io, after)
    }

    ghost predicate Flushed(files: Files, history: seq<Files>, before: Issued, io: Io, after: Issued)
      reads this, disk
    {
      && durable == (if io.fault.NoFault? then after else before)
      && Holds(disk.files, path, durable)
      && disk.files - {path} == files - {path}
      && history <= disk.history
      && CrashSafe(disk.history, |history|, path, before, after)
    }

    /** `Save` (273-285) copies its argument. Both indexes still agree exactly when no other
        token claims the identifier or the hash. */
    method Save(entry: TokenEntry, io: Io) returns (ok: bool)
      requires Inv() && CanWrite(io)
      modifies this, disk
      ensures ok <==> io.fault.NoFault?
      ensures Committed(old(disk.files), old(disk.history), old(durable), io, old(Abs())[entry.id := entry.Value()])
      ensures Inv() <==> old(IsUnclaimed(byID, byHash, entry.id, entry.hash))
      ensures entry.id in byID && fresh(byID[entry.id])
      ensures byID == old(byID)[entry.id := byID[entry.id]] && byHash == old(byHash)[entry.hash := byID[entry.id]]
    {
      hide Holds, CrashSafe, HashesDistinct, IndexesAgree, IsUnclaimed;
      ghost var before := Abs();
      AgreeIsKeyed(byID, byHash);
      Insert(entry.Value());
      assert Abs() == before[entry.id := entry.Value()];
      InsertAgreesIff(old(byID), old(byHash), byID[entry.id]);
      if IndexesAgree(byID, byHash) {
        TwoIndexDistinct();
      }
      ok := Flush(io);
    }

    /** `GetByHash` (288-298): the stored token with the hash, as a copy the store does not keep. */
    method GetByHash(hash: string) returns (r: Option<TokenEntry>)
      requires IndexesAgree(byID, byHash)
      ensures r.Some? <==> exists id :: id in Abs() && Abs()[id].hash == hash
      ensures r.Some? ==> fresh(r.value) && r.value.id in Abs() && r.value.Value() == Abs()[r.value.id] && r.value.hash == hash
    {
      if hash !in byHash {
        return None;
      }
      ghost var id := byHash[hash].id;
      var cp := new TokenEntry(byHash[hash].Value());
      assert id in Abs() && Abs()[id].hash == hash;
      return Some(cp);
    }

    /** The check of the middleware (auth-manager.go:143-155). */
    method Authenticate(hash: string, now: int) returns (ok: bool)
      requires IndexesAgree(byID, byHash)
      ensures ok <==> Accepts(Abs(), hash, now)
      ensures ok <==> exists id :: id in Abs() && Abs()[id].hash == hash && Abs()[id].revokedAt == None
                                   && (Abs()[id].expiresAt == None || now <= Abs()[id].expiresAt.value)
    {
      TwoIndexDistinct();
      var e := GetByHash(hash);
      ok := e.Some? && Tokens.IsValid(e.value.Value(), now);
    }

    /** `List` (301-314): every stored token once, newest first, as copies. */
    method List() returns (entries: seq<TokenEntry>)
      requires IsKeyed(byID)
      ensures forall i :: 0 <= i < |entries| ==> fresh(entries[i])
      ensures IsSnapshot(Values(entries), Abs()) && IsNewestFirst(Values(entries))
    {
      hide IsSnapshot, IsNewestFirst;
      var tokens := Snapshot();
      var sorted := Newest(tokens);
      PermutedSnapshot(tokens, sorted, Abs());
      entries := Copies(sorted);
    }

    /** `Revoke` (321-337) writes through the id index; the hash index shows it too. */
    method Revoke(id: string, now: int, io: Io) returns (ok: bool)
      requires Inv() && CanWrite(io)
      modifies this`durable, disk, if id in byID then {byID[id]} else {}
      ensures Inv()
      ensures ok <==> id in old(byID)
      ensures if ok then Committed(old(disk.files), old(disk.history), old(durable), io, Revoked(old(Abs()), id, now))
              else unchanged(this) && unchanged(disk)
    {
      if id !in byID {
        return false;
      }
      hide Holds, CrashSafe, HashesDistinct, IndexesAgree;
      AgreeIsKeyed(byID, byHash);
      ghost var before := Abs();
      byID[id].revokedAt := Some(now);
      assert Abs() == Revoked(before, id, now);
      var _ := Flush(io);
      TwoIndexDistinct();
      ok := true;
    }

    /** `Delete` (341-356). */
    method Delete(id: string, io: Io) returns (ok: bool)
      requires Inv() && CanWrite(io)
      modifies this, disk
      ensures Inv()
      ensures ok <==> id in old(byID)
      ensures if ok then byID == old(byID) - {id} && Committed(old(disk.files), old(disk.history), old(durable), io, old(Abs()) - {id})
              else unchanged(this) && unchanged(disk)
    {
      if id !in byID {
        return false;
      }
      hide Holds, CrashSafe, HashesDistinct, IndexesAgree;
      ghost var before := Abs();
      RemoveAgrees(byID, byHash, id);
      AgreeIsKeyed(byID - {id}, byHash - {byID[id].hash});
      var hash := byID[id].hash;
      byID := byID - {id};
      byHash := byHash - {hash};
      assert Abs() == before - {id};
      var _ := Flush(io);
      TwoIndexDistinct();
      ok := true;
    }

    /** The loop of `purgeExpired` (245-252), in any order. */
    method DropExpired(now: int) returns (removed: bool)
      requires IndexesAgree(byID, byHash)
      modifies this`byID, this`byHash
      ensures IndexesAgree(byID, byHash)
      ensures byID == map id | id in old(byID) && !HasExpired(old(byID)[id], now) :: old(byID)[id]
      ensures removed <==> exists id :: id in old(byID) && HasExpired(old(byID)[id], now)
      ensures !removed ==> byID == old(byID) && byHash == old(byHash)
    {
      hide IndexesAgree;
      var rest := byID.Keys;
      removed := false;
      while rest != {}
        invariant rest <= byID.Keys && IndexesAgree(byID, byHash)
        invariant forall id :: id in byID ==> id in old(byID) && byID[id] == old(byID)[id]
        invariant forall id :: id in old(byID) && id !in byID ==> HasExpired(old(byID)[id], now)
        invariant forall id :: id in byID && id !in rest ==> !HasExpired(byID[id], now)
        invariant removed <==> exists id :: id in old(byID) && id !in byID
        invariant !removed ==> byHash == old(byHash)
        decreases |rest|
      {
        var id :| id in rest;
        if HasExpired(byID[id], now) {
          RemoveAgrees(byID, byHash, id);
          byHash := byHash - {byID[id].hash};
          byID := byID - {id};
          removed := true;
        }
        rest := rest - {id};
      }
    }

    /** `purgeExpired` (240-259) drops the expired entries and flushes if there were any. */
    method PurgeExpired(now: int, io: Io)
      requires Inv() && CanWrite(io)
      modifies this, disk
      ensures Inv()
      ensures forall id :: id in byID <==> id in old(byID) && (old(byID)[id].expiresAt == None || now <= old(byID)[id].expiresAt.value)
      ensures forall id :: id in byID ==> byID[id] == old(byID)[id]
      ensures if AnyExpired(old(Abs()), now) then Committed(old(disk.files), old(disk.history), old(durable), io, Purged(old(Abs()), now))
              else unchanged(this) && unchanged(disk)
    {
      hide Holds, CrashSafe, HashesDistinct, IndexesAgree;
      ghost var before := Abs();
      assert forall id :: id in byID ==> id in before && (HasExpired(byID[id], now) <==> IsExpired(before[id], now));
      var removed := DropExpired(now);
      assert removed <==> AnyExpired(before, now);
      AgreeIsKeyed(byID, byHash);
      if removed {
        assert Abs() == Purged(before, now);
        var _ := Flush(io);
        TwoIndexDistinct();
      }
    }

    /** `load` (109-134): later entries win in both maps. `expected` is any set the file holds. */
    method Load(ghost expected: Issued) returns (ok: bool)
      requires byID == map[] && byHash == map[]
      modifies this
      ensures ok <==> path !in disk.files || disk.files[path].data.Whole?
      ensures forall id :: id in byID ==> fresh(byID[id])
      ensures forall h :: h in byHash ==> fresh(byHash[h])
      ensures Holds(disk.files, path, expected) ==>
                Abs() == expected && durable == expected && (Inv() <==> HashesDistinct(expected))
    {
      durable := expected;
      if path !in disk.files {
        return true;
      }
      if disk.files[path].data.Torn? {
        return false;
      }
      LoadTokens(disk.files[path].data.tokens, expected);
      if Inv() {
        TwoIndexDistinct();
      }
      ok := true;
    }

    method LoadTokens(tokens: seq<Token>, ghost expected: Issued)
      requires byID == map[] && byHash == map[]
      modifies this`byID, this`byHash
      ensures forall id :: id in byID ==> fresh(byID[id])
      ensures forall h :: h in byHash ==> fresh(byHash[h])
      ensures IsSnapshot(tokens, expected) ==> Abs() == expected && (IndexesAgree(byID, byHash) <==> HashesDistinct(expected))
    {
      hide IndexesAgree, HashesDistinct, IsUnclaimed;
      ghost var good := IsSnapshot(tokens, expected);
      ghost var distinct := good && HashesDistinct(expected);
      NothingAgrees();
      for i := 0 to |tokens|
        invariant forall id :: id in byID ==> fresh(byID[id])
        invariant forall h :: h in byHash ==> fresh(byHash[h])
        invariant forall j :: 0 <= j < i ==> tokens[j].id in byID
        invariant good ==> forall id :: id in byID ==> id in expected && byID[id].Value() == expected[id]
        invariant distinct ==> IndexesAgree(byID, byHash)
      {
        assert tokens[i] in tokens;
        ghost var ids, hashes := byID, byHash;
        if distinct {
          LoadedUnclaimed(tokens[i], expected);
        }
        Insert(tokens[i]);
        if distinct {
          InsertAgreesIff(ids, hashes, byID[tokens[i].id]);
        }
      }
      if good {
        LoadedAll(tokens, expected);
        if IndexesAgree(byID, byHash) {
          TwoIndexDistinct();
        }
      }
    }

    lemma LoadedUnclaimed(t: Token, expected: Issued)
      requires IndexesAgree(byID, byHash) && HashesDistinct(expected) && t.id in expected && expected[t.id] == t
      requires forall id :: id in byID ==> id in expected && byID[id].Value() == expected[id]
      ensures IsUnclaimed(byID, byHash, t.id, t.hash)
    {
    }

    lemma LoadedAll(tokens: seq<Token>, expected: Issued)
      requires IsSnapshot(tokens, expected)
      requires forall j :: 0 <= j < |tokens| ==> tokens[j].id in byID
      requires forall id :: id in byID ==> id in expected && byID[id].Value() == expected[id]
      ensures Abs() == expected
    {
      forall id | id in expected
        ensures id in byID
      {
        assert expected[id] in tokens;
        var j :| 0 <= j < |tokens| && tokens[j] == expected[id];
        assert tokens[j] in tokens;
        assert tokens[j].id in byID;
      }
    }
  }

  lemma NothingHappened(history: seq<Files>, path: string, before: Issued, after: Issued)
    ensures CrashSafe(history, |history|, path, before, after)
  {
  }

  lemma ReplacedHolds(files: Files, path: string, tokens: seq<Token>, s: Issued)
    requires IsSnapshot(tokens, s)
    ensures Holds(files[path := Blob(Whole(tokens), true)], path, s)
  {
    hide IsSnapshot;
  }

  lemma EveryMomentHolds(history: seq<Files>, start: nat, tmp: string, path: string, files: Files, tokens: seq<Token>, before: Issued, after: Issued)
    requires tmp != path && Holds(files, path, before) && IsSnapshot(tokens, after)
    requires forall i :: start <= i < |history| ==> history[i] - {tmp} in {files, files[path := Blob(Whole(tokens), true)]}
    ensures CrashSafe(history, start, path, before, after)
  {
    hide IsSnapshot, Holds;
    ReplacedHolds(files, path, tokens, after);
    forall i | start <= i < |history|
      ensures Holds(history[i], path, before) || Holds(history[i], path, after)
    {
      OtherFileIgnored(history[i], tmp, path, before);
      OtherFileIgnored(history[i], tmp, path, after);
    }
  }

  lemma OtherFileIgnored(files: Files, tmp: string, path: string, s: Issued)
    requires tmp != path
    ensures Holds(files - {tmp}, path, s) <==> Holds(files, path, s)
  {
    hide IsSnapshot;
  }

  /** `NewFileTokenStore` (67-89) on whatever is on disk. A file that holds a set of tokens with
      distinct hashes is read back as that set, with both indexes in agreement. */
  method Open(files: Files, path: string, ghost expected: Issued) returns (store: FileTokenStore, ok: bool)
    ensures fresh(store) && fresh(store.disk) && store.disk.files == files && store.path == path
    ensures ok <==> path !in files || files[path].data.Whole?
    ensures Holds(files, path, expected) ==>
              store.Abs() == expected && store.durable == expected && (store.Inv() <==> HashesDistinct(expected))
  {
    var disk := new Disk(files);
    store := new FileTokenStore(disk, path);
    ok := store.Load(expected);
  }
}
