/** Both token stores against the one specification: every run of saves, revocations, deletions,
    lookups, purges and passing time, without a restart, is indistinguishable to authentication
    (internal/auth/file-token-store.go, redis-token-store.go, auth-manager.go). */
module TokenStores {
  import opened Semver
  import opened Tokens
  import opened RedisTokens
  import File = FileTokens

  datatype Event = Issue(token: Token) | Revocation(id: string) | Deletion(id: string) | Lookup(hash: string) | Purge | Wait(ticks: nat)

  /** The tokens stored, every token ever issued, and the time. */
  datatype State = State(tokens: Issued, ever: Issued, now: int)

  /** The specification; a token that is not fresh is never issued. */
  function SpecStep(st: State, e: Event): State
  {
    match e
    case Issue(t) =>
      if IsFresh(st.ever, st.now, t) then st.(tokens := st.tokens[t.id := t], ever := st.ever[t.id := t]) else st
    case Revocation(id) => st.(tokens := Revoked(st.tokens, id, st.now))
    case Deletion(id) => st.(tokens := st.tokens - {id})
    case Lookup(_) => st
    case Purge => st
    case Wait(ticks) => st.(now := st.now + ticks)
  }

  /** The file store forgets expired tokens at a purge. */
  function FileStep(st: State, e: Event): State
  {
    if e.Purge? then st.(tokens := File.Purged(st.tokens, st.now)) else SpecStep(st, e)
  }

  function SpecRun(st: State, events: seq<Event>): State
    decreases |events|
  {
    if events == [] then st else SpecStep(SpecRun(st, events[..|events| - 1]), events[|events| - 1])
  }

  function FileRun(st: State, events: seq<Event>): State
    decreases |events|
  {
    if events == [] then st else FileStep(FileRun(st, events[..|events| - 1]), events[|events| - 1])
  }

  /** One operation runs to completion: the client begins and issues its commands. */
  function Commands(w: World, i: nat, count: nat): World
    decreases count
  {
    if count == 0 then w else Commands(Apply(w, Advance(i, "")), i, count - 1)
  }

  function Complete(w: World, op: Op, count: nat): World
  {
    Commands(Apply(w, Begin(op)), |w.clients|, count)
  }

  function RedisStep(w: World, e: Event): World
  {
    match e
    case Issue(t) => Complete(w, Save(t), 3)
    case Revocation(id) => Complete(w, Revoke(id), 2)
    case Deletion(id) => Complete(w, Delete(id), 4)
    case Lookup(hash) => Complete(w, GetByHash(hash), 3)
    case Purge => w
    case Wait(ticks) => Apply(w, Tick(ticks))
  }

  function RedisRun(w: World, events: seq<Event>): World
    decreases |events|
  {
    if events == [] then w else RedisStep(RedisRun(w, events[..|events| - 1]), events[|events| - 1])
  }

  // ---------------------------------------------------------------- the file store

  ghost predicate IsBooked(st: State)
  {
    forall id :: id in st.tokens ==> id in st.ever && st.tokens[id].id == id && st.tokens[id].hash == st.ever[id].hash
  }

  lemma FileStepBooked(st: State, e: Event)
    requires IsBooked(st)
    ensures IsBooked(FileStep(st, e))
  {
  }

  lemma FileRunExtends(st: State, events: seq<Event>, i: nat)
    requires i < |events|
    ensures FileRun(st, events[..i + 1]) == FileStep(FileRun(st, events[..i]), events[i])
  {
    assert events[..i + 1][..i] == events[..i];
  }

  /** The file store driven through a run of events, with any flush failing in any way: its
      memory is the run of the specification that forgets at each purge. */
  method DriveFile(store: File.FileTokenStore, events: seq<Event>, faults: seq<File.Fault>, tmp: string, start: int)
    requires store.Inv() && store.byID == map[] && |faults| == |events|
    requires tmp !in store.disk.files && tmp != store.path
    modifies store, store.disk
    ensures store.Inv()
    ensures store.Abs() == FileRun(State(map[], map[], start), events).tokens
  {
    hide FileRun, FileStep, IsBooked;
    var st := State(map[], map[], start);
    assert IsBooked(st) by { NothingBooked(start); }
    assert events[..0] == [];
    assert FileRun(State(map[], map[], start), []) == st by { NoRun(st); }
    for i := 0 to |events|
      invariant store.Inv() && store.Abs() == st.tokens && IsBooked(st)
      invariant st == FileRun(State(map[], map[], start), events[..i])
      invariant forall id :: id in store.byID ==> fresh(store.byID[id])
      invariant tmp !in store.disk.files
    {
      FileRunExtends(State(map[], map[], start), events, i);
      FileStepBooked(st, events[i]);
      DriveOne(store, st, events[i], File.Io(tmp, faults[i]));
      st := FileStep(st, events[i]);
    }
    assert events[..|events|] == events;
  }

  lemma NothingBooked(start: int)
    ensures IsBooked(State(map[], map[], start))
  {
  }

  lemma NoRun(st: State)
    ensures FileRun(st, []) == st
  {
  }

  method DriveOne(store: File.FileTokenStore, st: State, e: Event, io: File.Io)
    requires store.Inv() && store.Abs() == st.tokens && IsBooked(st) && store.CanWrite(io)
    modifies store, store.disk, store.byID.Values
    ensures store.Inv() && store.Abs() == FileStep(st, e).tokens
    ensures store.CanWrite(io)
    ensures forall id :: id in store.byID ==> fresh(store.byID[id]) || (id in old(store.byID) && store.byID[id] == old(store.byID)[id])
  {
    hide File.Holds, File.CrashSafe, File.IndexesAgree, File.HashesDistinct, File.IsUnclaimed, IsBooked, IsFresh;
    ghost var files := store.disk.files;
    match e {
    case Issue(t) =>
      if IsFresh(st.ever, st.now, t) {
        FreshIsUnclaimed(store, st, t);
        var entry := new File.TokenEntry(t);
        var _ := store.Save(entry, io);
      }
    case Revocation(id) =>
      var _ := store.Revoke(id, st.now, io);
    case Deletion(id) =>
      var _ := store.Delete(id, io);
    case Lookup(hash) =>
      var _ := store.GetByHash(hash);
    case Purge =>
      store.PurgeExpired(st.now, io);
    case Wait(_) =>
    }
    StillAbsent(files, store.disk.files, store.path, io.tmp);
  }

  lemma StillAbsent(before: File.Files, after: File.Files, path: string, tmp: string)
    requires after - {path} == before - {path} && tmp !in before && tmp != path
    ensures tmp !in after
  {
    assert tmp !in before - {path};
  }

  lemma FreshIsUnclaimed(store: File.FileTokenStore, st: State, t: Token)
    requires store.Inv() && store.Abs() == st.tokens && IsBooked(st) && IsFresh(st.ever, st.now, t)
    ensures File.IsUnclaimed(store.byID, store.byHash, t.id, t.hash)
  {
    assert t.id !in store.Abs();
    forall h | h in store.byHash
      ensures h != t.hash
    {
      var id := store.byHash[h].id;
      assert id in store.Abs() && store.Abs()[id].hash == h;
    }
  }

  // ---------------------------------------------------------------- the Redis store

  /** Every save that wrote its token key also wrote its hash key. */
  ghost predicate IsQuiet(w: World)
  {
    Inv(w) && w.s.written == w.s.hashed
  }

  /** The Redis store has issued what the specification has, and holds the same unexpired tokens. */
  ghost predicate Matches(w: World, st: State)
  {
    w.s.begun == st.ever && w.s.db.now == st.now && Agree(w.s.spec, st.tokens, st.now)
  }

  lemma {:induction false} CommandsInv(w: World, i: nat, count: nat)
    requires Inv(w)
    ensures Inv(Commands(w, i, count))
    decreases count
  {
    hide Inv, Apply;
    if count > 0 {
      ApplyOk(w, Advance(i, ""));
      CommandsInv(Apply(w, Advance(i, "")), i, count - 1);
    }
  }

  lemma CompleteInv(w: World, op: Op, count: nat)
    requires Inv(w)
    ensures Inv(Complete(w, op, count))
  {
    hide Inv, Apply, Commands;
    ApplyOk(w, Begin(op));
    CommandsInv(Apply(w, Begin(op)), |w.clients|, count);
  }

  /** The commands of one client running alone. */
  function Chain(s: Store, c: Client, count: nat): (Store, Client)
    decreases count
  {
    if count == 0 then (s, c)
    else
      var (v, d) := Command(s, c, "");
      Chain(v, d, count - 1)
  }

  lemma {:induction false} CommandsAreChain(w: World, i: nat, count: nat)
    requires i < |w.clients|
    ensures Commands(w, i, count).s == Chain(w.s, w.clients[i], count).0
    decreases count
  {
    hide Command;
    if count > 0 {
      CommandsAreChain(Apply(w, Advance(i, "")), i, count - 1);
    }
  }

  lemma CompleteIsChain(w: World, op: Op, count: nat, c: Client)
    requires Apply(w, Begin(op)).clients == w.clients + [c]
    ensures Complete(w, op, count).s == Chain(Apply(w, Begin(op)).s, c, count).0
  {
    CommandsAreChain(Apply(w, Begin(op)), |w.clients|, count);
  }

  /** Nothing is left to do: a chain of a finished client changes nothing. */
  lemma {:induction false} FinishedChain(s: Store, count: nat)
    ensures Chain(s, Finished, count) == (s, Finished)
    decreases count
  {
    if count > 0 {
      FinishedChain(s, count - 1);
    }
  }

  /** What the relation to the specification reads of a store. */
  ghost predicate SameBooks(s: Store, v: Store)
  {
    s.begun == v.begun && s.written == v.written && s.hashed == v.hashed && s.db.now == v.db.now
  }

  lemma SaveChain(s: Store, t: Token, ttl: Option<int>)
    requires ttl.Some? ==> ttl.value > 0
    ensures var v := Chain(s, Saving(t, ttl, SettingToken), 3).0;
            && v.begun == s.begun && v.db.now == s.db.now && v.spec == s.spec[t.id := t]
            && v.written == s.written + {t.id} && v.hashed == s.hashed + {t.id}
  {
    var a := TokenSet(s, t, ttl);
    var b := HashSet(a, t, ttl);
    var c := Indexed(b, t.id);
    FinishedChain(c, 0);
    assert Chain(b, Saving(t, ttl, Indexing), 1) == Chain(c, Finished, 0);
    assert Chain(a, Saving(t, ttl, SettingHash), 2) == Chain(b, Saving(t, ttl, Indexing), 1);
    assert Chain(s, Saving(t, ttl, SettingToken), 3) == Chain(a, Saving(t, ttl, SettingHash), 2);
    assert GetToken(a.db, t.id) == Some(t);
  }

  lemma RevokeChain(s: Store, id: string)
    ensures var v := Chain(s, Revoking(id), 2).0; var t := GetToken(s.db, id);
            && SameBooks(s, v)
            && v.spec == if t.Some? && id in s.spec then s.spec[id := t.value.(revokedAt := Some(s.db.now))] else s.spec
  {
    var t := GetToken(s.db, id);
    if t.None? {
      FinishedChain(s, 1);
    } else {
      var payload := t.value.(revokedAt := Some(s.db.now));
      assert Chain(s, Revoking(id), 2) == Chain(s, RevokeWriting(id, payload), 1);
      FinishedChain(Rewritten(s, id, payload), 0);
    }
  }

  lemma DeleteChain(s: Store, id: string)
    ensures var v := Chain(s, Deleting(id), 4).0;
            SameBooks(s, v) && v.spec == if GetToken(s.db, id).Some? then s.spec - {id} else s.spec
  {
    hide GetToken;
    var t := GetToken(s.db, id);
    if t.None? {
      FinishedChain(s, 3);
    } else {
      var a := WithoutToken(s, id);
      var b := WithoutHash(a, t.value.hash);
      FinishedChain(Unindexed(b, id), 0);
      assert Chain(s, Deleting(id), 4) == Chain(s, DeletingToken(id, t.value.hash), 3);
      assert Chain(s, DeletingToken(id, t.value.hash), 3) == Chain(a, DeletingHash(id, t.value.hash), 2);
      assert Chain(a, DeletingHash(id, t.value.hash), 2) == Chain(b, DeletingIndex(id), 1);
      assert Chain(b, DeletingIndex(id), 1) == Chain(Unindexed(b, id), Finished, 0);
    }
  }

  lemma LookupChain(s: Store, hash: string)
    ensures var v := Chain(s, Looking(hash), 3).0; SameBooks(s, v) && v.spec == s.spec
  {
    hide GetToken, GetHash;
    var id := GetHash(s.db, hash);
    if id.None? {
      FinishedChain(s, 2);
    } else if GetToken(s.db, id.value).Some? {
      FinishedChain(s, 1);
    } else {
      FinishedChain(Unindexed(s, id.value), 0);
      assert Chain(s, Looking(hash), 3) == Chain(s, LookingToken(hash, id.value), 2);
      assert Chain(s, LookingToken(hash, id.value), 2) == Chain(s, Pruning(id.value), 1);
    }
  }

  // ---------------------------------------------------------------- the simulation

  /** The specification respects agreement. */
  lemma SpecStepAgrees(a: State, b: State, e: Event)
    requires a.ever == b.ever && a.now == b.now && Agree(a.tokens, b.tokens, a.now)
    ensures var v, w := SpecStep(a, e), SpecStep(b, e); v.ever == w.ever && v.now == w.now && Agree(v.tokens, w.tokens, v.now)
  {
    hide IsFresh;
    if e.Wait? {
      AgreeLater(a.tokens, b.tokens, a.now, a.now + e.ticks);
    }
  }

  /** An unexpired token of the abstract set is alive, and a living one is in the set. */
  lemma AliveIffInSpec(s: Store, id: string)
    requires StoreOk(s) && s.written == s.hashed
    ensures id in s.spec && !IsExpired(s.spec[id], s.db.now) ==> GetToken(s.db, id).Some?
    ensures GetToken(s.db, id).Some? ==> id in s.spec && SameToken(GetToken(s.db, id).value, s.spec[id])
  {
    hide HashKeysOk, IndexOk, RevokedOk, GetHash;
    if id in s.spec && !IsExpired(s.spec[id], s.db.now) {
      assert Findable(s, id);
    }
  }

  /** One Redis operation does to the abstract set what the specification does, up to tokens
      that have expired. */
  lemma RedisStepIsSpec(w: World, e: Event)
    requires IsQuiet(w)
    ensures IsQuiet(RedisStep(w, e))
    ensures var st := State(w.s.spec, w.s.begun, w.s.db.now); Matches(RedisStep(w, e), SpecStep(st, e))
  {
    hide StoreOk, ClientsOk, Chain, Commands, IsFresh, IsLive;
    match e
    case Issue(t) => IssueIsSpec(w, t);
    case Revocation(id) => RevocationIsSpec(w, id);
    case Deletion(id) => DeletionIsSpec(w, id);
    case Lookup(hash) =>
      CompleteInv(w, GetByHash(hash), 3);
      CompleteIsChain(w, GetByHash(hash), 3, Looking(hash));
      LookupChain(w.s, hash);
    case Purge =>
    case Wait(ticks) => ApplyOk(w, Tick(ticks));
  }

  lemma IssueIsSpec(w: World, t: Token)
    requires IsQuiet(w)
    ensures IsQuiet(RedisStep(w, Issue(t)))
    ensures var st := State(w.s.spec, w.s.begun, w.s.db.now); Matches(RedisStep(w, Issue(t)), SpecStep(st, Issue(t)))
  {
    hide StoreOk, ClientsOk, Chain, Commands, IsFresh, IsLive;
    CompleteInv(w, Save(t), 3);
    if CanBegin(w.s, t) {
      var ttl := if t.expiresAt.Some? then Some(t.expiresAt.value - w.s.db.now) else None;
      FreshTtl(w.s, t);
      CompleteIsChain(w, Save(t), 3, Saving(t, ttl, SettingToken));
      SaveChain(Begun(w.s, t), t, ttl);
    } else {
      NoClient(w, 3);
    }
  }

  lemma FreshTtl(s: Store, t: Token)
    requires CanBegin(s, t)
    ensures t.expiresAt.Some? ==> t.expiresAt.value - s.db.now > 0
  {
  }

  /** Advancing a client that was never started does nothing. */
  lemma {:induction false} NoClient(w: World, count: nat)
    ensures Commands(w, |w.clients|, count) == w
    decreases count
  {
    if count > 0 {
      NoClient(w, count - 1);
    }
  }

  /** Revoking what is alive does what revoking every stored token does. */
  lemma RevokedAgrees(spec: Issued, seen: Option<Token>, id: string, now: int)
    requires id in spec && !IsExpired(spec[id], now) ==> seen.Some?
    requires seen.Some? ==> id in spec && SameToken(seen.value, spec[id])
    ensures Agree(if seen.Some? && id in spec then spec[id := seen.value.(revokedAt := Some(now))] else spec, Revoked(spec, id, now), now)
  {
  }

  lemma DeletedAgrees(spec: Issued, alive: bool, id: string, now: int)
    requires id in spec && !IsExpired(spec[id], now) ==> alive
    ensures Agree(if alive then spec - {id} else spec, spec - {id}, now)
  {
  }

  lemma RevocationIsSpec(w: World, id: string)
    requires IsQuiet(w)
    ensures IsQuiet(RedisStep(w, Revocation(id)))
    ensures var st := State(w.s.spec, w.s.begun, w.s.db.now); Matches(RedisStep(w, Revocation(id)), SpecStep(st, Revocation(id)))
  {
    hide StoreOk, ClientsOk, Chain, Commands, IsLive, GetToken, RevokeScript, Agree, Revoked, IsExpired, SameToken;
    CompleteInv(w, Revoke(id), 2);
    CompleteIsChain(w, Revoke(id), 2, Revoking(id));
    RevokeChain(w.s, id);
    AliveIffInSpec(w.s, id);
    RevokedAgrees(w.s.spec, GetToken(w.s.db, id), id, w.s.db.now);
  }

  lemma DeletionIsSpec(w: World, id: string)
    requires IsQuiet(w)
    ensures IsQuiet(RedisStep(w, Deletion(id)))
    ensures var st := State(w.s.spec, w.s.begun, w.s.db.now); Matches(RedisStep(w, Deletion(id)), SpecStep(st, Deletion(id)))
  {
    hide StoreOk, ClientsOk, Chain, Commands, IsLive, GetToken, Agree, IsExpired, SameToken;
    CompleteInv(w, Delete(id), 4);
    CompleteIsChain(w, Delete(id), 4, Deleting(id));
    DeleteChain(w.s, id);
    AliveIffInSpec(w.s, id);
    DeletedAgrees(w.s.spec, GetToken(w.s.db, id).Some?, id, w.s.db.now);
  }

  lemma RedisStepMatches(w: World, st: State, e: Event)
    requires IsQuiet(w) && Matches(w, st)
    ensures IsQuiet(RedisStep(w, e)) && Matches(RedisStep(w, e), SpecStep(st, e))
  {
    hide IsQuiet, RedisStep, SpecStep, Agree;
    var mine := State(w.s.spec, w.s.begun, w.s.db.now);
    RedisStepIsSpec(w, e);
    SpecStepAgrees(mine, st, e);
    AgreeTransitive(RedisStep(w, e).s.spec, SpecStep(mine, e).tokens, SpecStep(st, e).tokens, SpecStep(st, e).now);
  }

  lemma {:induction false} RedisRunMatches(w: World, st: State, events: seq<Event>)
    requires IsQuiet(w) && Matches(w, st)
    ensures IsQuiet(RedisRun(w, events)) && Matches(RedisRun(w, events), SpecRun(st, events))
    decreases |events|
  {
    hide IsQuiet, Matches, RedisStep, SpecStep;
    if events != [] {
      var before := events[..|events| - 1];
      RedisRunMatches(w, st, before);
      RedisStepMatches(RedisRun(w, before), SpecRun(st, before), events[|events| - 1]);
    }
  }

  lemma {:induction false} FileRunMatches(a: State, b: State, events: seq<Event>)
    requires a.ever == b.ever && a.now == b.now && Agree(a.tokens, b.tokens, a.now)
    ensures var v, w := FileRun(a, events), SpecRun(b, events); v.ever == w.ever && v.now == w.now && Agree(v.tokens, w.tokens, v.now)
    decreases |events|
  {
    hide SpecStep, Agree;
    if events != [] {
      var before, e := events[..|events| - 1], events[|events| - 1];
      FileRunMatches(a, b, before);
      var v, w := FileRun(a, before), SpecRun(b, before);
      if e.Purge? {
        File.PurgeIsInvisible(v.tokens, v.now);
        AgreeTransitive(File.Purged(v.tokens, v.now), v.tokens, w.tokens, v.now);
        PurgeIsNothing(w, e);
      } else {
        SpecStepAgrees(v, w, e);
      }
    }
  }

  lemma PurgeIsNothing(st: State, e: Event)
    requires e.Purge?
    ensures SpecStep(st, e) == st
  {
  }

  /** Authentication against Redis: both reads now, the validity check now or later. */
  predicate RedisAccepts(db: Db, hash: string, later: int)
  {
    var id := GetHash(db, hash);
    id.Some? && var t := GetToken(db, id.value); t.Some? && Tokens.IsValid(t.value, later)
  }

  lemma RedisAcceptsIsSpec(s: Store, hash: string, later: int)
    requires StoreOk(s) && later >= s.db.now
    ensures RedisAccepts(s.db, hash, later) == Accepts(s.spec, hash, later)
  {
    HashReadKnows(s, hash);
    var id := GetHash(s.db, hash);
    if id.None? {
      DecidingReadIsExact(s, Looking(hash), later);
    } else {
      DecidingReadIsExact(s, LookingToken(hash, id.value), later);
    }
    hide StoreOk, GetHash, GetToken, Accepts;
  }

  /** After every run of events from empty stores, and at any later time, both stores accept
      exactly the hashes the set of issued tokens accepts. */
  lemma StoresAreIndistinguishable(start: int, events: seq<Event>, hash: string, later: int)
    requires later >= SpecRun(State(map[], map[], start), events).now
    ensures var none := State(map[], map[], start);
            && Accepts(FileRun(none, events).tokens, hash, later) == Accepts(SpecRun(none, events).tokens, hash, later)
            && RedisAccepts(RedisRun(Empty(start), events).s.db, hash, later) == Accepts(SpecRun(none, events).tokens, hash, later)
  {
    hide SpecRun, FileRun, RedisRun, RedisAccepts, Accepts, StoreOk, ClientsOk;
    var none := State(map[], map[], start);
    EmptyInv(start);
    FileRunMatches(none, none, events);
    AgreeAccepts(FileRun(none, events).tokens, SpecRun(none, events).tokens, SpecRun(none, events).now, hash, later);
    RedisRunMatches(Empty(start), none, events);
    var s := RedisRun(Empty(start), events).s;
    RedisAcceptsIsSpec(s, hash, later);
    AgreeAccepts(s.spec, SpecRun(none, events).tokens, SpecRun(none, events).now, hash, later);
  }
}
