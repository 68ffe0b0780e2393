/** The Redis token store (internal/auth/redis-token-store.go) at the granularity of single
    commands. Any number of clients run `Save`, `Revoke`, `Delete`, `GetByHash` and `List`
    concurrently; between any two commands other clients may step, time may pass, and a client
    may vanish. The three key families never meet because identifiers are UUIDs. */
module RedisTokens {
  import opened Semver
  import opened Tokens

  // ---------------------------------------------------------------- the server

  /** A key's value with its deadline; a key is gone once the clock is past the deadline. */
  datatype Cell<T> = Cell(value: T, deadline: Option<int>)

  datatype Db = Db(tokens: map<string, Cell<Token>>, hashes: map<string, Cell<string>>, index: set<string>, now: int)

  predicate IsLive<T>(c: Cell<T>, now: int)
  {
    c.deadline.None? || now <= c.deadline.value
  }

  function GetToken(db: Db, id: string): Option<Token>
  {
    if id in db.tokens && IsLive(db.tokens[id], db.now) then Some(db.tokens[id].value) else None
  }

  function GetHash(db: Db, hash: string): Option<string>
  {
    if hash in db.hashes && IsLive(db.hashes[hash], db.now) then Some(db.hashes[hash].value) else None
  }

  function Deadline(db: Db, ttl: Option<int>): Option<int>
  {
    if ttl.Some? then Some(db.now + ttl.value) else None
  }

  function SetToken(db: Db, t: Token, ttl: Option<int>): Db
  {
    db.(tokens := db.tokens[t.id := Cell(t, Deadline(db, ttl))])
  }

  function SetHash(db: Db, t: Token, ttl: Option<int>): Db
  {
    db.(hashes := db.hashes[t.hash := Cell(t.id, Deadline(db, ttl))])
  }

  /** The revocation script (redis-token-store.go:185-196): nothing if the key is gone; else the
      payload replaces the value and keeps a remaining time above zero. */
  function RevokeScript(db: Db, id: string, payload: Token): Db
  {
    if GetToken(db, id).None? then db
    else
      var d := db.tokens[id].deadline;
      var kept := if d.Some? && d.value - db.now > 0 then d else None;
      db.(tokens := db.tokens[id := Cell(payload, kept)])
  }

  // ---------------------------------------------------------------- clients

  datatype SaveStep = SettingToken | SettingHash | Indexing

  /** The next command of a running operation, with what it has read so far. */
  datatype Client =
    | Saving(token: Token, ttl: Option<int>, at: SaveStep)
    | Revoking(id: string)
    | RevokeWriting(id: string, payload: Token)
    | Deleting(id: string)
    | DeletingToken(id: string, hash: string)
    | DeletingHash(id: string, hash: string)
    | DeletingIndex(id: string)
    | Looking(hash: string)
    | LookingToken(hash: string, id: string)
    | Pruning(id: string)
    | Listing
    | ListingIds(ids: set<string>)
    | ListPruning(id: string, ids: set<string>)
    | Finished

  /** The server, with books kept for the statements: tokens whose saving began, tokens written,
      hashes written, saves completed, revocations that returned true, and the abstract set. */
  datatype Store = Store(db: Db, begun: Issued, written: set<string>, hashed: set<string>,
                         saved: set<string>, revoked: set<string>, spec: Issued)

  datatype World = World(s: Store, clients: seq<Client>)

  datatype Op = Save(token: Token) | Revoke(id: string) | Delete(id: string) | GetByHash(hash: string) | List

  datatype Action =
    | Begin(op: Op)
    | Advance(client: nat, choice: string)
    | Vanish(client: nat)
    | Tick(ticks: nat)

  predicate CanBegin(s: Store, t: Token)
  {
    IsFresh(s.begun, s.db.now, t)
  }

  function Begun(s: Store, t: Token): Store
  {
    s.(begun := s.begun[t.id := t])
  }

  function Ticked(s: Store, ticks: nat): Store
  {
    s.(db := s.db.(now := s.db.now + ticks))
  }

  function Start(w: World, op: Op): World
  {
    match op
    case Save(t) =>
      if !CanBegin(w.s, t) then w
      else
        var ttl := if t.expiresAt.Some? then Some(t.expiresAt.value - w.s.db.now) else None;
        World(Begun(w.s, t), w.clients + [Saving(t, ttl, SettingToken)])
    case Revoke(id) => w.(clients := w.clients + [Revoking(id)])
    case Delete(id) => w.(clients := w.clients + [Deleting(id)])
    case GetByHash(hash) => w.(clients := w.clients + [Looking(hash)])
    case List => w.(clients := w.clients + [Listing])
  }

  function TokenSet(s: Store, t: Token, ttl: Option<int>): Store
  {
    s.(db := SetToken(s.db, t, ttl), written := s.written + {t.id})
  }

  /** The token becomes findable, hence part of the abstract set, when its hash key is written,
      with whatever revocation has happened by then. */
  function HashSet(s: Store, t: Token, ttl: Option<int>): Store
  {
    var current := GetToken(s.db, t.id);
    s.(db := SetHash(s.db, t, ttl), hashed := s.hashed + {t.id},
       spec := if current.Some? then s.spec[t.id := current.value] else s.spec)
  }

  function Indexed(s: Store, id: string): Store
  {
    s.(db := s.db.(index := s.db.index + {id}), saved := s.saved + {id})
  }

  /** One command of a save. */
  function SaveCommand(s: Store, t: Token, ttl: Option<int>, at: SaveStep): (Store, Client)
  {
    match at
    case SettingToken => (TokenSet(s, t, ttl), Saving(t, ttl, SettingHash))
    case SettingHash => (HashSet(s, t, ttl), Saving(t, ttl, Indexing))
    case Indexing => (Indexed(s, t.id), Finished)
  }

  function Unindexed(s: Store, id: string): Store
  {
    s.(db := s.db.(index := s.db.index - {id}))
  }

  function Rewritten(s: Store, id: string, payload: Token): Store
  {
    s.(db := RevokeScript(s.db, id, payload), revoked := s.revoked + {id},
       spec := if id in s.spec then s.spec[id := payload] else s.spec)
  }

  function WithoutToken(s: Store, id: string): Store
  {
    s.(db := s.db.(tokens := s.db.tokens - {id}), spec := s.spec - {id})
  }

  function WithoutHash(s: Store, hash: string): Store
  {
    s.(db := s.db.(hashes := s.db.hashes - {hash}))
  }

  /** One command of a client; `choice` picks the next identifier of a listing. */
  function Command(s: Store, c: Client, choice: string): (Store, Client)
  {
    match c
    case Saving(t, ttl, at) => SaveCommand(s, t, ttl, at)
    case Revoking(id) =>
      var t := GetToken(s.db, id);
      (s, if t.None? then Finished else RevokeWriting(id, t.value.(revokedAt := Some(s.db.now))))
    case RevokeWriting(id, payload) =>
      (if GetToken(s.db, id).None? then s else Rewritten(s, id, payload), Finished)
    case Deleting(id) =>
      var t := GetToken(s.db, id);
      (s, if t.None? then Finished else DeletingToken(id, t.value.hash))
    case DeletingToken(id, hash) => (WithoutToken(s, id), DeletingHash(id, hash))
    case DeletingHash(id, hash) => (WithoutHash(s, hash), DeletingIndex(id))
    case DeletingIndex(id) => (Unindexed(s, id), Finished)
    case Looking(hash) =>
      var id := GetHash(s.db, hash);
      (s, if id.None? then Finished else LookingToken(hash, id.value))
    case LookingToken(_, id) => (s, if GetToken(s.db, id).None? then Pruning(id) else Finished)
    case Pruning(id) => (Unindexed(s, id), Finished)
    case Listing => (s, ListingIds(s.db.index))
    case ListingIds(ids) =>
      (s, if ids == {} then Finished
          else if choice !in ids then c
          else if GetToken(s.db, choice).None? then ListPruning(choice, ids - {choice})
          else ListingIds(ids - {choice}))
    case ListPruning(id, ids) => (Unindexed(s, id), ListingIds(ids))
    case Finished => (s, Finished)
  }

  function Apply(w: World, a: Action): World
  {
    match a
    case Begin(op) => Start(w, op)
    case Advance(i, choice) =>
      if i < |w.clients| then
        var (s, c) := Command(w.s, w.clients[i], choice);
        World(s, w.clients[i := c])
      else w
    case Vanish(i) => if i < |w.clients| then w.(clients := w.clients[i := Finished]) else w
    case Tick(ticks) => w.(s := Ticked(w.s, ticks))
  }

  function Exec(w: World, actions: seq<Action>): World
    decreases |actions|
  {
    if actions == [] then w else Exec(Apply(w, actions[0]), actions[1..])
  }

  function Empty(now: int): World
  {
    World(Store(Db(map[], map[], {}, now), map[], {}, {}, {}, {}, map[]), [])
  }

  // ---------------------------------------------------------------- the invariant

  predicate IsAlive(s: Store, id: string)
  {
    GetToken(s.db, id).Some?
  }

  /** Written once, and gone: deleted or expired. */
  predicate IsDead(s: Store, id: string)
  {
    id in s.written && !IsAlive(s, id)
  }

  /** The deadline is no earlier than the token's own expiry. */
  predicate Outlasts(deadline: Option<int>, t: Token)
  {
    deadline.None? || (t.expiresAt.Some? && t.expiresAt.value <= deadline.value)
  }

  ghost predicate BooksOk(s: Store)
  {
    && (forall id :: id in s.begun ==> s.begun[id].id == id && s.begun[id].revokedAt.None?)
    && (forall a, b :: a in s.begun && b in s.begun && s.begun[a].hash == s.begun[b].hash ==> a == b)
    && (forall id :: id in s.written ==> id in s.begun)
    && s.hashed <= s.written
    && s.saved <= s.hashed
    && s.revoked <= s.written
  }

  ghost predicate TokenKeysOk(s: Store)
  {
    forall id :: id in s.db.tokens ==>
      id in s.written && id in s.begun
      && SameToken(s.db.tokens[id].value, s.begun[id]) && Outlasts(s.db.tokens[id].deadline, s.begun[id])
  }

  ghost predicate HashKeysOk(s: Store)
  {
    forall h :: h in s.db.hashes ==>
      var id := s.db.hashes[h].value;
      id in s.hashed && id in s.begun && s.begun[id].hash == h && Outlasts(s.db.hashes[h].deadline, s.begun[id])
  }

  ghost predicate IndexOk(s: Store)
  {
    && s.db.index <= s.written
    && (forall id :: id in s.saved && IsAlive(s, id) ==> id in s.db.index)
  }

  ghost predicate RevokedOk(s: Store)
  {
    forall id :: id in s.revoked && id in s.db.tokens ==> IsRevoked(s.db.tokens[id].value)
  }

  /** An unexpired token of the abstract set is found through its hash, equally revoked. */
  ghost predicate Findable(s: Store, id: string)
    requires id in s.spec && id in s.begun
  {
    && IsAlive(s, id)
    && (IsRevoked(GetToken(s.db, id).value) <==> IsRevoked(s.spec[id]))
    && GetHash(s.db, s.begun[id].hash) == Some(id)
  }

  /** A findable token is in the abstract set exactly while its key exists. */
  ghost predicate SpecOk(s: Store)
  {
    && (forall id :: id in s.spec ==>
          id in s.hashed && id in s.begun && SameToken(s.spec[id], s.begun[id])
          && (!IsExpired(s.begun[id], s.db.now) ==> Findable(s, id)))
    && (forall id :: id in s.hashed && id !in s.spec ==> !IsAlive(s, id))
  }

  ghost predicate StoreOk(s: Store)
  {
    BooksOk(s) && TokenKeysOk(s) && HashKeysOk(s) && IndexOk(s) && RevokedOk(s) && SpecOk(s)
  }

  /** What a client has read, and how far it has got, fits the books. */
  ghost predicate ClientOk(s: Store, c: Client)
  {
    match c
    case Saving(t, ttl, at) =>
      && t.id in s.begun && s.begun[t.id] == t
      && (ttl.None? <==> t.expiresAt.None?)
      && (ttl.Some? ==> s.db.now + ttl.value >= t.expiresAt.value)
      && (t.id in s.written <==> !at.SettingToken?)
      && (t.id in s.hashed <==> at.Indexing?)
    case RevokeWriting(id, payload) =>
      id in s.written && id in s.begun && SameToken(payload, s.begun[id]) && IsRevoked(payload)
    case DeletingToken(id, hash) => id in s.written && id in s.begun && s.begun[id].hash == hash
    case DeletingHash(id, hash) => IsDead(s, id) && id in s.begun && s.begun[id].hash == hash && id !in s.spec
    case DeletingIndex(id) => IsDead(s, id)
    case LookingToken(hash, id) => id in s.hashed && id in s.written && id in s.begun && s.begun[id].hash == hash
    case Pruning(id) => IsDead(s, id)
    case ListingIds(ids) => ids <= s.written
    case ListPruning(id, ids) => IsDead(s, id) && ids <= s.written
    case _ => true
  }

  ghost predicate ClientsOk(s: Store, clients: seq<Client>)
  {
    && (forall i :: 0 <= i < |clients| ==> ClientOk(s, clients[i]))
    && (forall i, j :: 0 <= i < j < |clients| && clients[i].Saving? && clients[j].Saving? ==>
          clients[i].token.id != clients[j].token.id)
  }

  ghost predicate Inv(w: World)
  {
    StoreOk(w.s) && ClientsOk(w.s, w.clients)
  }

  lemma EmptyInv(now: int)
    ensures Inv(Empty(now))
  {
  }

  // ---------------------------------------------------------------- what every step keeps

  /** The monotone part of every step: books only grow, the clock does not go back, and what is
      gone stays gone. */
  ghost predicate Evolves(s: Store, v: Store)
  {
    && (forall id :: id in s.begun ==> id in v.begun && v.begun[id] == s.begun[id])
    && s.written <= v.written && s.hashed <= v.hashed && s.saved <= v.saved && s.revoked <= v.revoked
    && s.db.now <= v.db.now
    && (forall id :: IsDead(s, id) ==> IsDead(v, id) && (id !in s.spec ==> id !in v.spec))
  }

  lemma EvolvesTransitive(a: Store, b: Store, c: Store)
    requires Evolves(a, b) && Evolves(b, c)
    ensures Evolves(a, c)
  {
    hide IsDead;
  }

  lemma ClientEvolves(s: Store, v: Store, c: Client)
    requires Evolves(s, v) && ClientOk(s, c)
    requires c.Saving? ==> (c.token.id in v.written <==> c.token.id in s.written) && (c.token.id in v.hashed <==> c.token.id in s.hashed)
    ensures ClientOk(v, c)
  {
    hide IsDead, SameToken;
  }

  /** The clients after a command of client i; only a save touches the books another save of
      the same token would read, and there is no other. */
  lemma ClientsAfter(s: Store, clients: seq<Client>, v: Store, i: nat, c: Client)
    requires ClientsOk(s, clients) && Evolves(s, v) && i < |clients| && ClientOk(v, c)
    requires c.Saving? ==> clients[i].Saving? && clients[i].token == c.token
    requires forall id :: id in v.written && id !in s.written ==> clients[i].Saving? && clients[i].token.id == id
    requires forall id :: id in v.hashed && id !in s.hashed ==> clients[i].Saving? && clients[i].token.id == id
    ensures ClientsOk(v, clients[i := c])
  {
    hide ClientOk;
    assert forall id :: id in s.written ==> id in v.written;
    assert forall id :: id in s.hashed ==> id in v.hashed;
    hide Evolves;
    var after := clients[i := c];
    forall j | 0 <= j < |after|
      ensures ClientOk(v, after[j])
    {
      if j != i {
        assert after[j] == clients[j];
        if clients[i].Saving? && clients[j].Saving? {
          assert clients[i].token.id != clients[j].token.id;
        }
        ClientEvolves(s, v, clients[j]);
      }
    }
  }

  lemma StaysPut(s: Store)
    ensures Evolves(s, s)
  {
  }

  // The proof of each store change comes in two halves: the keys with the books, and the
  // statements that read through them.

  ghost predicate KeysOk(s: Store)
  {
    BooksOk(s) && TokenKeysOk(s) && HashKeysOk(s) && RevokedOk(s)
  }

  ghost predicate ReadsOk(s: Store)
  {
    IndexOk(s) && SpecOk(s)
  }

  lemma StoreOkIff(s: Store)
    ensures StoreOk(s) <==> KeysOk(s) && ReadsOk(s)
  {
    hide BooksOk, TokenKeysOk, HashKeysOk, RevokedOk, IndexOk, SpecOk;
  }

  /** A change that leaves keys and clock alone leaves every read alone. */
  lemma SameReads(s: Store, v: Store)
    requires v.db.tokens == s.db.tokens && v.db.hashes == s.db.hashes && v.db.now == s.db.now
    ensures forall id :: GetToken(v.db, id) == GetToken(s.db, id)
    ensures forall h :: GetHash(v.db, h) == GetHash(s.db, h)
  {
  }

  lemma UnindexedOk(s: Store, id: string)
    requires StoreOk(s) && IsDead(s, id)
    ensures StoreOk(Unindexed(s, id)) && Evolves(s, Unindexed(s, id))
  {
    StoreOkIff(s);
    StoreOkIff(Unindexed(s, id));
    UnindexedReads(s, id);
    hide StoreOk, ReadsOk, SameToken, Outlasts, IsLive, IsExpired;
    SameReads(s, Unindexed(s, id));
  }

  lemma UnindexedReads(s: Store, id: string)
    requires ReadsOk(s) && IsDead(s, id)
    ensures ReadsOk(Unindexed(s, id))
  {
    SameReads(s, Unindexed(s, id));
    hide GetToken, GetHash, SameToken, IsExpired;
  }

  lemma IndexedOk(s: Store, id: string)
    requires StoreOk(s) && id in s.hashed
    ensures StoreOk(Indexed(s, id)) && Evolves(s, Indexed(s, id))
  {
    StoreOkIff(s);
    StoreOkIff(Indexed(s, id));
    IndexedReads(s, id);
    hide StoreOk, ReadsOk, SameToken, Outlasts, IsLive, IsExpired;
    SameReads(s, Indexed(s, id));
  }

  lemma IndexedReads(s: Store, id: string)
    requires ReadsOk(s) && id in s.hashed && s.hashed <= s.written
    ensures ReadsOk(Indexed(s, id))
  {
    SameReads(s, Indexed(s, id));
    hide GetToken, GetHash, SameToken, IsExpired;
  }

  lemma BegunOk(s: Store, t: Token)
    requires StoreOk(s) && CanBegin(s, t)
    ensures StoreOk(Begun(s, t)) && Evolves(s, Begun(s, t))
  {
    StoreOkIff(s);
    StoreOkIff(Begun(s, t));
    BegunReads(s, t);
    BegunKeys(s, t);
    BegunEvolves(s, t);
    hide StoreOk, ReadsOk, KeysOk, Evolves, Begun;
  }

  lemma BegunKeys(s: Store, t: Token)
    requires KeysOk(s) && CanBegin(s, t)
    ensures KeysOk(Begun(s, t))
  {
    hide SameToken, Outlasts;
  }

  lemma BegunEvolves(s: Store, t: Token)
    requires CanBegin(s, t)
    ensures Evolves(s, Begun(s, t))
  {
    SameReads(s, Begun(s, t));
    hide GetToken, GetHash;
  }

  lemma BegunReads(s: Store, t: Token)
    requires ReadsOk(s) && t.id !in s.begun
    ensures ReadsOk(Begun(s, t))
  {
    SameReads(s, Begun(s, t));
    hide GetToken, GetHash, SameToken, IsExpired;
  }

  lemma WithoutHashOk(s: Store, id: string)
    requires StoreOk(s) && id in s.begun && id !in s.spec
    ensures StoreOk(WithoutHash(s, s.begun[id].hash)) && Evolves(s, WithoutHash(s, s.begun[id].hash))
  {
    var v := WithoutHash(s, s.begun[id].hash);
    StoreOkIff(s);
    StoreOkIff(v);
    assert BooksOk(s);
    WithoutHashReads(s, id);
    hide StoreOk, ReadsOk, SameToken, Outlasts, IsLive, IsExpired;
    assert forall k :: GetToken(v.db, k) == GetToken(s.db, k);
  }

  lemma WithoutHashReads(s: Store, id: string)
    requires BooksOk(s) && ReadsOk(s) && id in s.begun && id !in s.spec
    ensures ReadsOk(WithoutHash(s, s.begun[id].hash))
  {
    var v := WithoutHash(s, s.begun[id].hash);
    assert forall k :: GetToken(v.db, k) == GetToken(s.db, k);
    assert forall h :: h != s.begun[id].hash ==> GetHash(v.db, h) == GetHash(s.db, h);
    hide GetToken, GetHash, SameToken, IsExpired;
  }

  lemma WithoutTokenOk(s: Store, id: string)
    requires StoreOk(s) && id in s.written
    ensures var v := WithoutToken(s, id); StoreOk(v) && Evolves(s, v) && IsDead(v, id) && id !in v.spec
  {
    StoreOkIff(s);
    StoreOkIff(WithoutToken(s, id));
    WithoutTokenReads(s, id);
    WithoutTokenKeys(s, id);
    WithoutTokenEvolves(s, id);
  }

  lemma WithoutTokenKeys(s: Store, id: string)
    requires KeysOk(s)
    ensures KeysOk(WithoutToken(s, id))
  {
    hide SameToken, Outlasts;
  }

  lemma WithoutTokenEvolves(s: Store, id: string)
    requires id in s.written
    ensures var v := WithoutToken(s, id); Evolves(s, v) && IsDead(v, id)
  {
    var v := WithoutToken(s, id);
    assert forall k :: k != id ==> GetToken(v.db, k) == GetToken(s.db, k);
    assert GetToken(v.db, id).None?;
    hide GetToken;
  }

  lemma WithoutTokenReads(s: Store, id: string)
    requires ReadsOk(s)
    ensures ReadsOk(WithoutToken(s, id))
  {
    var v := WithoutToken(s, id);
    assert forall k :: k != id ==> GetToken(v.db, k) == GetToken(s.db, k);
    assert forall h :: GetHash(v.db, h) == GetHash(s.db, h);
    assert GetToken(v.db, id).None?;
    hide GetToken, GetHash, SameToken, IsExpired;
  }

  lemma TokenSetOk(s: Store, t: Token, ttl: Option<int>)
    requires StoreOk(s) && ClientOk(s, Saving(t, ttl, SettingToken))
    ensures StoreOk(TokenSet(s, t, ttl)) && Evolves(s, TokenSet(s, t, ttl))
  {
    StoreOkIff(s);
    StoreOkIff(TokenSet(s, t, ttl));
    TokenSetReads(s, t, ttl);
    TokenSetKeys(s, t, ttl);
    TokenSetEvolves(s, t, ttl);
  }

  lemma TokenSetKeys(s: Store, t: Token, ttl: Option<int>)
    requires KeysOk(s) && ClientOk(s, Saving(t, ttl, SettingToken))
    ensures KeysOk(TokenSet(s, t, ttl))
  {
    TokenSetTokens(s, t, ttl);
    TokenSetBooks(s, t, ttl);
    hide TokenKeysOk, BooksOk, HashKeysOk, RevokedOk, TokenSet;
  }

  lemma TokenSetTokens(s: Store, t: Token, ttl: Option<int>)
    requires TokenKeysOk(s) && ClientOk(s, Saving(t, ttl, SettingToken))
    ensures TokenKeysOk(TokenSet(s, t, ttl))
  {
    FreshHashReads(s.db, t, ttl);
    hide GetToken, GetHash, Outlasts, Deadline;
  }

  lemma TokenSetBooks(s: Store, t: Token, ttl: Option<int>)
    requires BooksOk(s) && HashKeysOk(s) && RevokedOk(s) && ClientOk(s, Saving(t, ttl, SettingToken))
    ensures BooksOk(TokenSet(s, t, ttl)) && HashKeysOk(TokenSet(s, t, ttl)) && RevokedOk(TokenSet(s, t, ttl))
  {
    hide GetToken, GetHash, Outlasts, Deadline, SameToken;
  }

  lemma TokenSetEvolves(s: Store, t: Token, ttl: Option<int>)
    requires t.id !in s.written
    ensures Evolves(s, TokenSet(s, t, ttl))
  {
    assert forall k :: k != t.id ==> GetToken(TokenSet(s, t, ttl).db, k) == GetToken(s.db, k);
    hide GetToken;
  }

  lemma TokenSetReads(s: Store, t: Token, ttl: Option<int>)
    requires BooksOk(s) && ReadsOk(s) && t.id !in s.written
    ensures ReadsOk(TokenSet(s, t, ttl))
  {
    var v := TokenSet(s, t, ttl);
    assert forall k :: k != t.id ==> GetToken(v.db, k) == GetToken(s.db, k);
    assert forall h :: GetHash(v.db, h) == GetHash(s.db, h);
    hide GetToken, GetHash, SameToken, IsExpired;
  }

  /** The hash key just written is read back as long as the token has not expired. */
  lemma FreshHashReads(db: Db, t: Token, ttl: Option<int>)
    requires ttl.None? <==> t.expiresAt.None?
    requires ttl.Some? ==> db.now + ttl.value >= t.expiresAt.value
    ensures Outlasts(Deadline(db, ttl), t)
    ensures !IsExpired(t, db.now) ==> GetHash(SetHash(db, t, ttl), t.hash) == Some(t.id)
  {
  }

  lemma HashSetOk(s: Store, t: Token, ttl: Option<int>)
    requires StoreOk(s) && ClientOk(s, Saving(t, ttl, SettingHash))
    ensures StoreOk(HashSet(s, t, ttl)) && Evolves(s, HashSet(s, t, ttl))
  {
    var v := HashSet(s, t, ttl);
    StoreOkIff(s);
    StoreOkIff(v);
    FreshHashReads(s.db, t, ttl);
    HashSetReads(s, t, ttl);
    HashSetKeys(s, t, ttl);
    HashSetEvolves(s, t, ttl);
  }

  lemma HashSetKeys(s: Store, t: Token, ttl: Option<int>)
    requires KeysOk(s) && ClientOk(s, Saving(t, ttl, SettingHash))
    ensures KeysOk(HashSet(s, t, ttl))
  {
    FreshHashReads(s.db, t, ttl);
    hide GetToken, GetHash, SameToken, Outlasts, Deadline;
  }

  lemma HashSetEvolves(s: Store, t: Token, ttl: Option<int>)
    ensures Evolves(s, HashSet(s, t, ttl))
  {
    var v := HashSet(s, t, ttl);
    assert forall k :: GetToken(v.db, k) == GetToken(s.db, k);
  }

  lemma HashSetReads(s: Store, t: Token, ttl: Option<int>)
    requires KeysOk(s) && ReadsOk(s) && ClientOk(s, Saving(t, ttl, SettingHash))
    ensures ReadsOk(HashSet(s, t, ttl))
  {
    var v := HashSet(s, t, ttl);
    assert forall k :: GetToken(v.db, k) == GetToken(s.db, k);
    forall id | id in v.spec
      ensures id in v.hashed && id in v.begun && SameToken(v.spec[id], v.begun[id])
      ensures !IsExpired(v.begun[id], v.db.now) ==> Findable(v, id)
    {
      if id == t.id {
        HashSetFinds(s, t, ttl);
      } else {
        HashSetKeepsOther(s, t, ttl, id);
      }
    }
    hide GetToken, GetHash, SameToken, IsExpired, KeysOk, Findable;
  }

  lemma HashSetFinds(s: Store, t: Token, ttl: Option<int>)
    requires KeysOk(s) && ReadsOk(s) && ClientOk(s, Saving(t, ttl, SettingHash)) && t.id in HashSet(s, t, ttl).spec
    ensures SameToken(HashSet(s, t, ttl).spec[t.id], s.begun[t.id])
    ensures !IsExpired(s.begun[t.id], s.db.now) ==> Findable(HashSet(s, t, ttl), t.id)
  {
    var v := HashSet(s, t, ttl);
    FreshHashReads(s.db, t, ttl);
    assert GetToken(v.db, t.id) == GetToken(s.db, t.id);
    assert t.id !in s.spec;
    hide GetHash, IsExpired, ReadsOk;
  }

  lemma HashSetKeepsOther(s: Store, t: Token, ttl: Option<int>, id: string)
    requires BooksOk(s) && SpecOk(s) && ClientOk(s, Saving(t, ttl, SettingHash)) && id in s.spec && id != t.id
    ensures id in s.begun && (!IsExpired(s.begun[id], s.db.now) ==> Findable(HashSet(s, t, ttl), id))
  {
    var v := HashSet(s, t, ttl);
    assert s.begun[id].hash != t.hash;
    assert GetToken(v.db, id) == GetToken(s.db, id);
    assert GetHash(v.db, s.begun[id].hash) == GetHash(s.db, s.begun[id].hash);
    hide GetToken, GetHash, SameToken, IsExpired;
  }

  lemma RewrittenOk(s: Store, id: string, payload: Token)
    requires StoreOk(s) && ClientOk(s, RevokeWriting(id, payload)) && IsAlive(s, id)
    ensures StoreOk(Rewritten(s, id, payload)) && Evolves(s, Rewritten(s, id, payload))
  {
    StoreOkIff(s);
    StoreOkIff(Rewritten(s, id, payload));
    RewrittenReads(s, id, payload);
    RewrittenKeys(s, id, payload);
    RewrittenEvolves(s, id, payload);
  }

  lemma ScriptReads(db: Db, id: string, payload: Token)
    requires GetToken(db, id).Some?
    ensures var v := RevokeScript(db, id, payload);
            && GetToken(v, id) == Some(payload)
            && (forall k :: k != id ==> GetToken(v, k) == GetToken(db, k))
            && (forall h :: GetHash(v, h) == GetHash(db, h))
  {
  }

  lemma RewrittenKeys(s: Store, id: string, payload: Token)
    requires KeysOk(s) && ClientOk(s, RevokeWriting(id, payload)) && IsAlive(s, id)
    ensures KeysOk(Rewritten(s, id, payload))
  {
    hide IsExpired, SameToken, GetHash, Outlasts;
    NoDeadlineOutlasts(s.begun[id]);
    assert RevokeScript(s.db, id, payload).tokens[id].deadline in {s.db.tokens[id].deadline, None};
    hide RevokeScript;
  }

  lemma NoDeadlineOutlasts(t: Token)
    ensures Outlasts(None, t)
  {
  }

  lemma RewrittenEvolves(s: Store, id: string, payload: Token)
    requires id in s.written && IsAlive(s, id)
    ensures Evolves(s, Rewritten(s, id, payload))
  {
    ScriptReads(s.db, id, payload);
    hide GetToken;
  }

  lemma RewrittenReads(s: Store, id: string, payload: Token)
    requires BooksOk(s) && ReadsOk(s) && ClientOk(s, RevokeWriting(id, payload)) && IsAlive(s, id)
    ensures ReadsOk(Rewritten(s, id, payload))
  {
    RewrittenIndex(s, id, payload);
    RewrittenSpec(s, id, payload);
    hide IndexOk, SpecOk, BooksOk, IsAlive, Rewritten;
  }

  lemma RewrittenIndex(s: Store, id: string, payload: Token)
    requires IndexOk(s) && IsAlive(s, id)
    ensures IndexOk(Rewritten(s, id, payload))
  {
    ScriptReads(s.db, id, payload);
    hide GetToken;
  }

  lemma RewrittenSpec(s: Store, id: string, payload: Token)
    requires BooksOk(s) && SpecOk(s) && ClientOk(s, RevokeWriting(id, payload)) && IsAlive(s, id)
    ensures SpecOk(Rewritten(s, id, payload))
  {
    var v := Rewritten(s, id, payload);
    ScriptReads(s.db, id, payload);
    hide GetToken, GetHash, SameToken, IsExpired, RevokeScript;
    assert v.db.now == s.db.now by {
      ScriptKeepsTime(s.db, id, payload);
    }
    forall k | k in v.spec
      ensures k in v.hashed && k in v.begun && SameToken(v.spec[k], v.begun[k])
      ensures !IsExpired(v.begun[k], v.db.now) ==> Findable(v, k)
    {
      assert k in s.spec;
      if !IsExpired(s.begun[k], s.db.now) {
        assert Findable(s, k);
      }
    }
    hide Findable;
  }

  lemma ScriptKeepsTime(db: Db, id: string, payload: Token)
    ensures RevokeScript(db, id, payload).now == db.now
  {
  }

  lemma TickedOk(s: Store, ticks: nat)
    requires StoreOk(s)
    ensures StoreOk(Ticked(s, ticks)) && Evolves(s, Ticked(s, ticks))
  {
    StoreOkIff(s);
    StoreOkIff(Ticked(s, ticks));
    TickedReads(s, ticks);
    hide StoreOk, ReadsOk, SameToken, Outlasts;
  }

  /** An unexpired token outlasts the tick, key and hash key both. */
  lemma TickedReads(s: Store, ticks: nat)
    requires KeysOk(s) && ReadsOk(s)
    ensures ReadsOk(Ticked(s, ticks))
  {
    var v := Ticked(s, ticks);
    forall id | id in s.spec && !IsExpired(s.begun[id], v.db.now)
      ensures Findable(v, id)
    {
      assert Findable(s, id);
    }
    forall id | IsAlive(v, id)
      ensures IsAlive(s, id)
    {
    }
    hide GetToken, GetHash, SameToken, IsExpired, KeysOk, Findable;
  }

  /** One command of one client keeps the store sound, lets it only evolve, and leaves the client
      with a sound view; only a save writes new keys. */
  ghost predicate StepsWell(s: Store, c: Client, v: Store, d: Client)
  {
    && StoreOk(v) && Evolves(s, v) && ClientOk(v, d)
    && (d.Saving? ==> c.Saving? && c.token == d.token)
    && (forall id :: id in v.written && id !in s.written ==> c.Saving? && c.token.id == id)
    && (forall id :: id in v.hashed && id !in s.hashed ==> c.Saving? && c.token.id == id)
  }

  lemma SaveCommandOk(s: Store, t: Token, ttl: Option<int>, at: SaveStep)
    requires StoreOk(s) && ClientOk(s, Saving(t, ttl, at))
    ensures var (v, d) := SaveCommand(s, t, ttl, at); StepsWell(s, Saving(t, ttl, at), v, d)
  {
    hide StoreOk, Evolves;
    match at
    case SettingToken =>
      assert t.id !in s.hashed by { assert StoreOk(s); UnwrittenIsUnhashed(s, t.id); }
      TokenSetOk(s, t, ttl);
    case SettingHash => HashSetOk(s, t, ttl);
    case Indexing => IndexedOk(s, t.id);
  }

  lemma UnwrittenIsUnhashed(s: Store, id: string)
    requires StoreOk(s) && id !in s.written
    ensures id !in s.hashed
  {
  }

  lemma RevokeCommandOk(s: Store, c: Client, choice: string)
    requires StoreOk(s) && ClientOk(s, c) && (c.Revoking? || c.RevokeWriting?)
    ensures var (v, d) := Command(s, c, choice); StepsWell(s, c, v, d)
  {
    hide StoreOk, Evolves, SameToken, IsDead, GetToken, RevokeScript;
    StaysPut(s);
    match c
    case Revoking(id) => ReadKnows(s, id); SameButRevoked(s, id);
    case RevokeWriting(id, payload) =>
      if IsAlive(s, id) {
        RewrittenOk(s, id, payload);
      }
  }

  lemma SameButRevoked(s: Store, id: string)
    requires GetToken(s.db, id).Some? && id in s.begun ==> SameToken(GetToken(s.db, id).value, s.begun[id])
    ensures GetToken(s.db, id).Some? && id in s.begun ==> SameToken(GetToken(s.db, id).value.(revokedAt := Some(s.db.now)), s.begun[id])
  {
  }

  lemma DeleteCommandOk(s: Store, c: Client, choice: string)
    requires StoreOk(s) && ClientOk(s, c) && (c.Deleting? || c.DeletingToken? || c.DeletingHash? || c.DeletingIndex?)
    ensures var (v, d) := Command(s, c, choice); StepsWell(s, c, v, d)
  {
    hide StoreOk, Evolves, IsDead, GetToken;
    StaysPut(s);
    match c
    case Deleting(id) => ReadKnows(s, id); SameHash(s, id);
    case DeletingToken(id, hash) => WithoutTokenOk(s, id);
    case DeletingHash(id, hash) =>
      WithoutHashOk(s, id);
      StaysDead(s, WithoutHash(s, hash), id);
    case DeletingIndex(id) => UnindexedOk(s, id);
  }

  lemma SameHash(s: Store, id: string)
    requires GetToken(s.db, id).Some? && id in s.begun ==> SameToken(GetToken(s.db, id).value, s.begun[id])
    ensures GetToken(s.db, id).Some? && id in s.begun ==> GetToken(s.db, id).value.hash == s.begun[id].hash
  {
  }

  lemma StaysDead(s: Store, v: Store, id: string)
    requires Evolves(s, v) && IsDead(s, id)
    ensures IsDead(v, id)
  {
    hide IsDead;
  }

  lemma ReadCommandOk(s: Store, c: Client, choice: string)
    requires StoreOk(s) && ClientOk(s, c) && (c.Looking? || c.LookingToken? || c.Pruning? || c.Listing? || c.ListingIds? || c.ListPruning? || c.Finished?)
    ensures var (v, d) := Command(s, c, choice); StepsWell(s, c, v, d)
  {
    hide StoreOk, Evolves, GetToken, GetHash;
    StaysPut(s);
    IndexIsWritten(s);
    match c
    case Looking(hash) => HashReadKnows(s, hash);
    case Pruning(id) => UnindexedOk(s, id);
    case ListPruning(id, ids) => UnindexedOk(s, id);
    case _ =>
  }

  lemma IndexIsWritten(s: Store)
    requires StoreOk(s)
    ensures s.db.index <= s.written
  {
    hide BooksOk, TokenKeysOk, HashKeysOk, RevokedOk, SpecOk;
  }

  lemma ReadKnows(s: Store, id: string)
    requires StoreOk(s)
    ensures GetToken(s.db, id).Some? ==> id in s.written && id in s.begun && SameToken(GetToken(s.db, id).value, s.begun[id])
  {
    hide HashKeysOk, IndexOk, RevokedOk, SpecOk;
  }

  lemma HashReadKnows(s: Store, hash: string)
    requires StoreOk(s)
    ensures var id := GetHash(s.db, hash); id.Some? ==>
              id.value in s.hashed && id.value in s.written && id.value in s.begun && s.begun[id.value].hash == hash
  {
    hide TokenKeysOk, IndexOk, RevokedOk, SpecOk;
  }

  lemma CommandOk(s: Store, c: Client, choice: string)
    requires StoreOk(s) && ClientOk(s, c)
    ensures var (v, d) := Command(s, c, choice); StepsWell(s, c, v, d)
  {
    if c.Saving? {
      SaveCommandOk(s, c.token, c.ttl, c.at);
    } else if c.Revoking? || c.RevokeWriting? {
      RevokeCommandOk(s, c, choice);
    } else if c.Deleting? || c.DeletingToken? || c.DeletingHash? || c.DeletingIndex? {
      DeleteCommandOk(s, c, choice);
    } else {
      ReadCommandOk(s, c, choice);
    }
    hide StepsWell;
  }

  // ---------------------------------------------------------------- every run

  lemma StartOk(w: World, op: Op)
    requires Inv(w)
    ensures Inv(Start(w, op)) && Evolves(w.s, Start(w, op).s)
  {
    hide StoreOk, Evolves;
    StaysPut(w.s);
    match op
    case Save(t) =>
      if CanBegin(w.s, t) {
        BegunOk(w.s, t);
        ClientsBegin(w.s, w.clients, t);
      }
    case _ =>
  }

  lemma ClientsBegin(s: Store, clients: seq<Client>, t: Token)
    requires StoreOk(s) && ClientsOk(s, clients) && CanBegin(s, t) && Evolves(s, Begun(s, t))
    ensures var ttl := if t.expiresAt.Some? then Some(t.expiresAt.value - s.db.now) else None;
            ClientsOk(Begun(s, t), clients + [Saving(t, ttl, SettingToken)])
  {
    var v := Begun(s, t);
    assert t.id !in s.written && t.id !in s.hashed;
    hide StoreOk, Evolves, ClientOk, CanBegin;
    forall i | 0 <= i < |clients|
      ensures ClientOk(v, clients[i]) && (clients[i].Saving? ==> clients[i].token.id != t.id)
    {
      ClientEvolves(s, v, clients[i]);
      SavingIsBegun(s, clients[i]);
      assert t.id !in s.begun by { assert CanBegin(s, t); FreshIsNew(s, t); }
    }
    NewSaveOk(s, t);
  }

  lemma FreshIsNew(s: Store, t: Token)
    requires CanBegin(s, t)
    ensures t.id !in s.begun
  {
  }

  lemma SavingIsBegun(s: Store, c: Client)
    requires ClientOk(s, c)
    ensures c.Saving? ==> c.token.id in s.begun
  {
  }

  lemma NewSaveOk(s: Store, t: Token)
    requires t.id !in s.written && t.id !in s.hashed
    ensures var ttl := if t.expiresAt.Some? then Some(t.expiresAt.value - s.db.now) else None;
            ClientOk(Begun(s, t), Saving(t, ttl, SettingToken))
  {
  }

  /** A client that vanishes, or time that passes, leaves the others' views sound. */
  lemma ClientsKeep(s: Store, clients: seq<Client>, v: Store)
    requires ClientsOk(s, clients) && Evolves(s, v) && v.written == s.written && v.hashed == s.hashed
    ensures ClientsOk(v, clients)
  {
    hide ClientOk, Evolves;
    forall i | 0 <= i < |clients|
      ensures ClientOk(v, clients[i])
    {
      ClientEvolves(s, v, clients[i]);
    }
  }

  lemma ApplyOk(w: World, a: Action)
    requires Inv(w)
    ensures Inv(Apply(w, a)) && Evolves(w.s, Apply(w, a).s)
  {
    hide StoreOk, Evolves, ClientOk, Start, Command;
    StaysPut(w.s);
    match a
    case Begin(op) => StartOk(w, op);
    case Advance(i, choice) =>
      if i < |w.clients| {
        var (v, d) := Command(w.s, w.clients[i], choice);
        CommandOk(w.s, w.clients[i], choice);
        ClientsAfter(w.s, w.clients, v, i, d);
      }
    case Vanish(i) =>
      if i < |w.clients| {
        FinishedOk(w.s);
        ClientsAfter(w.s, w.clients, w.s, i, Finished);
      }
    case Tick(ticks) =>
      TickedOk(w.s, ticks);
      ClientsKeep(w.s, w.clients, Ticked(w.s, ticks));
  }

  lemma FinishedOk(s: Store)
    ensures ClientOk(s, Finished)
  {
  }

  /** Every run keeps the invariant and only evolves the store, whatever the interleaving. */
  lemma {:induction false} ExecOk(w: World, actions: seq<Action>)
    requires Inv(w)
    ensures Inv(Exec(w, actions)) && Evolves(w.s, Exec(w, actions).s)
    decreases |actions|
  {
    hide Inv, Evolves, Apply;
    if actions == [] {
      StaysPut(w.s);
    } else {
      ApplyOk(w, actions[0]);
      ExecOk(Apply(w, actions[0]), actions[1..]);
      EvolvesTransitive(w.s, Apply(w, actions[0]).s, Exec(w, actions).s);
    }
  }

  // ---------------------------------------------------------------- what a user relies on

  /** A token whose key is gone, deleted or expired, is never seen again, whatever revocations
      are still running. */
  lemma NeverResurrected(w: World, actions: seq<Action>, id: string)
    requires Inv(w) && IsDead(w.s, id)
    ensures GetToken(Exec(w, actions).s.db, id).None?
  {
    ExecOk(w, actions);
    hide Inv, Exec, GetToken;
  }

  /** Once a revocation returned true, no read in any continuation sees the token unrevoked, and
      none makes authentication accept it, then or later. */
  lemma RevokedForGood(w: World, actions: seq<Action>, id: string)
    requires Inv(w) && id in w.s.revoked
    ensures var seen := GetToken(Exec(w, actions).s.db, id);
            seen.Some? ==> IsRevoked(seen.value) && forall later :: !Tokens.IsValid(seen.value, later)
  {
    ExecOk(w, actions);
    hide Exec, BooksOk, TokenKeysOk, HashKeysOk, IndexOk, SpecOk, ClientsOk;
  }

  /** A token past its own expiry is never accepted again, even where the script has dropped the
      deadline of its key and the token can still be seen. */
  lemma ExpiredForGood(w: World, actions: seq<Action>, id: string)
    requires Inv(w) && id in w.s.begun && IsExpired(w.s.begun[id], w.s.db.now)
    ensures var s := Exec(w, actions).s; var seen := GetToken(s.db, id);
            seen.Some? ==> !Tokens.IsValid(seen.value, s.db.now)
  {
    ExecOk(w, actions);
    ReadKnows(Exec(w, actions).s, id);
    hide Exec, StoreOk, ClientsOk, GetToken;
  }

  /** However much pruning happens, a token whose save completed is listed while it lives. */
  lemma LiveTokensStayListed(w: World, actions: seq<Action>, id: string)
    requires Inv(w) && id in w.s.saved
    ensures var s := Exec(w, actions).s; GetToken(s.db, id).Some? ==> id in s.db.index
  {
    ExecOk(w, actions);
    hide Exec, BooksOk, TokenKeysOk, HashKeysOk, RevokedOk, SpecOk, ClientsOk;
  }

  /** How one command may move the abstract set. A save adds its own token, still alive when it
      becomes findable; a revocation that will return true revokes its token; a deletion takes
      its token out. No other command moves it, and none moves another token. */
  ghost predicate MovesSpec(s: Store, c: Client, v: Store)
  {
    match c
    case Saving(t, _, SettingHash) =>
      if IsAlive(s, t.id) then t.id !in s.spec && t.id in v.spec && SameToken(v.spec[t.id], t) && v.spec == s.spec[t.id := v.spec[t.id]]
      else v.spec == s.spec
    case RevokeWriting(id, _) =>
      if IsAlive(s, id) && id in s.spec then
        id in v.spec && SameToken(v.spec[id], s.spec[id]) && IsRevoked(v.spec[id]) && v.spec == s.spec[id := v.spec[id]]
      else v.spec == s.spec
    case DeletingToken(id, _) => v.spec == s.spec - {id}
    case _ => v.spec == s.spec
  }

  lemma CommandMovesSpec(s: Store, c: Client, choice: string)
    requires StoreOk(s) && ClientOk(s, c)
    ensures MovesSpec(s, c, Command(s, c, choice).0)
  {
    hide StoreOk, GetToken, SameToken;
    match c
    case Saving(t, ttl, at) =>
      if at.SettingHash? {
        ReadKnows(s, t.id);
        UnhashedIsNew(s, t.id);
      }
    case RevokeWriting(id, payload) => SpecIsIssued(s, id);
    case _ =>
  }

  lemma UnhashedIsNew(s: Store, id: string)
    requires StoreOk(s) && id !in s.hashed
    ensures id !in s.spec
  {
    hide BooksOk, TokenKeysOk, HashKeysOk, IndexOk, RevokedOk, Findable;
  }

  lemma SpecIsIssued(s: Store, id: string)
    requires StoreOk(s)
    ensures id in s.spec ==> id in s.begun && forall t :: SameToken(t, s.begun[id]) ==> SameToken(t, s.spec[id])
  {
    hide BooksOk, TokenKeysOk, HashKeysOk, IndexOk, RevokedOk, Findable;
  }

  /** Every step of a run moves the abstract set by one command of one client, or not at all; a
      lookup, a listing, time and a vanishing client never do. */
  lemma StepMovesSpec(w: World, a: Action)
    requires Inv(w)
    ensures if a.Advance? && a.client < |w.clients| then MovesSpec(w.s, w.clients[a.client], Apply(w, a).s)
            else Apply(w, a).s.spec == w.s.spec
  {
    hide StoreOk, ClientOk, Command, MovesSpec;
    if a.Advance? && a.client < |w.clients| {
      CommandMovesSpec(w.s, w.clients[a.client], a.choice);
    }
  }

  /** The answer of authentication when a lookup's last read happens in this state and the
      validity check follows at a later time. */
  predicate Answer(s: Store, c: Client, later: int)
    requires c.Looking? || c.LookingToken?
  {
    if c.Looking? then false
    else var t := GetToken(s.db, c.id); t.Some? && Tokens.IsValid(t.value, later)
  }

  /** Is this the lookup's last read: the hash key is missing, or the token key is read. */
  predicate IsDeciding(s: Store, c: Client)
  {
    c.LookingToken? || (c.Looking? && GetHash(s.db, c.hash).None?)
  }

  /** Authentication is linearizable: in every reachable state, two-step lookup and all, the
      last read answers what the abstract set of tokens answers at that moment. */
  lemma LookupsAreLinear(start: int, actions: seq<Action>, i: nat, later: int)
    requires var w := Exec(Empty(start), actions); i < |w.clients| && IsDeciding(w.s, w.clients[i]) && later >= w.s.db.now
    ensures var w := Exec(Empty(start), actions);
            Answer(w.s, w.clients[i], later) == Accepts(w.s.spec, w.clients[i].hash, later)
  {
    var w := Exec(Empty(start), actions);
    EmptyInv(start);
    ExecOk(Empty(start), actions);
    DecidingReadIsExact(w.s, w.clients[i], later);
    hide Exec, StoreOk, Answer, Accepts;
  }

  lemma DecidingReadIsExact(s: Store, c: Client, later: int)
    requires StoreOk(s) && ClientOk(s, c) && IsDeciding(s, c) && later >= s.db.now
    ensures Answer(s, c, later) == Accepts(s.spec, c.hash, later)
  {
    if Answer(s, c, later) {
      AnswerIsSpec(s, c, later);
    }
    if Accepts(s.spec, c.hash, later) {
      var id :| id in s.spec && s.spec[id].hash == c.hash && Tokens.IsValid(s.spec[id], later);
      SpecIsAnswered(s, c, id, later);
    }
  }

  lemma AnswerIsSpec(s: Store, c: Client, later: int)
    requires StoreOk(s) && ClientOk(s, c) && IsDeciding(s, c) && Answer(s, c, later) && later >= s.db.now
    ensures Accepts(s.spec, c.hash, later)
  {
    hide IndexOk, RevokedOk, HashKeysOk;
    assert c.id in s.spec;
    assert SameToken(s.spec[c.id], s.begun[c.id]);
    assert !IsExpired(s.begun[c.id], s.db.now);
    assert Findable(s, c.id);
  }

  lemma SpecIsAnswered(s: Store, c: Client, id: string, later: int)
    requires StoreOk(s) && ClientOk(s, c) && IsDeciding(s, c) && later >= s.db.now
    requires id in s.spec && s.spec[id].hash == c.hash && Tokens.IsValid(s.spec[id], later)
    ensures Answer(s, c, later)
  {
    hide IndexOk, RevokedOk, HashKeysOk;
    assert SameToken(s.spec[id], s.begun[id]);
    assert Findable(s, id);
    assert c.LookingToken?;
    assert c.id == id;
  }
}
