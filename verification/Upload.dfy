/** The concurrent part of `CreatePackage` (internal/content/content-service.go:176-250) as a
    machine over single steps: one worker per archive entry, each hashing, uploading the
    identity object, compressing, and uploading generated variants. A run is any sequence of
    moves; a move that is not enabled does nothing, so every interleaving is a run, those the
    worker limit excludes included. */
module Upload {
  import opened Strings
  import opened Encodings
  import opened ObjectStore
  import Service

  const COMPRESSION_MIN_SIZE := 1024
  const COMPRESSION_MAX_SIZE := 0x80_0000

  /** One archive entry that becomes an object: its key, its name in the archive, its bytes and
      its declared size. */
  datatype Entry = Entry(key: string, name: string, data: seq<byte>, size: nat)

  /** The foreign functions: media types, digest, compression, and whether a compressed form is
      small enough to keep. */
  datatype Config = Config(table: string -> bool, digest: seq<byte> -> string,
                           compress: (Encoding, seq<byte>) -> seq<byte>, keeps: (Encoding, seq<byte>) -> bool,
                           enabled: bool)

  predicate DistinctKeys(es: seq<Entry>)
  {
    forall i, j :: 0 <= i < j < |es| ==> es[i].key != es[j].key
  }

  predicate HasKey(es: seq<Entry>, key: string)
  {
    exists i :: 0 <= i < |es| && es[i].key == key
  }

  // ---------------------------------------------------------------- what each entry stores

  /** `encodedVariantSource` (content-service.go:464-479): a variant supplied by the archive
      takes the digest of the entry it encodes. */
  ghost function HashSource(cfg: Config, es: seq<Entry>, i: nat): nat
    requires i < |es|
    ensures HashSource(cfg, es, i) < |es|
  {
    var key := es[i].key;
    if HasStem(key) && HasKey(es, Stem(key)) && Compressible(cfg.table, Stem(key)) then
      var j: nat :| j < |es| && es[j].key == Stem(key);
      j
    else i
  }

  ghost function Integrity(cfg: Config, es: seq<Entry>, i: nat): string
    requires i < |es|
  {
    cfg.digest(es[HashSource(cfg, es, i)].data)
  }

  /** The encodings the upload generates for an entry. */
  predicate Generates(cfg: Config, es: seq<Entry>, i: nat, e: Encoding)
    requires i < |es|
  {
    && cfg.enabled
    && Compressible(cfg.table, es[i].name)
    && COMPRESSION_MIN_SIZE <= es[i].size <= COMPRESSION_MAX_SIZE
    && cfg.keeps(e, es[i].data)
    && !HasKey(es, es[i].key + Suffix(e))
  }

  function Generated(cfg: Config, es: seq<Entry>, i: nat): set<Encoding>
    requires i < |es|
  {
    (if Generates(cfg, es, i, Brotli) then {Brotli} else {}) + (if Generates(cfg, es, i, Gzip) then {Gzip} else {})
  }

  function VariantKeys(es: seq<Entry>, i: nat, encodings: set<Encoding>): set<string>
    requires i < |es|
  {
    set e | e in encodings :: es[i].key + Suffix(e)
  }

  /** The keys entry i is responsible for. */
  function Owned(cfg: Config, es: seq<Entry>, i: nat): set<string>
    requires i < |es|
  {
    {es[i].key} + VariantKeys(es, i, Generated(cfg, es, i))
  }

  /** The object entry i stores under one of its keys. */
  ghost function ObjectOf(cfg: Config, es: seq<Entry>, i: nat, key: string): Object
    requires i < |es|
  {
    var data := es[i].data;
    Object(if key == es[i].key then data
           else if key == es[i].key + Suffix(Brotli) then cfg.compress(Brotli, data)
           else cfg.compress(Gzip, data),
           Integrity(cfg, es, i))
  }

  predicate IsOwned(cfg: Config, es: seq<Entry>, key: string)
  {
    exists i: nat :: i < |es| && key in Owned(cfg, es, i)
  }

  function AllKeys(cfg: Config, es: seq<Entry>): set<string>
  {
    set i: nat, k | i < |es| && k in Owned(cfg, es, i) :: k
  }

  ghost function Owner(cfg: Config, es: seq<Entry>, key: string): nat
    requires IsOwned(cfg, es, key)
    ensures Owner(cfg, es, key) < |es| && key in Owned(cfg, es, Owner(cfg, es, key))
  {
    var i: nat :| i < |es| && key in Owned(cfg, es, i);
    i
  }

  /** What a complete upload stores, a function of the archive alone. */
  ghost function Target(cfg: Config, es: seq<Entry>): Bucket
  {
    map k | k in AllKeys(cfg, es) :: ObjectOf(cfg, es, Owner(cfg, es, k), k)
  }

  lemma VariantKeyIsNew(cfg: Config, es: seq<Entry>, i: nat, key: string)
    requires i < |es| && key in VariantKeys(es, i, Generated(cfg, es, i))
    ensures !HasKey(es, key) && HasStem(key) && Stem(key) == es[i].key
  {
    var e :| e in Generated(cfg, es, i) && key == es[i].key + Suffix(e);
    StemOfVariant(es[i].key, e);
  }

  /** No key belongs to two entries: generated variants never meet an archive entry, nor each
      other. */
  lemma OwnersAreUnique(cfg: Config, es: seq<Entry>, i: nat, j: nat, key: string)
    requires DistinctKeys(es) && i < |es| && j < |es|
    requires key in Owned(cfg, es, i) && key in Owned(cfg, es, j)
    ensures i == j
  {
    if key != es[i].key {
      VariantKeyIsNew(cfg, es, i, key);
    }
    if key != es[j].key {
      VariantKeyIsNew(cfg, es, j, key);
    }
    hide HasStem, Stem, Generated;
    assert HasKey(es, es[i].key) && HasKey(es, es[j].key);
  }

  // ---------------------------------------------------------------- the machine

  /** Where one worker stands. `Writing` holds the variants still to be uploaded. */
  datatype Worker = Start | Hashed | Compressing | Writing(pending: set<Encoding>) | Done | Failed

  datatype State = State(bucket: Bucket, workers: seq<Worker>, log: seq<string>)

  /** One step of one worker. `ok` is the fate of hashing or compressing, `put` that of an
      upload, `encoding` the variant taken next. */
  datatype Move = Move(worker: nat, ok: bool, put: PutOutcome, encoding: Encoding)

  ghost function Write(cfg: Config, es: seq<Entry>, s: State, i: nat, key: string, put: PutOutcome, then': Worker): State
    requires i < |es| == |s.workers|
  {
    State(Put(s.bucket, key, ObjectOf(cfg, es, i, key), put),
          s.workers[i := if put.Stored? then then' else Failed],
          if put.Refused? then s.log else s.log + [key])
  }

  function AfterWrites(pending: set<Encoding>): Worker
  {
    if pending == {} then Done else Writing(pending)
  }

  ghost function Apply(cfg: Config, es: seq<Entry>, s: State, m: Move): State
    requires |es| == |s.workers|
    ensures |Apply(cfg, es, s, m).workers| == |es|
  {
    var i := m.worker;
    if i >= |es| then s
    else
      match s.workers[i]
      case Start => s.(workers := s.workers[i := if m.ok then Hashed else Failed])
      case Hashed =>
        Write(cfg, es, s, i, es[i].key, m.put, if Generated(cfg, es, i) == {} then Done else Compressing)
      case Compressing => s.(workers := s.workers[i := if m.ok then Writing(Generated(cfg, es, i)) else Failed])
      case Writing(pending) =>
        if m.encoding !in pending then s
        else Write(cfg, es, s, i, es[i].key + Suffix(m.encoding), m.put, AfterWrites(pending - {m.encoding}))
      case Done => s
      case Failed => s
  }

  ghost function Exec(cfg: Config, es: seq<Entry>, s: State, moves: seq<Move>): State
    requires |es| == |s.workers|
    ensures |Exec(cfg, es, s, moves).workers| == |es|
    decreases |moves|
  {
    if moves == [] then s else Exec(cfg, es, Apply(cfg, es, s, moves[0]), moves[1..])
  }

  function Initial(b: Bucket, es: seq<Entry>): State
  {
    State(b, seq(|es|, _ => Start), [])
  }

  /** What `eg.Wait` waits for. */
  predicate Joined(s: State)
  {
    forall i :: 0 <= i < |s.workers| ==> s.workers[i].Done? || s.workers[i].Failed?
  }

  predicate AllDone(s: State)
  {
    forall i :: 0 <= i < |s.workers| ==> s.workers[i].Done?
  }

  // ---------------------------------------------------------------- the invariant

  /** The keys a worker may still write. */
  function Left(cfg: Config, es: seq<Entry>, i: nat, w: Worker): set<string>
    requires i < |es|
  {
    match w
    case Start => Owned(cfg, es, i)
    case Hashed => Owned(cfg, es, i)
    case Compressing => VariantKeys(es, i, Generated(cfg, es, i))
    case Writing(pending) => VariantKeys(es, i, pending)
    case Done => {}
    case Failed => {}
  }

  /** Worker i is consistent with the store: what it may still write is not written, and unless
      it failed everything else it owns is stored as specified. */
  ghost predicate WorkerOk(cfg: Config, es: seq<Entry>, s: State, i: nat)
    requires i < |es| == |s.workers|
  {
    var w := s.workers[i];
    && (w.Writing? ==> w.pending <= Generated(cfg, es, i))
    && (forall k :: k in Left(cfg, es, i, w) ==> k !in s.log)
    && (!w.Failed? ==> forall k :: k in Owned(cfg, es, i) && k !in Left(cfg, es, i, w) ==>
          k in s.log && k in s.bucket && s.bucket[k] == ObjectOf(cfg, es, i, k))
  }

  ghost predicate Inv(cfg: Config, es: seq<Entry>, b0: Bucket, s: State)
  {
    && |s.workers| == |es|
    && (forall i: nat :: i < |es| ==> WorkerOk(cfg, es, s, i))
    && NoDuplicates(s.log)
    && (forall k :: k in s.log ==> IsOwned(cfg, es, k))
    && (forall k :: k !in s.log ==> (k in s.bucket <==> k in b0) && (k in b0 ==> s.bucket[k] == b0[k]))
    && (forall k :: k in b0 ==> k in s.bucket)
  }

  lemma InitialInv(cfg: Config, es: seq<Entry>, b0: Bucket)
    ensures Inv(cfg, es, b0, Initial(b0, es))
  {
  }

  /** A write by worker i touches no other worker's keys. */
  lemma WriteKeepsInv(cfg: Config, es: seq<Entry>, b0: Bucket, s: State, i: nat, key: string, put: PutOutcome, then': Worker)
    requires DistinctKeys(es) && Inv(cfg, es, b0, s) && i < |es|
    requires key in Owned(cfg, es, i) && key in Left(cfg, es, i, s.workers[i])
    requires Left(cfg, es, i, then') == Left(cfg, es, i, s.workers[i]) - {key}
    requires !s.workers[i].Failed? && !then'.Failed?
    requires then'.Writing? ==> then'.pending <= Generated(cfg, es, i)
    ensures Inv(cfg, es, b0, Write(cfg, es, s, i, key, put, then'))
  {
    hide Owned, Left, ObjectOf, Generated;
    var next := Write(cfg, es, s, i, key, put, then');
    assert WorkerOk(cfg, es, s, i);
    assert key !in s.log;
    forall j: nat | j < |es|
      ensures WorkerOk(cfg, es, next, j)
    {
      assert WorkerOk(cfg, es, s, j) && WorkerOk(cfg, es, s, i);
      if j != i {
        OthersKeepKeys(cfg, es, s, i, j, key);
      } else if next.workers[i].Failed? {
        NothingLeftToFailed(cfg, es, i);
      }
    }
  }

  lemma NothingLeftToFailed(cfg: Config, es: seq<Entry>, i: nat)
    requires i < |es|
    ensures Left(cfg, es, i, Failed) == {}
  {
  }

  lemma LeftIsOwned(cfg: Config, es: seq<Entry>, i: nat, w: Worker)
    requires i < |es| && (w.Writing? ==> w.pending <= Generated(cfg, es, i))
    ensures Left(cfg, es, i, w) <= Owned(cfg, es, i)
  {
  }

  lemma OthersKeepKeys(cfg: Config, es: seq<Entry>, s: State, i: nat, j: nat, key: string)
    requires DistinctKeys(es) && i < |es| == |s.workers| && j < |es| && j != i
    requires WorkerOk(cfg, es, s, j) && key in Owned(cfg, es, i)
    ensures key !in Owned(cfg, es, j) && key !in Left(cfg, es, j, s.workers[j])
  {
    LeftIsOwned(cfg, es, j, s.workers[j]);
    if key in Owned(cfg, es, j) {
      OwnersAreUnique(cfg, es, i, j, key);
    }
  }

  /** A step that writes nothing. */
  lemma MoveKeepsInv(cfg: Config, es: seq<Entry>, b0: Bucket, s: State, i: nat, w: Worker)
    requires Inv(cfg, es, b0, s) && i < |es|
    requires w.Failed? || (w.Writing? ==> w.pending <= Generated(cfg, es, i))
    requires w.Failed? || (!s.workers[i].Failed? && Left(cfg, es, i, w) == Left(cfg, es, i, s.workers[i]))
    ensures Inv(cfg, es, b0, s.(workers := s.workers[i := w]))
  {
    hide Owned, Left, ObjectOf, Generated;
    var next := s.(workers := s.workers[i := w]);
    NothingLeftToFailed(cfg, es, i);
    forall j: nat | j < |es|
      ensures WorkerOk(cfg, es, next, j)
    {
      assert WorkerOk(cfg, es, s, j);
    }
  }

  /** Every step of every worker keeps the invariant. */
  lemma ApplyKeepsInv(cfg: Config, es: seq<Entry>, b0: Bucket, s: State, m: Move)
    requires DistinctKeys(es) && Inv(cfg, es, b0, s)
    ensures Inv(cfg, es, b0, Apply(cfg, es, s, m))
  {
    hide Inv, WorkerOk, ObjectOf, Generates;
    var i := m.worker;
    if i < |es| {
      WorkerIsOk(cfg, es, b0, s, i);
      match s.workers[i]
      case Start =>
        MoveKeepsInv(cfg, es, b0, s, i, if m.ok then Hashed else Failed);
      case Hashed =>
        var then' := if Generated(cfg, es, i) == {} then Done else Compressing;
        IdentityIsNoVariant(cfg, es, i);
        WriteKeepsInv(cfg, es, b0, s, i, es[i].key, m.put, then');
      case Compressing =>
        MoveKeepsInv(cfg, es, b0, s, i, if m.ok then Writing(Generated(cfg, es, i)) else Failed);
      case Writing(pending) =>
        if m.encoding in pending {
          VariantsAreDistinct(es, i, pending, m.encoding);
          WriteKeepsInv(cfg, es, b0, s, i, es[i].key + Suffix(m.encoding), m.put, AfterWrites(pending - {m.encoding}));
        }
      case Done =>
      case Failed =>
    }
  }

  lemma WorkerIsOk(cfg: Config, es: seq<Entry>, b0: Bucket, s: State, i: nat)
    requires Inv(cfg, es, b0, s) && i < |es|
    ensures |s.workers| == |es|
    ensures s.workers[i].Writing? ==> s.workers[i].pending <= Generated(cfg, es, i)
  {
    assert WorkerOk(cfg, es, s, i);
  }

  lemma IdentityIsNoVariant(cfg: Config, es: seq<Entry>, i: nat)
    requires i < |es|
    ensures es[i].key !in VariantKeys(es, i, Generated(cfg, es, i))
    ensures Generated(cfg, es, i) == {} ==> VariantKeys(es, i, Generated(cfg, es, i)) == {}
  {
    forall e: Encoding
      ensures es[i].key != es[i].key + Suffix(e)
    {
      assert |es[i].key + Suffix(e)| == |es[i].key| + 3;
    }
  }

  lemma VariantsAreDistinct(es: seq<Entry>, i: nat, pending: set<Encoding>, e: Encoding)
    requires i < |es| && e in pending
    ensures VariantKeys(es, i, pending - {e}) == VariantKeys(es, i, pending) - {es[i].key + Suffix(e)}
    ensures VariantKeys(es, i, {}) == {}
    ensures es[i].key + Suffix(e) in VariantKeys(es, i, pending)
  {
    forall f: Encoding | f != e
      ensures es[i].key + Suffix(f) != es[i].key + Suffix(e)
    {
      var n := |es[i].key|;
      assert (es[i].key + Suffix(f))[n..] == Suffix(f) && (es[i].key + Suffix(e))[n..] == Suffix(e);
      assert Suffix(f)[1] != Suffix(e)[1];
    }
  }

  lemma {:induction false} ExecKeepsInv(cfg: Config, es: seq<Entry>, b0: Bucket, s: State, moves: seq<Move>)
    requires DistinctKeys(es) && Inv(cfg, es, b0, s)
    ensures Inv(cfg, es, b0, Exec(cfg, es, s, moves))
    decreases |moves|
  {
    hide Inv, Apply;
    if moves != [] {
      assert |s.workers| == |es| by {
        InvLength(cfg, es, b0, s);
      }
      ApplyKeepsInv(cfg, es, b0, s, moves[0]);
      ExecKeepsInv(cfg, es, b0, Apply(cfg, es, s, moves[0]), moves[1..]);
    }
  }

  lemma InvLength(cfg: Config, es: seq<Entry>, b0: Bucket, s: State)
    requires Inv(cfg, es, b0, s)
    ensures |s.workers| == |es|
  {
  }

  // ---------------------------------------------------------------- confluence

  /** Main result. In every run in which every worker succeeds, whatever the interleaving, the
      store ends as the initial one plus a function of the archive, and every key of that
      function is written exactly once, no other key at all. */
  lemma UploadIsConfluent(cfg: Config, es: seq<Entry>, b0: Bucket, moves: seq<Move>)
    requires DistinctKeys(es)
    ensures var s := Exec(cfg, es, Initial(b0, es), moves);
            AllDone(s) ==>
              && s.bucket == b0 + Target(cfg, es)
              && NoDuplicates(s.log) && forall k :: k in s.log <==> k in AllKeys(cfg, es)
  {
    InitialInv(cfg, es, b0);
    ExecKeepsInv(cfg, es, b0, Initial(b0, es), moves);
    var s := Exec(cfg, es, Initial(b0, es), moves);
    if AllDone(s) {
      DoneStoresTarget(cfg, es, b0, s);
    }
  }

  lemma DoneStoresTarget(cfg: Config, es: seq<Entry>, b0: Bucket, s: State)
    requires DistinctKeys(es) && Inv(cfg, es, b0, s) && AllDone(s)
    ensures s.bucket == b0 + Target(cfg, es)
    ensures NoDuplicates(s.log) && forall k :: k in s.log <==> k in AllKeys(cfg, es)
  {
    hide Owned, ObjectOf, Generated;
    forall k | k in AllKeys(cfg, es)
      ensures k in s.log && k in s.bucket && s.bucket[k] == Target(cfg, es)[k]
    {
      var i := Owner(cfg, es, k);
      assert WorkerOk(cfg, es, s, i);
      assert s.workers[i].Done?;
    }
    forall k | k in s.log
      ensures k in AllKeys(cfg, es)
    {
      var i: nat :| i < |es| && k in Owned(cfg, es, i);
    }
  }

  /** Once joined, no move of any worker changes anything: nothing is written after the wait. */
  lemma {:induction false} JoinedIsFinal(cfg: Config, es: seq<Entry>, s: State, moves: seq<Move>)
    requires |s.workers| == |es| && Joined(s)
    ensures Exec(cfg, es, s, moves) == s
    decreases |moves|
  {
    if moves != [] {
      JoinedIsFinal(cfg, es, s, moves[1..]);
    }
  }

  // ---------------------------------------------------------------- rollback

  predicate KeysUnderFolder(es: seq<Entry>, folder: string)
  {
    forall i :: 0 <= i < |es| ==> folder + "/" <= es[i].key
  }

  lemma OwnedIsUnderFolder(cfg: Config, es: seq<Entry>, folder: string, key: string)
    requires KeysUnderFolder(es, folder) && IsOwned(cfg, es, key)
    ensures folder + "/" <= key
  {
    var i: nat :| i < |es| && key in Owned(cfg, es, i);
    if key != es[i].key {
      var e :| e in Generated(cfg, es, i) && key == es[i].key + Suffix(e);
      assert folder + "/" <= es[i].key <= key;
    }
  }

  /** What a run leaves outside the folder is what was there; inside, only keys it owns. */
  lemma RunStaysInFolder(cfg: Config, es: seq<Entry>, b0: Bucket, moves: seq<Move>, folder: string, k: string)
    requires DistinctKeys(es) && KeysUnderFolder(es, folder)
    ensures var b := Exec(cfg, es, Initial(b0, es), moves).bucket;
            !(folder + "/" <= k) ==> (k in b <==> k in b0) && (k in b0 ==> b[k] == b0[k])
    ensures k in b0 ==> k in Exec(cfg, es, Initial(b0, es), moves).bucket
  {
    InitialInv(cfg, es, b0);
    ExecKeepsInv(cfg, es, b0, Initial(b0, es), moves);
    var s := Exec(cfg, es, Initial(b0, es), moves);
    hide IsOwned, Exec;
    if k in s.log {
      OwnedIsUnderFolder(cfg, es, folder, k);
    }
  }

  /** Main result. Whichever workers fail and however far the others got, removing the folder
      of the new version gives back exactly the initial store. */
  lemma RollbackRestores(cfg: Config, es: seq<Entry>, b0: Bucket, moves: seq<Move>, folder: string)
    requires DistinctKeys(es) && KeysUnderFolder(es, folder) && !Exists(b0, folder)
    ensures RemoveUnder(Exec(cfg, es, Initial(b0, es), moves).bucket, folder + "/") == b0
  {
    var b := Exec(cfg, es, Initial(b0, es), moves).bucket;
    hide Exec;
    forall k
      ensures k in RemoveUnder(b, folder + "/") <==> k in b0
      ensures k in b0 ==> RemoveUnder(b, folder + "/")[k] == b0[k]
    {
      RunStaysInFolder(cfg, es, b0, moves, folder, k);
    }
  }

  /** A rollback that is refused some deletions leaves the initial store plus objects of the new
      version only. */
  lemma PartialRollback(cfg: Config, es: seq<Entry>, b0: Bucket, moves: seq<Move>, folder: string, refused: set<string>)
    returns (added: Bucket)
    requires DistinctKeys(es) && KeysUnderFolder(es, folder) && !Exists(b0, folder)
    ensures RemoveUnderExcept(Exec(cfg, es, Initial(b0, es), moves).bucket, folder + "/", refused) == b0 + added
    ensures forall k :: k in added ==> folder + "/" <= k && k in refused
  {
    var b := Exec(cfg, es, Initial(b0, es), moves).bucket;
    hide Exec;
    added := map k | k in b && folder + "/" <= k && k in refused :: b[k];
    var left := RemoveUnderExcept(b, folder + "/", refused);
    forall k
      ensures k in left <==> k in b0 + added
      ensures k in left ==> left[k] == (b0 + added)[k]
    {
      RunStaysInFolder(cfg, es, b0, moves, folder, k);
    }
  }

  /** Why the wait comes first: a rollback between hashing and uploading is undone by the
      upload that follows it. */
  lemma EarlyRollbackLeaks(cfg: Config, e: Entry, folder: string)
    requires folder + "/" <= e.key
    ensures var hashed := Exec(cfg, [e], Initial(map[], [e]), [Move(0, true, Stored, Brotli)]);
            var rolledBack := hashed.(bucket := RemoveUnder(hashed.bucket, folder + "/"));
            e.key in Apply(cfg, [e], rolledBack, Move(0, true, Stored, Brotli)).bucket
  {
    var m := Move(0, true, Stored, Brotli);
    var hashed := Apply(cfg, [e], Initial(map[], [e]), m);
    assert [m][1..] == [];
    assert Exec(cfg, [e], Initial(map[], [e]), [m]) == hashed;
  }

  // ---------------------------------------------------------------- integrity

  /** Main result. For a compressible entry, the identity and both encoded forms, generated or
      supplied by the archive, carry the digest of the identity's bytes. */
  lemma OneDigestPerFile(cfg: Config, es: seq<Entry>, i: nat, key: string)
    requires DistinctKeys(es) && SaneTable(cfg.table) && i < |es| && Compressible(cfg.table, es[i].key)
    requires key == es[i].key || (HasStem(key) && Stem(key) == es[i].key)
    ensures key in Target(cfg, es) ==> Target(cfg, es)[key].integrity == cfg.digest(es[i].data)
  {
    if key in Target(cfg, es) {
      var j := Owner(cfg, es, key);
      if HasStem(es[i].key) {
        VariantsAreNotCompressible(cfg.table, es[i].key);
      }
      DigestOfOwner(cfg, es, i, j, key);
    }
    hide Owned, Integrity, HasStem, Stem, Compressible;
  }

  lemma DigestOfOwner(cfg: Config, es: seq<Entry>, i: nat, j: nat, key: string)
    requires DistinctKeys(es) && i < |es| && j < |es| && key in Owned(cfg, es, j) && Compressible(cfg.table, es[i].key)
    requires !HasStem(es[i].key) && (key == es[i].key || (HasStem(key) && Stem(key) == es[i].key))
    ensures Integrity(cfg, es, j) == cfg.digest(es[i].data)
  {
    assert HasKey(es, es[i].key);
    if key != es[j].key {
      VariantKeyIsNew(cfg, es, j, key);
    }
    hide Owned, HasStem, Stem, Compressible;
  }

  /** After a successful upload every representation a read of a compressible file can choose
      carries one and the same digest, that of the archive entry. */
  lemma ReadsReportOneDigest(cfg: Config, es: seq<Entry>, b0: Bucket, i: nat, folder: string, file: string, accepted: seq<Encoding>)
    requires DistinctKeys(es) && SaneTable(cfg.table) && i < |es| && Compressible(cfg.table, es[i].key)
    requires KeysUnderFolder(es, folder) && !Exists(b0, folder)
    requires es[i].key == folder + file && file != "" && file[0] == '/'
    ensures var b := b0 + Target(cfg, es);
            var chosen := Service.Representation(b, cfg.table, es[i].key, file, accepted);
            var key := if chosen.Some? then es[i].key + Suffix(chosen.value) else es[i].key;
            && key in b && b[key].integrity == cfg.digest(es[i].data)
            && (chosen.Some? ==> chosen.value in accepted)
  {
    var b := b0 + Target(cfg, es);
    var chosen := Service.Representation(b, cfg.table, es[i].key, file, accepted);
    var key := if chosen.Some? then es[i].key + Suffix(chosen.value) else es[i].key;
    RepresentationIsStored(b, cfg.table, es[i].key, file, accepted);
    if chosen.Some? {
      StemOfVariant(es[i].key, chosen.value);
    }
    hide Target, Owned, HasStem, Stem, Service.Representation;
    IdentityIsTarget(cfg, es, i);
    assert folder + "/" <= es[i].key <= key;
    NotInInitial(b0, folder, key);
    OneDigestPerFile(cfg, es, i, key);
  }

  lemma NotInInitial(b0: Bucket, folder: string, key: string)
    requires !Exists(b0, folder) && folder + "/" <= key
    ensures key !in b0
  {
  }

  lemma IdentityIsTarget(cfg: Config, es: seq<Entry>, i: nat)
    requires i < |es|
    ensures es[i].key in Target(cfg, es)
  {
    assert es[i].key in Owned(cfg, es, i);
  }

  lemma {:induction false} RepresentationIsStored(b: Bucket, table: string -> bool, path: string, file: string, accepted: seq<Encoding>)
    ensures var chosen := Service.Representation(b, table, path, file, accepted);
            chosen.Some? ==> chosen.value in accepted && path + Suffix(chosen.value) in b && Compressible(table, file)
  {
    if Compressible(table, file) && accepted != [] && path + Suffix(accepted[0]) !in b {
      RepresentationIsStored(b, table, path, file, accepted[1..]);
    }
  }

  // ---------------------------------------------------------------- size of an upload

  lemma OwnedIsSmall(cfg: Config, es: seq<Entry>, i: nat)
    requires i < |es|
    ensures |Owned(cfg, es, i)| <= 3
  {
    var all := {es[i].key, es[i].key + Suffix(Brotli), es[i].key + Suffix(Gzip)};
    assert Owned(cfg, es, i) <= all;
    SubsetIsSmaller(Owned(cfg, es, i), all);
  }

  lemma {:induction false} SubsetIsSmaller(a: set<string>, b: set<string>)
    requires a <= b
    ensures |a| <= |b|
  {
    if a != {} {
      var x :| x in a;
      SubsetIsSmaller(a - {x}, b - {x});
    }
  }

  function OwnedUpTo(cfg: Config, es: seq<Entry>, n: nat): set<string>
    requires n <= |es|
  {
    if n == 0 then {} else OwnedUpTo(cfg, es, n - 1) + Owned(cfg, es, n - 1)
  }

  lemma {:induction false} OwnedUpToIsSmall(cfg: Config, es: seq<Entry>, n: nat)
    requires n <= |es|
    ensures |OwnedUpTo(cfg, es, n)| <= 3 * n
  {
    hide Owned;
    if n > 0 {
      OwnedUpToIsSmall(cfg, es, n - 1);
      OwnedIsSmall(cfg, es, n - 1);
      UnionIsSmall(OwnedUpTo(cfg, es, n - 1), Owned(cfg, es, n - 1));
    }
  }

  lemma UnionIsSmall(a: set<string>, b: set<string>)
    ensures |a + b| <= |a| + |b|
  {
    assert a + b == a + (b - a);
    SubsetIsSmaller(b - a, b);
  }

  lemma {:induction false} OwnedUpToHas(cfg: Config, es: seq<Entry>, n: nat, i: nat, k: string)
    requires i < n <= |es| && k in Owned(cfg, es, i)
    ensures k in OwnedUpTo(cfg, es, n)
  {
    hide Owned;
    if i < n - 1 {
      OwnedUpToHas(cfg, es, n - 1, i, k);
    }
  }

  /** A complete upload stores at most three objects per entry. */
  lemma TargetIsSmall(cfg: Config, es: seq<Entry>)
    ensures |Target(cfg, es)| <= 3 * |es|
  {
    hide Owned, OwnedUpTo;
    OwnedUpToIsSmall(cfg, es, |es|);
    forall i: nat, k | i < |es| && k in Owned(cfg, es, i)
      ensures k in OwnedUpTo(cfg, es, |es|)
    {
      OwnedUpToHas(cfg, es, |es|, i, k);
    }
    assert AllKeys(cfg, es) <= OwnedUpTo(cfg, es, |es|);
    SubsetIsSmaller(AllKeys(cfg, es), OwnedUpTo(cfg, es, |es|));
    assert Target(cfg, es).Keys == AllKeys(cfg, es);
  }
}
