/** What is in the bucket after a successful upload (internal/content/content-service.go:196-240),
    object by object and said of the archive alone: the bytes of every identity, what every
    encoded form decodes to, which encoded forms there are, and the digest each carries. */
module UploadContents {
  import opened Encodings
  import opened ObjectStore
  import opened Upload
  import Service

  type Decoder = (Encoding, seq<byte>) -> seq<byte>

  /** Decoding undoes compressing, encoding by encoding. */
  ghost predicate Undoes(decode: Decoder, cfg: Config)
  {
    forall e, data :: decode(e, cfg.compress(e, data)) == data
  }

  /** The key of an encoded form. */
  function EncodedKey(key: string, e: Encoding): string
  {
    if e.Brotli? then key + ".br" else key + ".gz"
  }

  /** An upload into a new folder that succeeded, whatever the interleaving. */
  ghost predicate Succeeded(cfg: Config, es: seq<Entry>, b0: Bucket, moves: seq<Move>, folder: string, b: Bucket)
  {
    && DistinctKeys(es) && KeysUnderFolder(es, folder) && !Exists(b0, folder)
    && var s := Exec(cfg, es, Initial(b0, es), moves); AllDone(s) && b == s.bucket
  }

  lemma SucceededIsTarget(cfg: Config, es: seq<Entry>, b0: Bucket, moves: seq<Move>, folder: string, b: Bucket)
    requires Succeeded(cfg, es, b0, moves, folder, b)
    ensures b == b0 + Target(cfg, es)
    ensures forall k :: folder + "/" <= k && k in b ==> k in Target(cfg, es) && b[k] == Target(cfg, es)[k]
    ensures forall k :: k in Target(cfg, es) ==> k in b && b[k] == Target(cfg, es)[k]
  {
    hide Target, Exec, KeysUnderFolder, DistinctKeys, AllDone, Initial, Exists;
    UploadIsConfluent(cfg, es, b0, moves);
    forall k | folder + "/" <= k
      ensures k !in b0
    {
      NotInInitial(b0, folder, k);
    }
  }

  lemma TargetOwner(cfg: Config, es: seq<Entry>, i: nat, key: string)
    requires DistinctKeys(es) && i < |es| && key in Owned(cfg, es, i)
    ensures key in Target(cfg, es) && Target(cfg, es)[key] == ObjectOf(cfg, es, i, key)
  {
    hide Owned, ObjectOf;
    assert key in AllKeys(cfg, es);
    OwnersAreUnique(cfg, es, i, Owner(cfg, es, key), key);
  }

  /** Every archive entry is stored under its key, byte for byte. */
  lemma IdentitiesAreStored(cfg: Config, es: seq<Entry>, b0: Bucket, moves: seq<Move>, folder: string, b: Bucket, i: nat)
    requires Succeeded(cfg, es, b0, moves, folder, b) && i < |es|
    ensures es[i].key in b && b[es[i].key].data == es[i].data
  {
    SucceededIsTarget(cfg, es, b0, moves, folder, b);
    assert es[i].key in Owned(cfg, es, i);
    TargetOwner(cfg, es, i, es[i].key);
    hide Succeeded, Target, Owned;
  }

  /** An encoded form of an entry is stored exactly if the archive supplies it, or if compression
      is on, the entry is compressible and of 1 KiB to 8 MiB, and the form is worth keeping. */
  lemma EncodedFormIsStoredIff(cfg: Config, es: seq<Entry>, b0: Bucket, moves: seq<Move>, folder: string, b: Bucket, i: nat, e: Encoding)
    requires Succeeded(cfg, es, b0, moves, folder, b) && i < |es|
    ensures EncodedKey(es[i].key, e) in b <==>
            || HasKey(es, EncodedKey(es[i].key, e))
            || (cfg.enabled && Compressible(cfg.table, es[i].name) && 1024 <= es[i].size <= 8 * 1024 * 1024 && cfg.keeps(e, es[i].data))
  {
    var key := EncodedKey(es[i].key, e);
    SucceededIsTarget(cfg, es, b0, moves, folder, b);
    assert folder + "/" <= es[i].key <= key;
    EncodedIsOwnedIff(cfg, es, i, e);
    hide Succeeded, Generates, Owned;
  }

  lemma EncodedIsOwnedIff(cfg: Config, es: seq<Entry>, i: nat, e: Encoding)
    requires DistinctKeys(es) && i < |es|
    ensures EncodedKey(es[i].key, e) in Target(cfg, es) <==> HasKey(es, EncodedKey(es[i].key, e)) || Generates(cfg, es, i, e)
  {
    var key := EncodedKey(es[i].key, e);
    assert key == es[i].key + Suffix(e);
    StemOfVariant(es[i].key, e);
    if HasKey(es, key) {
      var j: nat :| j < |es| && es[j].key == key;
      TargetOwner(cfg, es, j, key);
    } else if Generates(cfg, es, i, e) {
      assert e in Generated(cfg, es, i);
      assert key in VariantKeys(es, i, Generated(cfg, es, i));
      TargetOwner(cfg, es, i, key);
    }
    if key in Target(cfg, es) && !HasKey(es, key) {
      GeneratedFrom(cfg, es, i, e);
    }
  }

  /** A key no entry supplied was generated from the entry its stem names, in the encoding its
      suffix names. */
  lemma GeneratedFrom(cfg: Config, es: seq<Entry>, i: nat, e: Encoding)
    requires DistinctKeys(es) && i < |es|
    requires var key := EncodedKey(es[i].key, e); key in Target(cfg, es) && !HasKey(es, key)
    ensures Generates(cfg, es, i, e) && EncodedKey(es[i].key, e) in Owned(cfg, es, i)
  {
    var key := EncodedKey(es[i].key, e);
    var j := Owner(cfg, es, key);
    var f := OwnedOtherwise(cfg, es, j, key);
    StemOfVariant(es[i].key, e);
    StemOfVariant(es[j].key, f);
    assert es[j].key == es[i].key;
    assert j == i;
    SuffixesDiffer(es[i].key, e, f);
  }

  /** A key of an entry that no entry supplied is one of its generated forms. */
  lemma OwnedOtherwise(cfg: Config, es: seq<Entry>, j: nat, key: string) returns (f: Encoding)
    requires j < |es| && key in Owned(cfg, es, j) && !HasKey(es, key)
    ensures f in Generated(cfg, es, j) && key == es[j].key + Suffix(f)
  {
    assert HasKey(es, es[j].key);
    hide Generated, HasKey;
    f :| f in Generated(cfg, es, j) && key == es[j].key + Suffix(f);
  }

  lemma SuffixesDiffer(key: string, e: Encoding, f: Encoding)
    requires EncodedKey(key, e) == key + Suffix(f)
    ensures e == f
  {
    var n := |key|;
    assert EncodedKey(key, e)[n + 1] == if e.Brotli? then 'b' else 'g';
    assert (key + Suffix(f))[n + 1] == if f.Brotli? then 'b' else 'g';
  }

  /** A generated form decodes, in the encoding its suffix names, to the bytes of its entry. */
  lemma EncodedFormDecodes(cfg: Config, decode: Decoder, es: seq<Entry>, b0: Bucket, moves: seq<Move>, folder: string, b: Bucket, i: nat, e: Encoding)
    requires Succeeded(cfg, es, b0, moves, folder, b) && i < |es| && Undoes(decode, cfg)
    requires var key := EncodedKey(es[i].key, e); key in b && !HasKey(es, key)
    ensures decode(e, b[EncodedKey(es[i].key, e)].data) == es[i].data
  {
    var key := EncodedKey(es[i].key, e);
    SucceededIsTarget(cfg, es, b0, moves, folder, b);
    assert folder + "/" <= es[i].key <= key;
    GeneratedFrom(cfg, es, i, e);
    TargetOwner(cfg, es, i, key);
    EncodedIsCompressed(cfg, es, i, e);
    hide Succeeded, Target, Owned, Generates, HasKey, ObjectOf;
  }

  lemma EncodedIsCompressed(cfg: Config, es: seq<Entry>, i: nat, e: Encoding)
    requires i < |es|
    ensures ObjectOf(cfg, es, i, EncodedKey(es[i].key, e)).data == cfg.compress(e, es[i].data)
  {
    assert |EncodedKey(es[i].key, e)| == |es[i].key| + 3;
    if EncodedKey(es[i].key, e) == es[i].key + Suffix(Brotli) {
      SuffixesDiffer(es[i].key, e, Brotli);
    }
    hide Integrity;
  }

  /** Nothing else is in the folder. */
  lemma FolderHoldsForms(cfg: Config, es: seq<Entry>, b0: Bucket, moves: seq<Move>, folder: string, b: Bucket, key: string)
    requires Succeeded(cfg, es, b0, moves, folder, b) && key in b && folder + "/" <= key && !HasKey(es, key)
    ensures exists i: nat, e :: i < |es| && key == EncodedKey(es[i].key, e)
  {
    SucceededIsTarget(cfg, es, b0, moves, folder, b);
    hide Succeeded, HasKey, Generated, Owned;
    var j := Owner(cfg, es, key);
    var e := OwnedOtherwise(cfg, es, j, key);
    assert key == EncodedKey(es[j].key, e);
  }

  /** An entry that is not an encoded form of another, compressible one carries the digest of its
      own bytes; an encoded form carries the digest of what it encodes. */
  lemma DigestOfEntry(cfg: Config, es: seq<Entry>, b0: Bucket, moves: seq<Move>, folder: string, b: Bucket, i: nat)
    requires Succeeded(cfg, es, b0, moves, folder, b) && i < |es|
    ensures es[i].key in b
    ensures (forall j: nat, e :: j < |es| && es[i].key == EncodedKey(es[j].key, e) ==> !Compressible(cfg.table, es[j].key)) ==>
              b[es[i].key].integrity == cfg.digest(es[i].data)
    ensures forall j: nat, e :: j < |es| && es[i].key == EncodedKey(es[j].key, e) && Compressible(cfg.table, es[j].key) ==>
              b[es[i].key].integrity == cfg.digest(es[j].data)
  {
    SucceededIsTarget(cfg, es, b0, moves, folder, b);
    assert es[i].key in Owned(cfg, es, i);
    TargetOwner(cfg, es, i, es[i].key);
    SourceOfDigest(cfg, es, i);
    hide Succeeded, Target, Owned, Integrity, Compressible;
  }

  lemma SourceOfDigest(cfg: Config, es: seq<Entry>, i: nat)
    requires DistinctKeys(es) && i < |es|
    ensures (forall j: nat, e :: j < |es| && es[i].key == EncodedKey(es[j].key, e) ==> !Compressible(cfg.table, es[j].key)) ==>
              Integrity(cfg, es, i) == cfg.digest(es[i].data)
    ensures forall j: nat, e :: j < |es| && es[i].key == EncodedKey(es[j].key, e) && Compressible(cfg.table, es[j].key) ==>
              Integrity(cfg, es, i) == cfg.digest(es[j].data)
  {
    hide Compressible, HasStem, Stem, EncodedKey, HasKey;
    var source := HashSource(cfg, es, i);
    forall j: nat, e | j < |es| && es[i].key == EncodedKey(es[j].key, e)
      ensures HasStem(es[i].key) && Stem(es[i].key) == es[j].key && HasKey(es, es[j].key)
    {
      StemOfEncoded(es, j, e);
    }
    if source != i {
      var e := VariantOfStem(es[i].key);
      EncodedByStem(es[i].key, e);
    }
  }

  lemma StemOfEncoded(es: seq<Entry>, j: nat, e: Encoding)
    requires j < |es|
    ensures var key := EncodedKey(es[j].key, e); HasStem(key) && Stem(key) == es[j].key && HasKey(es, es[j].key)
  {
    StemOfVariant(es[j].key, e);
  }

  lemma EncodedByStem(key: string, e: Encoding)
    requires HasStem(key) && key == Stem(key) + Suffix(e)
    ensures key == EncodedKey(Stem(key), e)
  {
  }

  /** Main result. Whatever a read of an entry can choose after the upload is the entry: its bytes
      as they are, or an encoded form the archive brought along, or one that decodes to them. */
  lemma ReadsAreTheEntry(cfg: Config, decode: Decoder, es: seq<Entry>, b0: Bucket, moves: seq<Move>, folder: string, b: Bucket,
                         i: nat, file: string, accepted: seq<Encoding>)
    requires Succeeded(cfg, es, b0, moves, folder, b) && i < |es| && Undoes(decode, cfg)
    ensures var chosen := Service.Representation(b, cfg.table, es[i].key, file, accepted);
            if chosen.None? then es[i].key in b && b[es[i].key].data == es[i].data
            else
              var key := EncodedKey(es[i].key, chosen.value);
              chosen.value in accepted && key in b && (HasKey(es, key) || decode(chosen.value, b[key].data) == es[i].data)
  {
    RepresentationIsStored(b, cfg.table, es[i].key, file, accepted);
    var chosen := Service.Representation(b, cfg.table, es[i].key, file, accepted);
    hide Service.Representation, Succeeded, Undoes, HasKey;
    IdentitiesAreStored(cfg, es, b0, moves, folder, b, i);
    if chosen.Some? {
      assert es[i].key + Suffix(chosen.value) == EncodedKey(es[i].key, chosen.value);
      if !HasKey(es, EncodedKey(es[i].key, chosen.value)) {
        EncodedFormDecodes(cfg, decode, es, b0, moves, folder, b, i, chosen.value);
      }
    }
  }
}
