# gimme, verified in Dafny

gimme is a self-hosted CDN: packages are uploaded as zip archives, stored file by file in an
S3-like bucket under `name@version/`, and served over HTTP under exact versions or aliases such as
`1.2`, `1` and `latest`. This project models the layer where its hard decisions are made and proves
what that layer promises, over every input, every interleaving or every run.

`dafny verify dfyconfig.toml` checks all of it.

## What is modelled

The bucket is a map from key to object, listed in byte order. Everything else stands on it.

| Module | Models | Main results |
|---|---|---|
| `ObjectStore` | the storage primitives over the bucket | each primitive's exact effect on the map |
| `Listing`, `Paging` | keyset pagination that hides encoded siblings with a partial key set | the exact condition on a listing under which the walk equals "filter the whole listing, then slice it" for every page size |
| `Upload`, `UploadContents`, `Admission` | concurrent upload with join and rollback, as single steps of workers | confluence, atomicity, what every stored form decodes to, one digest per file, size bounds |
| `Paths`, `Archive`, `ArchiveLaws`, `ArchiveOrder`, `Wrapping`, `Published` | archive entries to object keys | containment, injectivity, exactly which archives are accepted and which entries published, exactly when the order of entries is irrelevant, exactly when a wrapper folder is invisible |
| `Semver`, `Precedence`, `Versions` | reading versions, precedence by section 11 of Semantic Versioning 2.0.0, alias matching and resolution | precedence is the standard's order on the texts, resolution is a true maximum, aliases nest, deletion covers exactly the aliases |
| `Cache`, `Service`, `Runs`, `Reads` | the alias cache, the service's methods, and sequential runs of them | a read reaches the highest stored version that answers it, what was created is read, cached aliases never dangle, stored versions are immutable and isolated |
| `Tokens`, `RedisTokens`, `FileTokens`, `TokenStores`, `TokenLaws` | the set-of-tokens specification and both stores | exactly which hashes are accepted after any history, linearizable lookups, no resurrection, crash safety, both stores indistinguishable |
| `Negotiation`, `Headers` | `Accept-Encoding` and the choice of 200, 404 or 406 | section 12.5.3 of RFC 9110, said of the list a client wrote |
| `Strings`, `Encodings` | order, splitting, extensions, encoded suffixes | shared facts |

Code that changes things step by step keeps that form: the object store, the cache, the content
service and the file token store are classes whose methods update fields, and the loops of
`GetFiles`, of the archive pipeline and of `parseAcceptEncoding` are loops with invariants. Each
method is proved against a function or a relation, and the laws are proved about that. Concurrency
(upload workers, Redis clients) is a machine whose runs are all sequences of single steps.

Three things one might expect are false of the code as they stand, and are given with their exact
condition and an input on which they fail.

- Following `next` does not always collect the visible files. An encoded sibling can be listed as a
  file of its own (`InterposedKeyLeaks`), and a file can be lost when two encoded forms are stored
  without the name they encode (`OrphanVariantIsLost`). `WalkIsExactIff` gives the condition for any
  listing.
- The order of archive entries can decide what is published: `.gimmeignore` and `./.gimmeignore`
  are one path, the first is read and both are dropped (`IgnoreOrderDecides`).
  `OrderIsIrrelevantIff` gives the condition.
- Publishing an archive inside a wrapper folder can change its keys, and can turn a rejected archive
  into an accepted one (`WrappingRevives`). `WrappingIsTransparentIff` gives the condition for any
  archive of clean names.

### Parameters and assumptions

- Media types, digests, compression, the kept-variant ratio, ignore matching and the reading of a
  decimal number are uninterpreted functions. The media-type table decides on the extension alone
  and calls neither `.br` and `.gz` files nor names without an extension compressible (`SaneTable`).
- Glob matching of the cache's scan enters through one law: a literal followed by `*` matches the
  strings it starts (`GlobLaw`). Package folders are proved literal.
- Strings are sequences of code points; their order is the byte order of UTF-8. Names in archives
  are already in Unicode normal form, and header text is ASCII.
- Decoding undoes compressing, encoding by encoding, for some decoder (`Undoes`); nothing else is assumed of either.
- Refused puts and deletions, a put that is reported as failed but stored, cache writes that fail,
  and every failing step of a file flush are inputs, so the results hold for all of them.
- Listings are free of errors and complete: the code logs a listing error and skips the object.
- Page limits are at least 1; the controller clamps them to 1 to 500.
- Token identifiers and hashes are new at each issue (random UUIDs, digests of random bytes), so the
  three families of Redis keys never meet. A Redis key is gone once the clock is past its deadline.
- Encrypting then decrypting the token file is the identity, and torn data does not decrypt.
- The repository's README (line 625) says that deleting a version leaves alias entries of the cache
  untouched. `DeletePackage` invalidates them (content-service.go:519-525); the model follows the code.

## Model

| member | source | states |
|---|---|---|
| ObjectStore.ObjectStorage.ListObjects | internal/storage/objectstorage-manager.go:223-243 | the keys under a prefix and above a cursor, each once, in byte order |
| ObjectStore.ObjectStorage.ListObjectsPage | internal/storage/objectstorage-manager.go:65-91 | the first `limit` keys of the tail of the whole listing, with true sizes, and whether another key follows |
| ObjectStore.ObjectStorage.ListCommonPrefixes | internal/storage/objectstorage-manager.go:94-113 | exactly the immediate children of a prefix, in a store without a nameless object |
| ObjectStore.ObjectStorage.ObjectExists | internal/storage/objectstorage-manager.go:249-273 | some object lies in the folder itself; a sibling with a longer name does not count |
| ObjectStore.ObjectStorage.RemoveObjects | internal/storage/objectstorage-manager.go:295-358 | removes everything under the prefix but what the backend refuses, nothing else, and reports failure exactly when something was refused |
| ObjectStore.ObjectStorage.AddObject | internal/storage/objectstorage-manager.go:162-203 | one put, with the three ways it can end |
| ObjectStore.ListingAboveIsTail | internal/storage/objectstorage-manager.go:73-90 | listing above a cursor is the tail of the whole listing, whether or not the cursor is a key |
| Encodings.IsEncodedVariant | internal/content/content-service.go:481-495 | the loop over both encodings finds a known compressible identity exactly when there is one |
| Encodings.VariantsAreNotCompressible | internal/content/compression.go:39-61 | a `.br` or `.gz` file is never itself compressible, so variants of variants do not arise |
| Encodings.ExtIgnoresDirectory | internal/content/compression.go:40 | the extension that decides compressibility does not depend on the directory, so an entry and its key agree |
| Paging.LearnKeys | internal/content/content-service.go:409-411 | the keys fetched so far hide the fetched keys just as all keys above the cursor would |
| Paging.ScanPage | internal/content/content-service.go:412-425 | one fetched page: the loop stops on the first file too many with the raw cursor in front of it, or has collected all files seen |
| Paging.Round | internal/content/content-service.go:400-429 | one round of the fetch loop keeps the loop's state in step with the specified page |
| Paging.CollectPage | internal/content/content-service.go:384-429 | the fetch loop ends, and collects the page that filtering by the cursor's key set specifies, and one file more exactly if another page follows |
| Paging.ListingOf | internal/content/content-service.go:431-442 | the extra file is held back and its cursor becomes `next`; the total is known exactly for a single first page |
| Service.ContentService.GetFiles | internal/content/content-service.go:374-443 | one call answers the specified page of the resolved version, with true sizes; `totalKnown` exactly when a first page without successor fetched no more raw keys than its limit, and then the files are the complete visible listing and `total` is its size |
| Listing.FirstPageIsExact | internal/content/content-service.go:384-443 | from the start a page is the first `limit` truly visible files, whatever the names |
| Listing.PageShape | internal/content/content-service.go:412-443 | a page cuts the keys above its cursor in two, resumes on the raw key after its last consumed one, and the key left first is a file |
| Listing.NextIsAbove | internal/content/content-service.go:412-443 | progress: `next` is a listed key above the cursor, so fewer keys remain |
| Listing.ResumedPageIsExactIff | internal/content/content-service.go:387-495 | a resumed page is the exact slice for every limit if and only if the cursor seeds each listed identity it needs and no other |
| Listing.WalkIsOrdered | internal/content/content-service.go:374-443 | whatever the names, the pages list keys in order and none twice |
| Listing.WalkLosesNothing | internal/content/content-service.go:374-495 | if every variant's identity is listed, each visible file appears exactly once and in order, and any extra is a true variant |
| Listing.WalkIsExactIff | internal/content/content-service.go:374-495 | for any listing, the pages equal the visible files for every page size if and only if no names straddle and none can be lost |
| Listing.WalkIsExact | internal/content/content-service.go:374-495 | then also all pages but the last are full and an advertised page is never empty |
| Listing.ListedAndAdjacentSuffices | internal/content/content-service.go:374-495 | it holds if every variant's identity is listed and only a file's own variants sort between it and them |
| Listing.OnlyVariantsBetweenSuffices | internal/content/content-service.go:445-458 | if only a file's own variants sort between it and them, no names straddle |
| Listing.BoundaryPage | internal/content/content-service.go:400-458 | a page that starts right before a visible file, with no more files per page than lie below it, consumes exactly what filtering by the whole listing would |
| Listing.LossLoses | internal/content/content-service.go:445-495 | wherever a file can be lost, some page size loses it |
| Listing.StraddleLeaks | internal/content/content-service.go:445-495 | wherever names straddle, some page size lists a variant as a file |
| Listing.ForgottenVariantLeaks | internal/content/content-service.go:445-495 | a variant whose identity lies below the cursor and is not seeded by it is listed by some later page, for every page size |
| Listing.OrphanVariantIsLost | internal/content/content-service.go:448-458 | the failing input: two variants without their identity, of which one is lost and the advertised page is empty |
| Listing.InterposedKeyLeaks | internal/content/content-service.go:445-495 | with two keys interposed, a variant leaks although every identity is listed |
| Semver.FullSemverIff | internal/content/content-service.go:263-267 | the string test for a full version holds exactly when three numbers are written, although it cuts at `-` before `+` |
| Semver.ValidAvoids | internal/content/content-service.go:253-267 | a valid version is not empty and holds neither `/` nor `@` |
| Semver.PrecedesIsTotalOrder | internal/content/content-service.go:127 | section 11 precedence is irreflexive, transitive and total on ranks |
| Semver.SortSorts | internal/content/content-service.go:127 | sorting by precedence, ties by text, gives an ordered permutation |
| Semver.SortedIsUnique | internal/content/content-service.go:145 | there is one sorted arrangement, so the listing's order cannot matter |
| Precedence.NumberOrder | internal/content/content-service.go:127 | numbers as written compare as the numbers they write: by length, then from the left |
| Precedence.PrecedesIsSection11 | internal/content/content-service.go:127 | the order used for sorting is section 11 on the texts: the first differing number decides, a pre-release is below its release, digits are below letters, a proper prefix is below its extension |
| Precedence.ParseRoundTrip | internal/content/content-service.go:263-267 | every well-formed version is read back from its text, and every text that is read is the text of what it is read as |
| Precedence.GrammarExamples | internal/content/content-service.go:263-267 | what the grammar takes and refuses, on concrete versions |
| Precedence.StandardExamples | internal/content/content-service.go:127 | 1.9.0 is below 1.10.0, and links of the standard's own chain of pre-releases |
| Versions.SliceInvertsFolder | api/package-controller.go:64-86 | `name@version` and the parser of slugs are mutual inverses |
| Versions.FoldersAreDisjoint | internal/content/content-service.go:253-280 | no key lies in the folders of two identities |
| Versions.FullVersionMatches | internal/content/content-service.go:90-112 | the requests a full version answers: itself and, when stable, `latest`, its major and its major.minor |
| Versions.ResolveIsHighest | internal/content/content-service.go:115-129 | resolution answers a match that no match is above, and answers exactly when there is a match |
| Versions.ResolveDominates | internal/content/content-service.go:115-129 | no match has higher rank than the answer; `ResolvedIsNotBelow` says it of the texts |
| Precedence.ResolvedIsNotBelow | internal/content/content-service.go:115-129 | once a candidate matches there is an answer, a matching candidate that section 11 puts below no match |
| Versions.ResolveIgnoresOrder | internal/content/content-service.go:115-129 | the answer depends on which versions are listed, not on order or repetition |
| Versions.AliasesNest | internal/content/content-service.go:90-129 | M.m is at most M, and M at most `latest`, whenever the narrower alias resolves |
| Versions.ListedIsDescending | internal/content/content-service.go:132-151 | the version list holds exactly the full versions, highest first |
| Precedence.ListedIsNotBelow | internal/content/content-service.go:132-151 | in the version list no text is below a later one by section 11 |
| Versions.LatestIsFirstStable | internal/content/content-service.go:90-151 | `latest` is the first stable item of the version list |
| Versions.AliasesCoverMatches | internal/content/content-service.go:532-551 | every alias a version can answer is invalidated with it, and a stable version answers every alias invalidated |
| Versions.MutableAliasPrefixes | internal/content/content-service.go:537-551 | the loop builds exactly the alias prefixes of the version |
| Cache.RedisCache.Get | internal/cache/redis-cache.go:24-40 | the stored entry, or a miss |
| Cache.RedisCache.Set | internal/cache/redis-cache.go:43-55 | the entry under its key and no other change |
| Cache.RedisCache.DeleteByPrefix | internal/cache/redis-cache.go:68-95 | the scan loop deletes exactly the matching keys on the pages before the one that fails, if one does, and reports the failure |
| Cache.LiteralDeletion | internal/cache/redis-cache.go:68-95 | without a failure and for a literal prefix, that is exactly the keys the prefix starts, whatever the order and repetition of the scan |
| Cache.VersionIsLiteral | internal/cache/redis-cache.go:69 | a valid version holds no character special to the pattern |
| Cache.AliasesAreLiteral | internal/content/content-service.go:537-551 | nor does any alias of one |
| Service.ContentService.ResolveVersion | internal/content/content-service.go:115-129 | the method answers a stored match that section 11, on the texts, puts below no stored match, and answers exactly if there is a stored match |
| Service.ContentService.ListVersions | internal/content/content-service.go:132-151 | the method answers the sorted list of the bucket's full versions, nothing for an invalid name |
| Service.ContentService.GetEncodedObject | internal/content/content-service.go:355-371 | the first accepted encoding that is stored, tried only for compressible names, else the identity |
| Service.ContentService.GetFile | internal/content/content-service.go:295-342 | which object a read addresses, from the cache or by resolution, and what it leaves in the cache |
| Reads.PinnedAddressesItself | internal/content/content-service.go:318-342 | a pinned version addresses its own file, and neither reads nor changes the cache |
| Reads.AliasAddressesHighest | internal/content/content-service.go:295-342 | any other request without a cached answer addresses the file in the highest stored version that answers it; with none, the folder of its own text |
| Reads.GetCachesHighest | internal/content/content-service.go:295-342 | the only entry a read adds is that path under that alias |
| Reads.ReadIsRemembered | internal/content/content-service.go:295-342 | a remembered read is repeated until its entry goes, whatever becomes of the bucket |
| Reads.EarlyReadSticks | internal/content/content-service.go:295-342 | the failing input for fresh aliases: one read before any version answers it is remembered under its own text, and a version uploaded later does not change that |
| Reads.CreatedIsRead | internal/content/content-service.go:154-342 | a file just created is found, with the object stored for it, by every request its version answers, when no other stored answer sorts above it and no cached answer is older |
| Reads.HighestStableIsRead | internal/content/content-service.go:154-342 | so the exact version and its aliases find a new highest stable version |
| Service.ContentService.DeletePackage | internal/content/content-service.go:498-530 | the new bucket and cache: the version's folder removed, its own prefix and all alias prefixes swept as far as the cache answers unless a removal was refused; the caller hears of refused removals, not of cache failures |
| Service.InvalidateVersion | internal/content/content-service.go:511-526 | the cache calls together remove exactly the entries under the version or one of its aliases that some call reached; a failing call does not stop the others |
| Runs.StepKeepsVersion | internal/content/content-service.go:154-178 | one operation changes a stored version's objects only by deleting that version |
| Runs.VersionIsImmutable | internal/content/content-service.go:154-178 | over every run, a stored version keeps exactly its objects until it is deleted itself |
| Runs.DeleteIsExact | internal/content/content-service.go:498-509 | a deletion empties its own version and keeps every other key |
| Runs.CandidatesAreStored | internal/content/content-service.go:116-123 | the candidates listed for a package are exactly its stored full versions |
| Runs.StepKeepsBucketOk | internal/content/content-service.go:154-178 | every key of the bucket always lies in the folder of one valid identity |
| Runs.StepKeepsCacheOk | internal/content/content-service.go:295-342 | each operation keeps every cached alias pointing at itself or at a stored version it matches |
| Runs.AliasesNeverDangle | internal/content/content-service.go:295-342 | so does every run of operations, from any state in which it holds |
| Runs.NoAliasEverDangles | internal/content/content-service.go:295-342 | in every run from the empty state no cached alias points at a version that is gone |
| Runs.NothingPointsAtDeleted | internal/content/content-service.go:498-530 | right after a deletion no cached path lies in the deleted folder |
| Upload.OwnersAreUnique | internal/content/content-service.go:228-232 | no key is written for two entries: generated variants meet neither archive entries nor each other |
| Upload.ApplyKeepsInv | internal/content/content-service.go:196-240 | each step of each worker keeps stored objects as specified, unwritten keys unwritten and the rest of the bucket untouched |
| Upload.UploadIsConfluent | internal/content/content-service.go:176-250 | every all-success run ends in the initial store plus one function of the archive, each key written exactly once |
| Upload.JoinedIsFinal | internal/content/content-service.go:242-244 | after the join no step changes anything |
| Upload.RollbackRestores | internal/content/content-service.go:242-280 | whichever workers failed and however far the others got, the rollback gives back exactly the initial store |
| Upload.PartialRollback | internal/content/content-service.go:269-280 | a rollback refused some deletions leaves at most objects of the new version |
| Upload.EarlyRollbackLeaks | internal/content/content-service.go:242-244 | without the join the property fails: a rollback before a pending write is undone by it |
| Upload.OneDigestPerFile | internal/content/content-service.go:201-240 | identity and encoded forms of a compressible entry, generated or supplied, carry the digest of its decoded bytes |
| Upload.ReadsReportOneDigest | internal/content/content-service.go:346-371 | so every representation a read can choose for it reports that digest |
| Upload.TargetIsSmall | internal/content/content-service.go:213-237 | an upload stores at most three objects per entry |
| UploadContents.IdentitiesAreStored | internal/content/content-service.go:196-211 | after any successful upload into a new folder every entry is stored under its key, byte for byte |
| UploadContents.EncodedFormIsStoredIff | internal/content/content-service.go:213-237 | an encoded form is stored exactly if the archive supplies it, or compression is on, the entry is compressible and of 1 KiB to 8 MiB, and the form is worth keeping |
| UploadContents.EncodedFormDecodes | internal/content/compression.go:97-102 | a generated form decodes, in the encoding its suffix names, to the bytes of its entry |
| UploadContents.FolderHoldsForms | internal/content/content-service.go:196-240 | the folder holds nothing but entries and encoded forms of entries |
| UploadContents.DigestOfEntry | internal/content/content-service.go:201-206 | an entry that encodes another, compressible one carries that one's digest, any other its own |
| UploadContents.ReadsAreTheEntry | internal/content/content-service.go:346-371 | whatever a read of an entry chooses is its bytes, an encoded form the archive brought along, or a form that decodes to its bytes |
| Paths.CleanIsIdempotent | internal/content/archive-keys.go:69 | cleaning a cleaned name changes nothing |
| Paths.ProperIsClean | internal/content/archive-keys.go:69 | a path of proper segments is its own clean form |
| Paths.CleanRules | internal/content/archive-keys.go:69 | rule by rule: empty segments and `.` vanish, and `..` takes back the segment before it |
| Paths.EscapesIff | internal/content/archive-keys.go:69-72 | the prefix checks let a cleaned name through exactly when all its segments are proper |
| Archive.ValidatedEntries | internal/content/archive-keys.go:54-87 | rejected exactly if a file entry has a bad name or nothing is left; otherwise the cleaned non-junk files, in order |
| Archive.SingleTopLevelFolder | internal/content/archive-keys.go:96-113 | the common first segment, if every name has one |
| Archive.WrapperIff | internal/content/archive-keys.go:96-113 | it is the one folder that holds every file: a matter of the set of names |
| Archive.FindIgnoreFile | internal/content/archive-keys.go:118-137 | the root ignore file, else the one inside the wrapper |
| Archive.ApplyIgnoreFile | internal/content/archive-keys.go:141-173 | keeps what the selected ignore file does not exclude, itself excluded |
| Archive.KeysDecideNames | internal/content/archive-keys.go:195-218 | stripping the wrapper never makes two different names collide |
| Archive.ObjectKeys | internal/content/archive-keys.go:195-218 | rejected exactly when two kept files have the same cleaned name; otherwise the keys |
| Archive.ArchiveKeys | internal/content/archive-keys.go:38-50 | the composition of the three stages |
| ArchiveLaws.KeysAreContainedAndDistinct | internal/content/archive-keys.go:38-50 | every accepted key is the folder plus a non-empty path without empty, `.` or `..` segments, and keys differ |
| Published.AcceptedIff | internal/content/archive-keys.go:38-218 | an archive is accepted if and only if every file entry has an admissible name, the ignore file can be read, something is left, and what is left has different names |
| Published.PublishedIff | internal/content/archive-keys.go:54-173 | an accepted archive publishes exactly its files that are neither below `__MACOSX`, nor named `.DS_Store`, nor left out by the ignore file |
| Published.KeysAreCleanNames | internal/content/archive-keys.go:195-218 | every key is the folder and the clean name, without the first folder if all published names share one |
| ArchiveOrder.OrderIsIrrelevantIff | internal/content/archive-keys.go:38-218 | no reordering changes the outcome under any patterns if and only if the entries are rejected as they stand, or those at the ignore path read alike, or they are readable and every other name is duplicated |
| ArchiveOrder.OrderIsIrrelevant | internal/content/archive-keys.go:38-218 | under that condition reordering changes neither acceptance, nor the reason of a rejection, nor the objects |
| ArchiveOrder.ChoiceMatters | internal/content/archive-keys.go:118-173 | otherwise some patterns and some order give a different outcome |
| ArchiveOrder.IgnoreOrderDecides | internal/content/archive-keys.go:118-173 | the failing input: `.gimmeignore` and `./.gimmeignore`, rejected in one order and accepted in the other |
| Wrapping.WrappingIsTransparent | internal/content/archive-keys.go:96-173 | an archive without a wrapper of its own has the same outcome and keys inside a folder |
| Wrapping.WrappingIsTransparentIff | internal/content/archive-keys.go:96-218 | for any archive of clean names, wrapping leaves keys or reason for rejection as they are if and only if the archive has no wrapper of its own, or is a bad request with two files of one name |
| Wrapping.WrappingRevives | internal/content/archive-keys.go:118-173 | the failing input: a folder whose ignore file excludes everything is rejected alone and published whole inside another folder |
| Admission.CheckArchiveLimits | internal/content/archive-keys.go:223-245 | the saturating 64-bit sum decides exactly if there are more files or more declared bytes than a positive limit allows |
| Admission.CountsAreExact | internal/content/archive-keys.go:223-236 | without metadata and ignore file, the two sums are those of what is published |
| Admission.Admit | internal/content/content-service.go:154-183 | the checks of an upload in their order, each refusal with its exact reason, and the keys of an upload that passes all |
| Admission.AcceptedIsCounted | internal/content/archive-keys.go:38-50 | what is accepted is no more, and declares no more bytes, than what was counted |
| Admission.LayoutSuitsUpload | internal/content/content-service.go:180-188 | accepted keys are distinct and lie in the version's folder, as the upload needs |
| Admission.AdmittedIsBounded | internal/content/content-service.go:154-188 | an admitted upload stores at most three times the allowed entries and its identities declare at most the allowed bytes |
| Admission.UploadEndsAsCreate | internal/content/content-service.go:154-251 | every interleaving with every failure ends as one create step of the sequential runs: all objects, none, or part of the new version when the rollback was refused |
| Tokens.AgreeAccepts | internal/auth/auth-manager.go:143-155 | sets with the same unexpired, equally revoked tokens accept the same hashes, now and later |
| RedisTokens.CommandOk | internal/auth/redis-token-store.go:85-258 | every single command of every operation keeps the store's invariant and what the client has read |
| RedisTokens.ExecOk | internal/auth/redis-token-store.go:85-258 | so does every interleaving of operations, vanishing clients and passing time, and what is gone stays gone |
| RedisTokens.NeverResurrected | internal/auth/redis-token-store.go:174-230 | a token whose key is gone, deleted or expired, is never seen again, whatever revocations are in flight; a key whose deadline the script dropped at a remaining time of zero is not gone |
| RedisTokens.ExpiredForGood | internal/auth/redis-token-store.go:185-196 | a token past its own expiry is never accepted again, dropped deadline or not |
| RedisTokens.StepMovesSpec | internal/auth/redis-token-store.go:85-258 | the set of tokens moves only by the command of a save adding its own living token, of a revocation revoking its own, or of a deletion removing its own |
| RedisTokens.RevokedForGood | internal/auth/redis-token-store.go:203-230 | once a revocation returned true, no read in any continuation sees the token unrevoked, nor takes it for valid at any time |
| RedisTokens.LiveTokensStayListed | internal/auth/redis-token-store.go:124-172 | a saved token stays in the index while it lives, despite lazy pruning |
| RedisTokens.LookupsAreLinear | internal/auth/redis-token-store.go:124-144 | linearizable lookups: in every reachable state the last read of a two-read lookup answers what that set of tokens answers at that moment |
| FileTokens.Disk.Replace | internal/auth/file-token-store.go:157-186 | whichever step fails, the token file is at every moment the old one or the synced new one |
| FileTokens.FileTokenStore.Snapshot | internal/auth/file-token-store.go:141-145 | every stored token exactly once, in any order |
| FileTokens.FileTokenStore.Flush | internal/auth/file-token-store.go:140-187 | memory unchanged, and the file holds it in full after success and what it held before otherwise |
| FileTokens.CrashRecovers | internal/auth/file-token-store.go:157-186 | a power loss at any moment of a flush leaves the tokens before or the tokens after |
| FileTokens.FileTokenStore.Save | internal/auth/file-token-store.go:273-285 | a private copy enters both indexes, which still agree if and only if no other token claims either key |
| FileTokens.InsertAgreesIff | internal/auth/file-token-store.go:277-279 | the same about the two maps alone |
| FileTokens.FileTokenStore.GetByHash | internal/auth/file-token-store.go:288-298 | a fresh copy of the stored token with the hash, if there is one |
| FileTokens.FileTokenStore.Authenticate | internal/auth/auth-manager.go:143-155 | accepts a hash exactly if a stored token has it, is not revoked and has not expired |
| FileTokens.FileTokenStore.List | internal/auth/file-token-store.go:301-314 | every stored token once, newest first, as fresh copies |
| FileTokens.FileTokenStore.Revoke | internal/auth/file-token-store.go:321-337 | the write through the id index is the revocation in the whole set; false and no change for an unknown id |
| FileTokens.FileTokenStore.Delete | internal/auth/file-token-store.go:341-356 | the token leaves both indexes and no other does |
| FileTokens.FileTokenStore.PurgeExpired | internal/auth/file-token-store.go:240-259 | exactly the tokens whose expiry has passed leave both indexes, and a flush happens exactly if there were any |
| FileTokens.PurgeIsInvisible | internal/auth/file-token-store.go:240-259 | a purge changes no answer at that time or later |
| FileTokens.FileTokenStore.Load | internal/auth/file-token-store.go:109-134 | a file that holds a set of tokens is read back as that set, with indexes that agree if and only if its hashes differ |
| FileTokens.Open | internal/auth/file-token-store.go:67-89 | a restart rebuilds the store from the file, or fails exactly on data that does not decrypt |
| TokenStores.DriveFile | internal/auth/file-token-store.go:240-356 | over every run of events with any flush faults, the store's memory is the specified run and its invariant, file included, holds |
| TokenStores.RedisStepIsSpec | internal/auth/redis-token-store.go:85-258 | one complete Redis operation does what the set of tokens does, up to tokens that have expired |
| TokenStores.StoresAreIndistinguishable | internal/auth/auth-manager.go:135-158 | after every run both stores accept exactly the hashes the set of issued tokens accepts, then and later |
| TokenLaws.AcceptedIff | internal/auth/auth-manager.go:135-158 | after every history of events, at its end and at any later time, each store accepts a hash exactly if a token with it was issued, not revoked or deleted since, and has not expired |
| TokenLaws.TakenBackForGood | internal/auth/auth-manager.go:135-158 | once an issued token is revoked or deleted, neither store accepts its hash after any continuation, at any later time |
| TokenLaws.DriveAndAuthenticate | internal/auth/auth-manager.go:135-158 | the same condition for the file store's own methods, after any history with any flush faults |
| Negotiation.ReadQualities | api/content-negotiation.go:29-55 | the map holds the highest quality any valid entry gives each coding |
| Negotiation.OwnIsBest | api/content-negotiation.go:51-54 | that quality is given by some entry and exceeded by none |
| Headers.ItemIsRead | api/content-negotiation.go:30-49 | one item as clients write it (blanks around every part, either letter case, any weights under `q` or `Q`, other parameters, or nothing at all) is read as its lower-case token with its last weight, 1 if none is written, and dropped if it is empty or a weight is invalid |
| Headers.HeaderIsRead | api/content-negotiation.go:29-55 | a header is read item by item, in order; an empty item or an invalid weight drops only itself |
| Headers.NegotiatedAsWritten | api/content-negotiation.go:24-96 | the outcome said of the list written: an encoding is offered exactly if its weight is positive, the heavier first and Brotli on a tie; the unencoded form is acceptable unless it weighs nothing |
| Negotiation.ParseAcceptEncoding | api/content-negotiation.go:24-96 | the encodings section 12.5.3 accepts, each once, by falling quality and Brotli first on ties, and whether the unencoded form is acceptable |
| Negotiation.NegotiationIgnoresOrder | api/content-negotiation.go:24-96 | there is one such outcome, whatever the order of the entries |
| Negotiation.AnswersAreAcceptable | api/package-controller.go:275-302 | a 200 carries a stored, acceptable coding that no other such precedes; the unencoded form is served only if acceptable and nothing acceptable is stored encoded; 404 only if nothing fits |
| Negotiation.NotAcceptableIff | api/package-controller.go:298-302 | with the unencoded form stored, 406 exactly when it is refused and no acceptable encoding is stored |
| Negotiation.GetPackage | api/package-controller.go:255-302 | the handler on the service as it is answers that for the object the request addresses |

## Left out

- Headers.ItemIsRead: items outside the grammar (blanks within a token or around `=`, a `q` without `=`, an empty parameter) are not rendered; what the parser makes of them is said by `ReadQualities` alone.
- Admission.Admit: reading the directory of the zip file, between the size check and the limits, is not modelled.
- HTTP routing, conditional requests, templates, the command line, metrics, logging and configuration: no property beyond each single body.
- S3, Redis and PostgreSQL themselves, network errors and contexts; the PostgreSQL token store, where SQL does the work.
- Identity provider login, basic authentication, key derivation, encryption, hashing and random generation: foreign cryptography.
- ZIP parsing, Unicode normalisation, media-type tables, Brotli and gzip, gitignore patterns: parameters of the model.
- Size parsing, the 0.8 compression ratio and the reading of q-values as text: floating point; qualities are reals and the ratio is a predicate.
- Races between complete service operations: resolving then caching is not atomic with a deletion, nor the existence test with another upload of the same version, and the code does not promise more. The runs of `Runs` are sequential; the workers of one upload and all Redis clients interleave freely.
- Runs in which a cache call fails during a deletion: `DeletePackage` models the failure, and entries it leaves may dangle until they expire, which the code accepts.
- Freshness of a cached alias after a newer upload: the code bounds it by the time to live only. `EarlyReadSticks` shows that the entry stays, also one made before any version answered the alias; so a cached alias may point at itself even when a version answers it.
- Leftover temporary files and directory syncing of the token file: they decide no answer.
- The limit on concurrent workers of an upload: every schedule is covered, those beyond the limit included.
- `path.Clean` on absolute names: the code rejects them first.
- RedisTokens.RevokeScript: when the remaining time reads as zero the script drops the deadline, and the model does the same; keeping the exact deadline is not claimed.
- FileTokens.FileTokenStore.Save: after a save that clashes with another token's key only the disagreement of the indexes is stated, not what later calls do; `CreateToken` never saves one.
- Listing limits as text, link headers and the HTML view of a listing: they would only add easy members.
