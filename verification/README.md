# Capsule artifact stores: a verified model

The Go library builds signature-free "Capsules" (canonical JSON payloads named by their SHA-256), and keeps each
Capsule together with its producer envelope and its named originals ("artifacts") in one of three stores: a JSONL
file, SQLite or MySQL. This project models the stores, the gates every record passes, the strict JSON decoder they rest
on, and the two construction steps whose outcome must not depend on argument order, and proves what the library
promises of them over every input and every run.

`dafny verify dfyconfig.toml` checks the whole project.

## What is modelled

- **The lifecycle.** `Lifecycle` is the contract the three stores share, as a state machine on a list of stored records:
  Init, Put, Get, Purge and reopening. `LifecycleRuns` proves its safety over whole runs. `JsonlRefinement` proves that
  the file with its index of byte ranges, and `SqlRefinement` that the two tables with their stored checksum, answer as
  that state machine does on every run. `Equivalence` compares the backends. What `LifecycleRuns` proves therefore holds
  of each backend: read it with `wire = true` for the file and `wire = false` for the tables. `Safety` says the central
  results of the file and of the tables themselves, and `Failures` carries them over runs in which operations fail.
- **The stores as written.** `JsonlStore` has the file, the line scanner, `scanIndex`, `Put`, `Get`, `Purge` and
  `rewrite` with the input and output steps that can fail; `SqlStore` has the tables, the transaction, in which any step
  can go wrong, and the store; `Retry` has MySQL's retried `Put`. Each method is proved against a function of the old
  state, and those functions are what the refinement theorems speak about.
- **The gates.** `Admission` (`Prepare`, `Verify`, `digestAt`), `Acceptance`, which says of the record itself what they
  accept and why they refuse, `Checksum` (`StorageChecksum`, and what it hashes), and `Ownership`, which has `Prepare`
  and `StorageChecksum` once more on heap buffers, where aliasing with the caller's slices could show.
- **The wire form.** `LineCodec`, `LineShape`, `Base64`, `JsonText`, and `Wire`, where the written line is spelled out
  literally.
- **The strict decoder.** `Json` (the loops over a stateful token reader) and `JsonTrees` (its printer inverse, its exact
  acceptance condition and its normal form).
- **Construction.** `Composition` and `Extensions`.

## Conventions

- A byte is the character with the same code, below 256; a file is a string of such characters.
- Code that the library calls and does not contain is a field of `Records.Platform`, an arbitrary total function:
  SHA-256, the UTF-8 check, the tokeniser, the profile and Class 1 check of a decoded Capsule, the envelope check, the
  way the JSON writer passes on raw JSON, the digest of a decoded value, the JSON reader (`unmarshal` for a whole record,
  `peek` for the Capsule ID alone), `sort.Slice` (`sortSlice`) and `ORDER BY name` (`orderBy`).
- `LineShape.Lawful` is everything assumed of them: a digest is 64 lowercase hexadecimal digits, ASCII is valid UTF-8, both
  sorts sort by name (neither need be stable), and the JSON reader gives a line in the form the library writes the
  meaning `LineCodec.Decode` gives it. On any other line the reader may answer anything.
  `Consistency.Satisfiable` shows that the assumptions can hold together on a platform that admits originals.
- Collision freedom is never assumed of the hash as a whole, which no function into 64 digits could satisfy. A theorem
  that needs it names the two inputs that must not collide (`Records.NoCollision`).
- Retention states, digest fields and composition slots are datatypes with a case for "any other string"; their texts
  occur in `LineCodec`, where reading and writing them is proved to round-trip.
- A nil slice is `None`, an empty one `Some("")`.
- Errors are the library's error classes and MySQL's deadlock; `Failed` stands for every other error.

## Where the code surprises

- `content,omitempty` drops an empty, non-nil content. A Present artifact of zero bytes passes `Put` on the JSONL store,
  is read back as nil and from then on makes `Get` answer the invalid-record error until it is purged; the SQL stores
  return it, provided the driver hands an empty blob back as an empty, non-nil slice. `Safety.EmptyContentOnBackends`
  gives the exact condition, and `Consistency.EmptyOriginalIsLost` exhibits it.
- `rewrite` ignores the parse error that makes `scanIndex` skip a line, so after a purge the index can hold a line that
  reopening the file would not. `Rewriting.RewriteIndex` gives the exact condition, `Rewriting.RewriteIndexesBrokenLine`
  a family of files for which it fails and `BrokenFiles.PurgeIndexesBrokenLine` one of them; files the store wrote itself
  always satisfy it (`JsonlRefinement.FromAbsentFile`).
- `Purge` marshals the record it read, whoever wrote the line, and does not look at the length. A line of a few megabytes
  that leaves fields out can grow past the 16 MiB scanner buffer; the purge then reports success, and every later `New`
  and `Purge` of the file fails. `JsonlStore.PurgeReopens` gives the exact condition, a length that can be computed before
  the rename; `BrokenFiles.PurgeBreaksFile` gives a file; records that `Put` accepted never grow so
  (`Lifecycle.AdmittedLineFits`).
- Offsets advance by the scanned length plus one, but the scanner strips a CR. `Lines.OffsetDrift` gives the error exactly,
  for every line of every file that scans; `BrokenFiles.CRHidesRecord` gives a file on which `Get` cannot find the record.
- `Purge` does not verify, and a purged record still verifies only if the original carried its digest, which `Prepare`
  fills in (`Admission.PurgeVerifies`); `BrokenFiles.PurgeInvalidates` gives a file on which it does not.

## Model

| member | source | states |
|---|---|---|
| Json.DecodeJsonValue | build.go:529-587 | the loops over the stateful decoder, filling a map and a slice, compute the recursive decoder, leave the reader exactly behind the value, and terminate by the tokens left |
| Json.DecodeStrictJson | build.go:510-527 | one value and then the end of the input, or a refusal: trailing values and trailing garbage are both rejected |
| JsonTrees.DecodePrint | build.go:529-587 | on the tokens of any tree, followed by anything, the decoder takes exactly those tokens, returns the tree with every -0 read as 0, and succeeds if and only if keys are distinct and the depth is at most 1000 |
| JsonTrees.DecodeExact | build.go:529-587 | for arbitrary tokens: it returns v and stops before rest if and only if the tokens are the printing of an acceptable tree denoting v, followed by rest |
| JsonTrees.StrictExact | build.go:510-527 | for a whole text: a value is returned if and only if the tokens are the printing of exactly one acceptable tree denoting it, followed by the end of the input and not by an error |
| JsonTrees.DepthOfValue | build.go:18-18 | the depth the limit counts is a property of the value, so reordering members cannot change acceptance |
| JsonTrees.Redecode | build.go:539-543 | a decoded value holds no negative zero, and any printing of it, in any member order and followed by anything, decodes to it again |
| JsonTrees.SameValueIffSameText | build.go:529-587 | two trees denote the same value if and only if they differ only in member order and in the sign of zeros |
| JsonTrees.SameDecoding | build.go:510-587 | any two texts decode alike if and only if both are refused, for a repeated key or their depth, or both are accepted and differ only in member order and the sign of zeros |
| JsonTrees.Printable | digest.go:30-40 | every value without negative zero is what some tree denotes, so the normal form loses no value |
| Base64.DecodeEncode | artifact/record.go:64-64 | RFC 4648 section 4: decoding undoes encoding on every byte string |
| Base64.EncodeDecode | artifact/record.go:64-64 | the reader of this project (not the library's, of which nothing is assumed beyond written lines) accepts nothing but encodings: re-encoding what it read gives back the text, padding bits included |
| Base64.EncodeShape | artifact/record.go:64-64 | the exact length, and that only alphabet letters and padding occur |
| Wire.Vectors | artifact/record.go:64-64 | the published test vectors of RFC 4648, section 10 |
| Wire.LastLetters | artifact/record.go:64-64 | one input for each of the letters that other alphabets replace |
| Wire.ThreeBytes | artifact/record.go:64-64 | three bytes are four letters of the alphabet: their 24 bits, six at a time, the high ones first |
| Wire.GoldenBytes | artifact/jsonl/wire_golden_test.go:17-26 | the byte fields of the cross-language golden line |
| JsonText.ReadQuote | artifact/record.go:61-78 | a quoted string is read back whatever follows it |
| LineCodec.RoundTrip | artifact/record.go:61-78 | decoding the encoded line of any record gives the record, except that empty contents are gone and state and field texts are normalised; what the line looks like is stated by Wire.LineInLiterals |
| LineCodec.RoundTripExact | artifact/record.go:64-64 | the round trip is the identity if and only if no artifact has empty, non-nil content |
| Wire.LineInLiterals | artifact/jsonl/wire_golden_test.go:17-17 | the line of any record with its keys, their order, its separators, its texts of states and bindings and its omitted fields written out |
| Wire.EmptyInventoryLine | artifact/record.go:73-78 | in particular a record without artifacts, byte for byte |
| Wire.PlainArtifacts | artifact/record.go:61-67 | in particular an artifact with every field, and one with none of the optional ones |
| Wire.MarshalExact | artifact/jsonl/store.go:175-178 | a record marshals, to that line, if and only if its ID and the names, bindings, states and hashes of its artifacts are UTF-8 |
| Wire.Escapes | artifact/record.go:61-78 | which characters of a string are escaped, and how |
| LineShape.LinePrintable | artifact/jsonl/store.go:191-194 | no encoded line contains LF, CR or any other control character, whatever its fields hold |
| LineShape.PurgedLineNoLonger | artifact/jsonl/store.go:276-283 | the purged form of a record never encodes to a longer line |
| LineShape.ReadBack | artifact/jsonl/store.go:233-250 | what the store reads from a line it wrote, both for the whole record and for the ID alone |
| Admission.PrepareArtifactsExact | artifact/record.go:228-244 | the loop of Prepare succeeds if and only if nothing is purged and every present artifact's digest is absent or right; then it fills in the digests and nothing else |
| Admission.PrepareIdempotent | artifact/record.go:220-249 | preparing a prepared record returns an equal record |
| Acceptance.PrepareExact | artifact/record.go:220-249 | Prepare succeeds if and only if there are at most 64 artifacts, the envelope has at most 65535 bytes, nothing is purged, a present original that carries a digest carries its own, and capsule, envelope and contents sum to at most 8388608 bytes |
| Acceptance.PrepareRefuses | artifact/record.go:225-247 | the error class of every refusal, in the order of the checks: the counts, the first original that cannot be prepared, the total size |
| Admission.ReadDigestAt | artifact/record.go:163-185 | the walk along the dotted path finds exactly the digest that nested lookup defines, with the same refusals |
| Acceptance.DigestAtExact | artifact/record.go:26-31 | the dotted path of each of the four bindings leads to its literal nested members, and digestAt finds exactly a 64-digit string there |
| Admission.VerifyRecord | artifact/record.go:91-161 | the loops over the trusted keys and the artifacts compute Verify with its first error; what Verify accepts and refuses is stated by Acceptance.VerifyMeans and Acceptance.VerifyRefuses |
| Admission.CheckArtifactsExact | artifact/record.go:117-159 | artifacts verify if and only if their names are distinct and each is acceptable by itself, so their order does not matter |
| Admission.CheckedResults | artifact/record.go:131-158 | each artifact's own check is listed under its name |
| Admission.CheckedNames | artifact/record.go:116-160 | the result lists exactly the artifact names |
| Admission.VerifyExact | artifact/record.go:91-161 | a record verifies if and only if it authenticates, its names are distinct and every artifact is acceptable by itself; what that means is stated by Acceptance.VerifyMeans |
| Acceptance.VerifyMeans | artifact/record.go:91-161 | Verify succeeds if and only if the ID is well-formed, the Capsule decodes strictly and passes under it, the envelope is intact and signed by a caller's 32-byte key, names are well-formed and distinct, and each artifact meets what its state asks: present content whose hash fits and, if bound, whose JSON digest is the committed one; a tombstone with a 64-digit hash and no content; never-retained with neither; and it lists each artifact with its state and its Bound and Verified flags |
| Acceptance.VerifyRefuses | artifact/record.go:92-157 | the error class of every refusal: invalid, untrusted signer, or that of the first artifact that repeats a name or does not meet its conditions |
| Acceptance.ConfigurationExact | artifact/jsonl/store.go:52-68 | a store opens if and only if the namespace is well-formed and there is at least one key, each of 32 bytes |
| Acceptance.DigestShape | artifact/record.go:54-54 | an ID is 64 lowercase hexadecimal digits |
| Admission.PurgeVerifies | artifact/record.go:131-158 | the purged form of a verified record verifies if and only if every present original carried a digest; then names and Bound flags stay and nothing purged counts as verified |
| Admission.SameTextVerifiesAlike | digest.go:16-40 | two bound originals whose texts differ only in member order and the sign of zeros verify alike under every Capsule |
| Checksum.SortsAgree | artifact/record.go:209-209 | whatever an unstable sort does, with distinct names its result is determined by the set of entries |
| Checksum.PurgeKeepsChecksum | artifact/record.go:203-208 | purging never changes the checksum, for every record |
| Checksum.PermutationKeepsChecksum | artifact/record.go:209-214 | with distinct names no permutation of the artifacts changes the checksum |
| Checksum.ChecksumCanonical | artifact/record.go:192-215 | with distinct names and without a collision of the two inputs, checksums are equal if and only if ID, Capsule, envelope and the map from name to binding, state (purged read as present) and hash are equal |
| Checksum.ChecksumHashes | artifact/record.go:201-215 | what is hashed: the checksum of a record with distinct names is the hash of the line of the record that lists the same names, bindings, states and hashes in name order, without contents and with purged originals as present |
| Checksum.ChecksumOfDeclaration | artifact/record.go:210-214 | so a record already in that form is hashed as its own line |
| Common.LessExact | artifact/record.go:209-209 | the order of names is byte order: a proper prefix comes first, and otherwise the first byte that differs decides |
| Lifecycle.AdmittedIsStored | artifact/record.go:220-249 | what Prepare and Verify admit satisfies the store invariant: names, bindings, hashes and sizes |
| Lifecycle.StoredLine | artifact/jsonl/store.go:175-178 | every stored record marshals, to a line that with its LF fits the 16 MiB scanner buffer |
| Lifecycle.AdmittedLineFits | artifact/jsonl/store.go:88-90 | no record Put accepted, and no purged form of one, can make a later New or Purge fail on line length |
| Lifecycle.RunValid | artifact/jsonl/store.go:129-285 | the invariant holds after every run: distinct IDs and well-formed records |
| LifecycleRuns.RunEvolves | artifact/jsonl/store.go:146-173 | over any run no stored record is removed, moved or replaced: its artifacts only become tombstones |
| LifecycleRuns.NoResurrection | artifact/jsonl/store.go:276-284 | after any run the checksum is unchanged, what was purged or never retained is exactly as it was, and what was present is byte-equal or the tombstone of the same hash |
| LifecycleRuns.StillVerifies | artifact/record.go:91-161 | after any number of purges an admitted record verifies under the same keys, except while an original lost to omitempty has not been purged |
| LifecycleRuns.RetryExact | artifact/jsonl/store.go:129-172 | after any run, reopening under any keys included, a byte-identical retry changes nothing; if the store then trusts the signer it succeeds if and only if no artifact has been purged (and none was lost to omitempty), otherwise it answers the untrusted-signer error |
| LifecycleRuns.GetExact | artifact/jsonl/store.go:207-231 | after any run, under whatever keys it ends, Get returns the record as put, less what was purged, if and only if the store trusts the signer (and nothing was lost to omitempty), with the exact error otherwise |
| LifecycleRuns.PutIsFinal | artifact/jsonl/store.go:146-173 | after the first Put of an ID no later Put of it changes the store, under any keys, and one that reports success commits to the same checksum |
| LifecycleRuns.PurgeErases | artifact/jsonl/store.go:252-285 | purging erases every present original of its record and touches no other record; repeating it is a no-op |
| LifecycleRuns.PurgeBlocksRetry | artifact/jsonl/store_test.go:70-70 | a retry succeeds before the purge; after it, it is refused because originals were purged if the record had a present one, and succeeds otherwise |
| LifecycleRuns.RetryRefuses | artifact/jsonl/store.go:154-171 | why a Put over a stored ID is refused, in the order of the checks: the verification error, the conflict, the purged originals |
| LifecycleRuns.RefusesIds | artifact/jsonl/store.go:207-268 | Get and Purge refuse a malformed ID as invalid and an unknown one as not found, and Purge refuses nothing else |
| Lines.TokensOfJoin | artifact/jsonl/store.go:92-104 | a file of clean lines, each followed by LF, scans back to those lines |
| Lines.LfOnlyExact | artifact/jsonl/store.go:88-104 | which files those are, in bytes: the last line is terminated, no LF follows a CR, and no line is too long |
| Lines.LineAt | artifact/jsonl/store.go:95-103 | the byte range given by a line's computed offset and length holds exactly that line |
| Lines.IndexExact | artifact/jsonl/store.go:92-103 | the last occurrence wins: the index holds exactly the IDs some line yields, each with the range of the last such line |
| Lines.IndexesAgree | artifact/jsonl/store.go:98-98 | the index that ignores parse errors equals the one that does not if and only if every line that yields an ID and then fails to parse is followed by a parsing line that is the last of that ID |
| Lines.OffsetDrift | artifact/jsonl/store.go:91-103 | in any file that scans, every raw line starts where the lines before it end, and the computed offset falls short of that place by the number of CRs stripped before it, so it is right if and only if no earlier line ends in CR |
| Rewriting.RewriteLines | artifact/jsonl/store.go:334-362 | on any LF-only file, non-records and duplicate IDs included, the rewritten file has the same number of lines in the same order, lines of other IDs byte-identical, every line of the target replaced; it is again LF-only, and scans at all, if and only if the replacement line fits the scanner |
| Rewriting.RewriteRefuses | artifact/jsonl/store.go:344-368 | when and why a rewrite fails: the file does not scan, no line has the ID, or the record does not marshal |
| Rewriting.RewriteIndex | artifact/jsonl/store.go:339-361 | the index built on the way is the lenient index of the new file; reopening succeeds and builds that very index if and only if the replacement line fits the scanner and every half-parsed line of another ID is shadowed |
| Rewriting.RewriteIndexesBrokenLine | artifact/jsonl/store.go:358-360 | files for which it does not: a half-parsed line of another ID enters the index at a purge, although a scan of the rewritten file skips it |
| Rewriting.RewriteIdempotent | artifact/jsonl/store.go:290-381 | rewriting a second time changes neither the file nor the index if the replacement line fits the scanner, and fails otherwise |
| Rewriting.PurgeErasesEveryLine | artifact/jsonl/store.go:276-284 | after a purge of any LF-only file no line that yields the ID, duplicates included, carries content of a formerly present artifact; its hash stays |
| JsonlStore.LineScanner.Advance | artifact/jsonl/store.go:89-92 | one step of the scanner: the next line without LF and CR, the end, or a failure if a line and its LF exceed the buffer or reading failed |
| JsonlStore.LineScanner.Scan | artifact/jsonl/store.go:89-104 | over all steps: the lines of the file in order, and at the end a failure if and only if reading failed or some line and its LF exceed the buffer |
| JsonlStore.Store.ScanIndex | artifact/jsonl/store.go:87-105 | the loop fills the index with exactly the last range of each ID a line yields, and fails if and only if reading fails or some line does not fit |
| JsonlStore.Store.New | artifact/jsonl/store.go:51-81 | configuration is refused before the file is opened; a failing open or read is an error; an absent file gives an empty index, a present one the index of its lines |
| JsonlStore.Store.Put | artifact/jsonl/store.go:129-201 | success is the whole new file, index and answer, for every file and index, damaged ones included; on an error the index is as it was, and the file too unless the write stopped half-way, when it has gained a beginning of the line |
| JsonlStore.PutOverExisting | artifact/jsonl/store.go:146-173 | whatever file and index: Put over an indexed ID changes neither, and succeeds if and only if the stored bytes parse to a record of that ID that verifies, has the same checksum and has no tombstone |
| JsonlStore.Store.Get | artifact/jsonl/store.go:207-250 | the answer for every file and index: malformed ID, unknown ID, unreadable or foreign line, failed verification, or the record; a failing open or read adds only the two errors readAt gives it |
| JsonlStore.GetFailsClosed | artifact/jsonl/store.go:207-250 | whatever file and index: Get returns a record if and only if the ID is well-formed, the bytes its entry names are there and parse to it, it has the ID asked for, and it verifies |
| JsonlStore.GetRefuses | artifact/jsonl/store.go:207-250 | the error class of every refusal, in the order of the checks |
| JsonlStore.Store.Purge | artifact/jsonl/store.go:259-285 | all or nothing: whichever step before the rename fails, reading included, file and index are as before; otherwise both are those of the rewrite; the temporary file is gone either way unless its removal fails |
| JsonlStore.PurgeTargets | artifact/jsonl/store.go:269-283 | whatever file and index: what Purge writes back is the stored record of the ID it was given, with exactly its present originals erased |
| JsonlStore.Store.RewriteFile | artifact/jsonl/store.go:290-381 | an error leaves file and index unchanged and removes the temporary file, success installs both parts of the rewrite together |
| JsonlStore.Store.CopyLines | artifact/jsonl/store.go:326-368 | the copying loop computes the rewritten file and its index in one pass, with the running offset, and reports a failing read |
| JsonlStore.PurgeReopens | artifact/jsonl/store.go:259-381 | after a successful purge of any LF-only file, New succeeds if and only if the line written for the purged record fits the scanner, and finds the same index if and only if moreover every half-parsed line of another ID is shadowed |
| BrokenFiles.PurgeBreaksFile | artifact/jsonl/store.go:276-284 | the failing input: a file of one line with 730,000 artifacts written as empty objects is opened, its purge reports success, and then New fails and so does every further purge |
| BrokenFiles.PurgeIndexesBrokenLine | artifact/jsonl/store.go:339-360 | the failing input: the ID of a line broken off after it is not found after New, answers that the record is corrupt after the purge of another ID, and is not found again after reopening |
| BrokenFiles.PurgeInvalidates | artifact/record.go:147-150 | the failing input: a present original without a digest, on a line another writer wrote, is returned by Get, purged with success, and refused as invalid by the next Get |
| BrokenFiles.CRHidesRecord | artifact/jsonl/store.go:102-102 | the failing input: behind an empty line that ends in CR LF, New indexes a whole record one byte early, and Get answers that it is corrupt |
| JsonlRefinement.OpenRepresented | artifact/jsonl/store.go:51-81 | reopening a file the store wrote gives the index the store already had |
| JsonlRefinement.StepRefines | artifact/jsonl/store.go:112-285 | each operation on the file and index answers as the abstract store does and keeps the file one line per record |
| JsonlRefinement.FromAbsentFile | artifact/jsonl/store.go:48-381 | from an absent file, over every sequence of Init, Put, Get, Purge and reopening: the answers are the abstract store's, the file is one LF-terminated line per stored record, a scan of it rebuilds the index, and each ID is indexed with exactly its line's byte range |
| Safety.FileNoResurrection | artifact/jsonl/store.go:146-173 | said of the file: an ID indexed after any run from an absent file stays indexed and readable through any further run, with the same checksum, its artifacts at most turned into tombstones |
| Failures.FailingRunsOfFile | artifact/jsonl/store.go:129-381 | from an absent file, over every sequence of operations any of which may fail without effect: the answers are the failures and, in between, those of the abstract store to the other operations; the file is one line per record of that store and the index is exact |
| Failures.StoreAttempt | artifact/jsonl/store.go:290-381 | what the contracts of Put, Get and Purge leave possible under faults, a torn append aside, is such a failure without effect or the whole effect |
| SqlStore.Store.Read | artifact/sqlite/store.go:166-206 | for arbitrary tables, the error of the first query, row or end of rows that goes wrong, else the record or the first error in the order ID, existence, checksum, verification |
| SqlProperties.ReadRefuses | artifact/sqlite/store.go:166-206 | the error class of every refused read, in the order of the checks |
| SqlProperties.ReadInOrder | artifact/sqlite/store.go:180-180 | a record that is read has its artifacts in strictly ascending order of their names |
| SqlProperties.KeysKept | artifact/sqlite/schema.sql:21-22 | whatever rows there are, Put and Purge keep the primary key of the artifact table and its reference to a Capsule row |
| SqlProperties.ChecksKept | artifact/sqlite/schema.sql:23-27 | whatever rows there are, Put and Purge keep the CHECK constraint on state, content and hash |
| SqlProperties.NamespacesApart | artifact/sqlite/store.go:103-131 | whatever rows there are, Put and Purge touch nothing but the rows of their ID in their namespace |
| SqlProperties.SelectExact | artifact/sqlite/store.go:180-180 | a read sees exactly the artifact rows of its ID in its namespace |
| SqlStore.Store.PutTx | artifact/sqlite/store.go:87-137 | on the caller's transaction: the error of the first statement that goes wrong, else the new rows, the untouched rows of an admitted retry, or the error; it never commits |
| SqlStore.Store.Put | artifact/sqlite/store.go:73-83 | one transaction: either the database counts one commit more and holds what PutTx wrote, or tables and commits are as they were, whichever step went wrong, from the beginning over any insert to the commit |
| SqlStore.Store.Get | artifact/sqlite/store.go:141-155 | reading changes no table and returns what the fail-closed read returns, or the error of the first step that goes wrong |
| SqlStore.Store.Purge | artifact/mysql/store.go:223-246 | erasure asks only for existence in the namespace; an error at any step leaves tables and commits as they were |
| SqlStore.TransactionExact | artifact/mysql/store.go:72-82 | a transaction commits if and only if its body succeeds and every step of it is fine, and then with the body's result |
| SqlProperties.ReadKeepsCommitment | artifact/sqlite/store.go:166-206 | with only the stored checksum intact and every other column and row arbitrary, a record that is returned has the original Capsule, envelope, names and bindings |
| SqlProperties.ReadLosesNothing | artifact/sqlite/store.go:180-202 | under the same damage every original is returned byte-equal or as its tombstone, never-retained entries unchanged |
| SqlProperties.ReadInventsNothing | artifact/mysql/store.go:185-214 | and nothing else is returned: each artifact read is one of the originals or its tombstone |
| SqlRefinement.VerifyPermuted | artifact/record.go:117-159 | a record that some keys accept verifies, or is refused with the same error, in any artifact order |
| SqlRefinement.StepRefines | artifact/sqlite/store.go:73-232 | each operation on undamaged tables answers as the abstract store does, up to artifact order, and keeps them undamaged |
| SqlRefinement.RunRefines | artifact/mysql/store.go:68-246 | the same over every run in one namespace |
| Safety.TablesNoResurrection | artifact/sqlite/store.go:106-127 | said of the tables: a Capsule row present after any run from an empty namespace is the same row after any further one, and its artifact rows are the same rows, of which present ones may have become tombstones |
| Failures.FailingRunsOfTables | artifact/sqlite/store.go:73-232 | from an empty namespace, over every sequence of operations any of which may fail: failed transactions leave no trace, and the others answer as the abstract store does, up to artifact order |
| Failures.TransactionAttempt | artifact/mysql/store.go:248-253 | an operation whose transaction meets any trouble at any step comes to a failure without effect or to its whole effect |
| Equivalence.BackendsAgree | artifact/README.md:77-85 | from an empty file and an empty namespace, every run gives the same error classes and, up to artifact order, the same records from both kinds of backend, provided no artifact put has empty content |
| Equivalence.EmptyContentExact | artifact/record.go:64-64 | the proviso is exact in the abstract: for a newly admitted record the following Get agrees if and only if no content is empty, and otherwise the wire form answers the invalid-record error |
| Safety.EmptyContentOnBackends | artifact/record.go:64-64 | the same of the file and of the tables, in whatever state runs have left them |
| Consistency.EmptyOriginalIsLost | artifact/record.go:134-136 | the failing input, as whole runs on a new file and on new tables: an original of zero bytes is put, and the Get that follows returns it from the tables and refuses it from the file |
| Retry.RunsExactly | artifact/mysql/retry.go:15-33 | attempt k is the one that commits if and only if k is among the first five, only uncancelled deadlocks precede it, and it runs |
| Retry.BreaksExactly | artifact/mysql/retry.go:20-24 | the loop ends at once at attempt k with another error than a deadlock if and only if k is among the first five, only uncancelled deadlocks precede it, and it ends with one |
| Retry.CancelsBeforeExactly | artifact/mysql/retry.go:17-19 | it is cancelled before attempt k if and only if the context is done by then and only uncancelled deadlocks precede it |
| Retry.CancelsWaitingExactly | artifact/mysql/retry.go:25-31 | it is cancelled while waiting after attempt k if and only if that one is a deadlock victim but not the last, and only uncancelled deadlocks precede it |
| Retry.GivesUpExactly | artifact/mysql/retry.go:15-33 | the loop reports a deadlock if and only if all five attempts are victims and no cancellation intervenes |
| Retry.AtMostFive | artifact/mysql/retry.go:16-24 | however the loop ends, it has run its body at most five times |
| Retry.RetryingPut.PutOnce | artifact/mysql/store.go:72-82 | one attempt in its own transaction: it commits one PutTx effect, or, struck at any step, is rolled back and leaves the tables as they were |
| Retry.RetryingPut.Put | artifact/mysql/store.go:68-70 | with other writers changing the tables between attempts: it succeeds if and only if this store has committed one transaction more, and then on the tables the deciding attempt found; after every other outcome it has committed nothing and the tables are as the others left them; the number of attempts is exact |
| Retry.RetriedEffect | artifact/mysql/retry.go:15-33 | a retried Put that succeeds has exactly the effect of PutTx on the tables its deciding attempt found, and it succeeds if and only if some attempt runs |
| Retry.RetriedAnswer | artifact/mysql/retry.go:20-24 | what a retried Put returns is the outcome of the deciding attempt itself, whatever its error class |
| Retry.TroubleDecides | artifact/mysql/retry.go:21-24 | an attempt struck by a deadlock at any step is tried again, one struck otherwise ends the loop with its error |
| Composition.CheckSlot | construction.go:143-150 | the search through the four slots finds exactly the valid ones |
| Composition.BuildComposition | construction.go:98-138 | succeeds if and only if the list is non-empty, slots are valid and distinct, and IDs are well-formed, verified and distinct; the references are then those of the members, in slot order |
| Composition.ComposableMeans | construction.go:99-124 | the condition said of the members: at least one, each in one of the four slots, with a well-formed ID under which its JSON decodes strictly and verifies, and no slot or ID twice |
| Composition.CompositionPermuted | construction.go:94-97 | every permutation of the arguments has the same outcome and the same references |
| Composition.OnePerMember | construction.go:126-138 | a composition has one reference for each member |
| Extensions.MergeExtensions | build.go:87-93 | the loop over the growing payload computes the merge or the refusal |
| Extensions.SafeNumbersExact | extension.go:54-79 | the recursive check accepts a value if and only if, on every path of array positions and member names that ends at a number, that number is neither a float nor an unsafe integer |
| Extensions.ExtensionNameExact | extension.go:11-11 | an extension name is a lowercase letter followed by lowercase letters, digits and underscores |
| Extensions.MergeExact | extension.go:28-52 | it succeeds if and only if each extension is valid by itself, with only safe numbers on all paths through its value, names no base member and repeats no name; the new keys are then exactly the names |
| Extensions.MergeConserves | build.go:87-93 | every key of the base payload keeps its value |
| Extensions.MergeAdds | extension.go:54-79 | each extension contributes its own decoded, non-null value, and every number at the end of any path of array positions and member names through it is a safe integer |
| Extensions.MergePermuted | build.go:87-93 | the merged payload, or the refusal, does not depend on the order of the extensions |
| Extensions.BasePayloadKeys | build.go:31-86 | whatever members the input has, Build writes nothing but base-profile members before it merges extensions |
| Extensions.BaseMembersExact | extension.go:13-24 | the base members are those Build can write and six that it never writes |
| Extensions.BuildMerges | build.go:31-93 | so on every payload Build writes and the real list of base members, the merge succeeds exactly when each extension is valid and no name repeats, and in every order alike |
| Ownership.PrepareRecord | artifact/record.go:220-249 | on heap buffers: the caller's record reads as before, the result is what Prepare gives on its values, and every buffer of the result is new |
| Ownership.StrippedCopy | artifact/record.go:202-208 | the in-place edits of StorageChecksum reach only its own copy of the inventory and leave the commitments whose form Checksum.ChecksumHashes states |
| Ownership.ChecksumRecord | artifact/record.go:201-215 | StorageChecksum on heap buffers, stripping and sorting its copied slice in place, gives the checksum of the values, which Checksum.ChecksumHashes states as a hash of a line, and the caller's record reads as before |
| Consistency.Satisfiable | artifact/record.go:91-161 | the assumptions about foreign code hold together on a platform that admits a present original of any content that fits, the empty one included |

## Left out

- SHA-256, Ed25519 and COSE, and the upstream canonical, verify and envelope packages: arbitrary functions here.
- Tokenising bytes, the UTF-8 check and Go's reflection-based JSON: the decoder starts at tokens, and only lines in the form the library writes (field order, no white space) have an assumed meaning.
- JSON lines written by another implementation with other spacing, key order or escapes: covered only as lines on which the reader may answer anything.
- Rewriting.RewriteIndex: like the other theorems on arbitrary files it asks for LF-only files; CR and unterminated last lines are covered by `Lines.LfOnlyExact` and `Lines.OffsetDrift` alone.
- Checksum.ChecksumCanonical: for distinct names only, since with repeated names an unstable sort leaves the checksum undetermined; Verify refuses such records.
- Equivalence.BackendsAgree: starts after Init on both sides, because SQL before Init depends on tables that may already exist.
- SqlStore.Tx.Commit: a commit that fails is one that has not taken effect; a connection lost after the server committed is not modelled, nor is an error of the rollback itself, which the source only joins to the first error.
- SQL engines: isolation levels, row locks, the choice of deadlock victims, column widths and collations, and how a driver hands back an empty blob; a transaction sees no other one between its steps.
- The timestamp columns created_at and purged_at.
- Composition.BuildComposition: ends at the list of references; the call of Build that follows is not part of it, and CompositionPermuted is about the references that Build is given.
- The values of the base payload, which the other map builders of Build compute, the validators, sealing and signing, and the registry tables: none of them touches a record, a store or the order of arguments.
- Concurrency: the mutex of the JSONL store and several processes on one file; every operation is one step.
- Ownership.ChecksumRecord: takes a sort that sorts by name; the swaps of `sort.Slice` are modelled as some swaps that lead to its result.
- Cancellation while a JSONL operation runs: the source takes a context there and does not look at it.
- The length of the back-off waits: cancellation is a condition at each attempt, not a time.
- File permissions, and deletion of the file by others.
- Error texts: only error classes are kept.
