# Niphas: a Dafny model of its core

Niphas runs Nix closures as Kubernetes workloads. An operator evaluates a flake, keeps the
result in the status of a `NiphasWorkload` and renders a deployment; a CSI driver on each node
downloads the store paths of the closure as NAR archives, checks and unpacks them into a local
cache, and bind-mounts one of them into the pod.

The project models the parts of it where the code is hardest to get right, and proves what they
do for every input, every schedule and every run:

| file | models |
|---|---|
| `Base32.dfy`, `StorePaths.dfy` | Nix base-32 at the level of its shifts, `NixHash`, `StorePath` |
| `NarInfos.dfy`, `Fingerprints.dfy` | the line-oriented `.narinfo` parser and the text that is signed |
| `NarInfoDocuments.dfy` | what any `.narinfo` document means, line by line |
| `Nar.dfy` | the NAR format as functions: tokens, trees, the serializer, the parser and its language |
| `NarFormat.dfy` | what the format asks for, said apart from the parser: UTF-8, strings, grammar, names |
| `NarStreams.dfy` | the parser on a stream that goes on or is cut short |
| `NarReading.dfy` | `NarReader` as it is written, with stream, depth, byte count and running hash |
| `Extraction.dfy` | the recursive extractor on a file system of files, links and directories |
| `Closures.dfy` | the batched closure search under every completion order |
| `ClosureOrder.dfy` | when the order it returns is topological |
| `Paths.dfy` | joining a name to a directory, and what the kernel makes of it |
| `Fetching.dfy` | the node-local cache, one task at a time, on paths |
| `CacheProtocol.dfy` | the cache as a protocol: tasks, locks, single file-system calls, disk faults, crashes |
| `CacheCalls.dfy` | whole calls of that protocol that nothing gets in the way of, and restarts |
| `NodeService.dfy` | publishing and unpublishing a volume, one call at a time |
| `NodeRuns.dfy` | runs of a node: interleaved calls on top of the cache protocol |
| `EvalResults.dfy`, `Reconciler.dfy` | the cached evaluation and the reconciler as a persisted state machine |
| `Passes.dfy` | what one uninterrupted pass does to an object, case by case |
| `StoredResults.dfy`, `LeaderResults.dfy` | the stored values are what the evaluator answered, with one operator and with several |
| `Leaders.dfy` | several reconcilers at once, working from copies of any age |
| `Globs.dfy` | the allowlist matcher and the request validator in front of it |
| `Outcomes.dfy`, `Text.dfy`, `Sequences.dfy` | results (`Ok`, `Err`, `Panic`) and the string and sequence functions used |

`dafny verify dfyconfig.toml` checks all of it.

Bytes are `bv8`; text is a sequence of Unicode scalar values with its byte offsets where the code
slices by bytes. `Panic` is a result of its own: the release profile aborts on a failed index or
slice, and lets integers wrap. HTTP, decompression, SHA-256, signatures, the evaluator and the kernel
are parameters. In `CacheProtocol` and `NodeRuns` any call of the file system may fail, or tear what it
writes; `Extraction` and `Fetching` say what happens when it obeys.

## Where the code and its description differ

The model follows the code. Each difference is a theorem.

- Root directories: the root entry point wants one `)` more than the format has, so no canonical
  directory archive parses (`Nar.CanonicalDirectoryRejected`), and no canonical archive of any kind
  is ever seen in the cache (`CacheProtocol.CanonicalArchivesNeverAppear`). `Nar.ParseArchiveExact`
  says what does parse; bytes after the root are ignored.
- Names: a store path may have a slash in its name, and such a name need not stand for its own entry of the
  cache directory (`Paths.JoinIsEntryExactly`, `Fetching.AddressableExactly`). A name that is a detour
  through one entry to another publishes the first one's tree under the second one's name
  (`Fetching.DetourPublishesOtherTree`). The theorems about whole runs are about runs in which no request
  asks for a store path with a slash; names that do not parse, such as `..`, may be asked for, and the
  theorems then say nothing about them.
- Retries: an extraction that fails leaves its temporary directory to the next attempt of the same
  process. A link in it makes every attempt fail until the service restarts
  (`Fetching.FetchExact`, `CacheProtocol.StuckUntilRestart`, `CacheProtocol.StuckIsReachable`).
- Links: the parser accepts targets that cannot be written, which extraction then fails on
  (`Extraction.ExtractIntoFresh`).
- Empty references: a `References:` line without a value is rejected
  (`NarInfos.EmptyReferencesRejected`), and no value is ever empty (`NarInfos.ValuesAreNeverEmpty`).
- Closure order: documented as topological. It is not (`ClosureOrder.OrderIsNotTopological`). With one
  fetch at a time, and with more fetches at a time than there are references, the graphs for which
  it is are known exactly (`ClosureOrder.SerialTopologicalExactly`,
  `ClosureOrder.WideTopologicalExactly`); in between neither condition is enough
  (`ClosureOrder.ConcurrentOrderIsNotTopological`), and one referrer for each path always is
  (`ClosureOrder.OneReferrerIsTopological`).
- Base-32 decoding aborts on some lengths and drops bits on others (`Base32.DecodeOutcome`,
  `Base32.EncodeDecode`).
- Globs: documented to stop at `/`, but the star matches anything; the two meanings agree on every
  input exactly for patterns without a star (`Globs.DocumentedForAllInputs`).
- Failed updates: `set_failed` marks the new generation as observed and keeps the old result, which
  the next pass deploys and reports as current (`Reconciler.StaleResultReportedCurrent`,
  `Reconciler.StaleResultIsReportedFromAnywhere`).
- Two leaders at once are documented as harmless. A former leader whose failure is written late leaves
  a status that claims less than the result it holds (`Leaders.FormerLeaderBreaksOrder`), which one
  leader with a lagging cache never does (`Leaders.LaggingLeaderKeepsOrder`); `Leaders.OrderHoldsExactly`
  says when it happens, and `Leaders.CheckedWritesKeepOrder` what a writer could check to avoid it.
- Fingerprints: reference names may contain the comma that separates references, so the signed text of a
  narinfo with several references is also that of one with a single reference, which the parser accepts
  (`Fingerprints.ManyReferencesMerge`); it determines a narinfo only if there is at most one
  (`Fingerprints.FingerprintSufficesExactly`).
- Cached evaluation: it deploys the same command as a fresh one exactly when the spec overrides the command
  or the program name has no `/` (`EvalResults.CachedAgreesWithFresh`).
- Volume attributes: the operator writes only `closurePaths`, publishing also asks for `storePath`,
  so the operator's volumes are refused (`NodeService.OperatorVolumesAreRefused`).
- Failed publishing leaves the mounts alone except in one case, which the next call reports as
  success (`NodeService.FailedPublishKeepsMounts`, `NodeService.LeftoverMountIsReportedPublished`).
- Brotli is documented as supported; the code rejects it (`Fetching.BrotliIsNeverCached`).

## Model

| member | source | states |
|---|---|---|
| `Base32.ToNixBase32` | crates/niphas-core/src/nix/hash.rs:24-44 | the encoding loop computes `Encode`, the digit string defined from the bits of the input |
| `Base32.EncodeDigit` | crates/niphas-core/src/nix/hash.rs:31-41 | the shifts across two bytes give the five bits of one digit, below 32 |
| `Base32.DigitExactly` | crates/niphas-core/src/nix/hash.rs:5-16 | the digits are the figures and lower-case letters without e, o, t and u, each worth its place among them |
| `Base32.FromNixBase32` | crates/niphas-core/src/nix/hash.rs:48-83 | or-ing shifted digits into a zeroed buffer computes `Decode`, unchecked index included |
| `Base32.AddDigit` | crates/niphas-core/src/nix/hash.rs:67-78 | one decoder step ors in exactly the five bits of the digit that fall inside the buffer, and changes no other bit |
| `Base32.EncodeValue` | crates/niphas-core/src/nix/hash.rs:24-44 | read as a base-32 number, the encoding is the little-endian base-256 value of the input, in ceil(8n/5) digits |
| `Base32.DecodeEncode` | crates/niphas-core/src/nix/hash.rs:24-83 | decoding an encoding gives the bytes back, for every byte string |
| `Base32.EncodeDecode` | crates/niphas-core/src/nix/hash.rs:48-83 | encoding a decoded string restores it if and only if the first digit leaves the dropped bits zero |
| `Base32.DecodeOutcome` | crates/niphas-core/src/nix/hash.rs:48-83 | an error exactly for a bad digit, an abort exactly for valid digits of a length without room, success otherwise with 5n/8 bytes |
| `Base32.LastBadDigit` | crates/niphas-core/src/nix/hash.rs:58-66 | the character reported is the last one of the text that is no digit |
| `Base32.FitsBytesMeaning` | crates/niphas-core/src/nix/hash.rs:55-76 | the lengths 0, 2, 4, 5 and 7 modulo 8 are exactly those whose last digit starts inside the buffer, and exactly those an encoding can have |
| `Base32.HashCodingIsBijective` | crates/niphas-core/src/nix/hash.rs:24-83 | 32 digits and 20 bytes: the two codings are inverse to each other, both ways |
| `StorePaths.ParseBasenameOutcome` | crates/niphas-core/src/nix/store_path.rs:36-71 | exactly which basenames are accepted, which abort on a slice, and which are errors |
| `StorePaths.PrintThenParse` | crates/niphas-core/src/nix/store_path.rs:24-91 | a valid store path prints to text that parses back to it |
| `StorePaths.ParseThenPrint` | crates/niphas-core/src/nix/store_path.rs:24-91 | text that parses is what its store path prints to |
| `StorePaths.DisplayInjective` | crates/niphas-core/src/nix/store_path.rs:84-88 | two valid store paths with the same text are the same |
| `StorePaths.ReferenceKeysAgree` | crates/niphas-core/src/nix/closure.rs:71-96 | the two forms in which the search writes a visited key agree for every reference that parses |
| `StorePaths.HashPrintThenParse` | crates/niphas-core/src/nix/hash.rs:123-181 | a printed hash parses back to itself |
| `StorePaths.HashParseThenPrint` | crates/niphas-core/src/nix/hash.rs:123-181 | a parsed hash prints its text, if and only if no dropped bit was set |
| `StorePaths.ParseHashExactly` | crates/niphas-core/src/nix/hash.rs:123-181 | a text is a hash if and only if it is one of four prefixes with base-32 text for 32, 64, 20 or 16 bytes |
| `StorePaths.ParseHashFailures` | crates/niphas-core/src/nix/hash.rs:123-181 | why a text is no hash: no colon, an unknown name, what the decoder reports, or another length, in this order |
| `Nar.ReadBytesExact` | crates/niphas-core/src/nix/nar.rs:73-95 | the string reader accepts exactly length, data and zero padding, up to 128 MiB |
| `Nar.ReadStrExact` | crates/niphas-core/src/nix/nar.rs:98-103 | the same for valid UTF-8 |
| `Nar.ExpectStrExact` | crates/niphas-core/src/nix/nar.rs:105-113 | a token is accepted exactly when the stream starts with its encoding |
| `Nar.ParseNodeExact` | crates/niphas-core/src/nix/nar.rs:155-274 | the node parser returns a tree and a rest if and only if the tree is well formed and within the depth limit and the stream is its serialization followed by that rest: round trip and canonicity in one |
| `Nar.SerializationIsPrefixFree` | crates/niphas-core/src/nix/nar.rs:305-333 | bytes determine the tree they start with and what follows it |
| `Nar.ParseArchiveExact` | crates/niphas-core/src/nix/nar.rs:116-152 | the exact language of the root entry point: magic, serialization, and for a directory one more `)`; the rest is left unread |
| `Nar.CanonicalDirectoryRejected` | crates/niphas-core/src/nix/nar.rs:134-152 | every canonical directory archive ends in an unexpected end of stream at the root, while the nested parser accepts its body |
| `Nar.NamesAscend` | crates/niphas-core/src/nix/nar.rs:217-228 | the names of an accepted directory ascend strictly: where two first differ, the earlier one ends or has the smaller byte |
| `Nar.LessMeaning` | crates/niphas-core/src/nix/nar.rs:221-226 | a name is before another if and only if they agree up to some place, and there the first ends or has the byte of smaller value |
| `NarFormat.Utf8Exactly` | crates/niphas-core/src/nix/nar.rs:98-103 | the strings accepted as text are exactly the encodings of sequences of Unicode scalar values |
| `NarFormat.StringOnTheWire` | crates/niphas-core/src/nix/nar.rs:66-95 | a string is its length in eight little-endian bytes, its data, and fewer than eight zeros up to a multiple of eight |
| `NarFormat.SerializationIsGrammar` | crates/niphas-core/src/nix/nar.rs:116-274 | the serialization of every tree is the grammar of the format, written out word by word |
| `NarFormat.DirectoryExactly` | crates/niphas-core/src/nix/nar.rs:217-228 | a directory is well formed if and only if its names are non-empty text other than `.` and `..` with no slash or zero byte, within the length limit, each before the later ones, and its nodes are well formed |
| `NarFormat.LeavesExactly` | crates/niphas-core/src/nix/nar.rs:155-181 | files and link targets are bounded by 128 MiB, and a target is text |
| `NarStreams.VerdictIsFinal` | crates/niphas-core/src/nix/nar.rs:56-274 | whatever follows on the stream, success keeps its tree and adds to the rest, and every failure but the end of the stream stays as it is |
| `NarStreams.TruncatedIsEof` | crates/niphas-core/src/nix/nar.rs:56-64 | an archive that the root entry accepts, cut short anywhere, is reported as the unexpected end of the stream |
| `NarStreams.ReadBytesFailures` | crates/niphas-core/src/nix/nar.rs:66-95 | a string is refused for its length, then because the stream ends, then for its padding, and otherwise read: each exactly |
| `NarStreams.NameRefusals` | crates/niphas-core/src/nix/nar.rs:217-228 | an entry name is refused with the reason that applies: empty, dot name, slash or zero byte, and then not after the last one |
| `NarStreams.TooDeepIsRefused` | crates/niphas-core/src/nix/nar.rs:184-191 | a tree that breaks no rule but the depth limit is refused for its depth, wherever in it the limit is exceeded |
| `NarReading.NarReader.ReadExact` | crates/niphas-core/src/nix/nar.rs:56-64 | what is read is hashed and counted: hash input plus remaining stream is always the source |
| `NarReading.NarReader.ReadBytes` | crates/niphas-core/src/nix/nar.rs:74-95 | computes `Nar.ReadBytes`, and leaves the rest of the stream in place |
| `NarReading.NarReader.ParseDirectory` | crates/niphas-core/src/nix/nar.rs:184-236 | the loop over entries with its last name computes the recursive `Nar.ParseDirectory`, and restores the depth |
| `NarReading.NarReader.ParseNodeInner` | crates/niphas-core/src/nix/nar.rs:240-274 | computes `Nar.ParseNodeInner` and restores the depth |
| `NarReading.NarReader.ParseNode` | crates/niphas-core/src/nix/nar.rs:134-152 | computes `Nar.ParseNode` |
| `NarReading.NarReader.Parse` | crates/niphas-core/src/nix/nar.rs:116-131 | returns the tree with the digest of exactly the bytes consumed |
| `NarReading.DigestCoversArchive` | crates/niphas-core/src/nix/nar.rs:116-131 | for an accepted archive the digest is that of the archive alone, whatever follows it |
| `Extraction.Disk.ExtractNode` | crates/niphas-csi/src/cache.rs:198-226 | the recursive procedure computes `Extract` on the file system, failures included |
| `Extraction.JoinValidName` | crates/niphas-core/src/nix/nar.rs:283-298 | joining a name that the parser lets through adds one component and cannot climb |
| `Paths.JoinIsEntryExactly` | crates/niphas-csi/src/cache.rs:56-65 | a joined name is the entry of that name in the directory if and only if it has no slash and is not empty, `.` or `..` |
| `Paths.JoinOne` | crates/niphas-csi/src/cache.rs:56-65 | a name without a slash goes up for two dots, nowhere for one or none, and down otherwise |
| `Paths.JoinSteps` | crates/niphas-csi/src/cache.rs:56-65 | a name with a slash in front replaces the directory, and the parts before a slash are read before those after it |
| `Fetching.WalkableExactly` | crates/niphas-csi/src/cache.rs:164-174 | the kernel gets to the place of a name if and only if what stands before each slash of it leads to something that exists |
| `Fetching.CreateAllExactly` | crates/niphas-csi/src/cache.rs:140-147 | creating the staging directory makes every part of its path that is missing, as an empty directory, and nothing more |
| `Extraction.ExtractIntoFresh` | crates/niphas-csi/src/cache.rs:198-226 | for every parsed directory: extraction into an empty directory succeeds if and only if every link target can be written, and then reads back as the tree; in any case it changes nothing outside, and creates each path once, strictly below |
| `Extraction.ExtractOverLeftover` | crates/niphas-csi/src/cache.rs:198-226 | over any part that an earlier attempt has left: extraction succeeds if and only if every link target can be written and no link is left over, and then the whole tree is there |
| `Extraction.HoldsDetermines` | crates/niphas-csi/src/cache.rs:198-226 | no two well-formed trees read back from the same place: extraction is lossless |
| `Extraction.WritableExactly` | crates/niphas-csi/src/cache.rs:211-213 | a tree can be written if and only if no link anywhere in it has an empty target or one with a zero byte |
| `Extraction.MakeDirAllExactly` | crates/niphas-csi/src/cache.rs:215-217 | a missing directory is created with all its missing ancestors, outermost first, if and only if the nearest that exists is a directory; nothing else changes |
| `Extraction.ModeBits` | crates/niphas-csi/src/cache.rs:208-209 | files are readable for everyone, writable for no one, and executable for everyone or no one |
| `Extraction.PlanIsExtract` | crates/niphas-csi/src/cache.rs:198-226 | the list of single calls used for interleaving does what the extractor does |
| `Extraction.AllDoneIsOnDisk` | crates/niphas-csi/src/cache.rs:198-226 | a part of a tree on which every call has been made is the whole tree, whatever was left over from before |
| `NarInfos.ParseNarInfo` | crates/niphas-core/src/nix/narinfo.rs:68-170 | the loop over lines with its accumulators computes `ParseText`, with the error of the first bad line or missing field |
| `NarInfoDocuments.ParseTextExactly` | crates/niphas-core/src/nix/narinfo.rs:68-170 | for every document: it parses to a narinfo if and only if every line is accepted, each required key is on some line, and each field is the value of the last line with its key, with all signatures in order |
| `NarInfoDocuments.LineExactly` | crates/niphas-core/src/nix/narinfo.rs:82-138 | a line is accepted if and only if it is blank or a key and a value that suits that key; other text is a malformed line |
| `NarInfoDocuments.UnsuitableValue` | crates/niphas-core/src/nix/narinfo.rs:91-134 | the failure of a line whose value does not suit its key, for each key; those of URL, Deriver, CA and unknown keys suit |
| `NarInfoDocuments.FirstBadLine` | crates/niphas-core/src/nix/narinfo.rs:82-138 | the failure is that of the first line that is not accepted |
| `NarInfoDocuments.MissingFieldExactly` | crates/niphas-core/src/nix/narinfo.rs:141-154 | with every line accepted, the failure is the first of the seven required keys that no line has, and there is one if and only if some key is missing |
| `NarInfoDocuments.LastValueMeaning` | crates/niphas-core/src/nix/narinfo.rs:91-134 | the deciding value of a key is that of a line with it after which there is no other |
| `NarInfoDocuments.UnknownLineIgnored` | crates/niphas-core/src/nix/narinfo.rs:82-138 | a blank line, or one whose key is none of the eleven, can be added to any document anywhere without changing the outcome |
| `NarInfos.ParseCompressionExactly` | crates/niphas-core/src/nix/narinfo.rs:36-48 | seven words are compressions, and nothing else is |
| `NarInfos.ParseSignatureExactly` | crates/niphas-core/src/nix/signature.rs:16-29 | a signature is a key name without a colon, a colon, and text that decodes to 64 bytes |
| `NarInfos.NarInfoRoundTrip` | crates/niphas-core/src/nix/narinfo.rs:68-170 | any printable narinfo, its lines in any order that keeps the signatures in order, parses back to the same value |
| `NarInfos.DocumentedOrderArranges` | crates/niphas-core/src/nix/narinfo.rs:68-170 | the documented order is one of these orders |
| `NarInfos.DocumentedTextParsesExactly` | crates/niphas-core/src/nix/narinfo.rs:68-170 | the documented text of a printable narinfo parses back to it if and only if it has references |
| `NarInfos.FieldReadsBack` | crates/niphas-core/src/nix/narinfo.rs:82-146 | each printed line reads back as its field |
| `NarInfos.EmptyReferencesRejected` | crates/niphas-core/src/nix/narinfo.rs:82-89 | a document with an empty `References` line is a malformed line, whatever is before and after it |
| `NarInfos.ValuesAreNeverEmpty` | crates/niphas-core/src/nix/narinfo.rs:82-119 | no line yields an empty value, so the branch for an empty reference list is never taken |
| `Fingerprints.FingerprintIgnoresOrder` | crates/niphas-core/src/nix/narinfo.rs:173-187 | narinfos that differ in the order of their references have the same fingerprint |
| `Fingerprints.SortedPathsPermute` | crates/niphas-core/src/nix/narinfo.rs:173-187 | permuted references sort to the same list |
| `Fingerprints.FingerprintLayout` | crates/niphas-core/src/nix/narinfo.rs:173-187 | the signed text is the version, the path, the hash, the size and the full reference paths in code-point order |
| `Fingerprints.FingerprintDeterminesExactly` | crates/niphas-core/src/nix/narinfo.rs:173-187 | of two narinfos without separators in their parts, the fingerprints are the same if and only if they agree on path, hash, size and references |
| `Fingerprints.FingerprintSufficesExactly` | crates/niphas-core/src/nix/narinfo.rs:173-187 | the fingerprint of an accepted narinfo without separators in its parts determines path, hash, size and references among all accepted narinfos if and only if it has at most one reference |
| `Fingerprints.ManyReferencesMerge` | crates/niphas-core/src/nix/narinfo.rs:173-187 | with two references or more, another accepted narinfo has the same fingerprint and a single reference |
| `Fingerprints.AcceptedParts` | crates/niphas-core/src/nix/narinfo.rs:68-170 | whatever the parser accepts has a valid store path, a digest of its algorithm's length, a size below 2^64 and references that parse and have no white space |
| `Closures.ResolveClosure` | crates/niphas-core/src/nix/closure.rs:42-130 | for every completion order: success returns exactly the reachable paths, each once, root first, each later one referenced by an earlier one, with their narinfos, in an order that batches of that concurrency can produce; by distance and first mention with concurrency 1; a resolution error only when a fetch of the next batch fails; a timeout if and only if the batches the deadline allows are done and paths are left to do, which takes concurrency 0 or a deadline below the size of the graph |
| `Closures.LaunchBatch` | crates/niphas-core/src/nix/closure.rs:66-84 | a batch drops visited paths, marks and launches the others, and keeps the invariant |
| `Closures.CollectBatch` | crates/niphas-core/src/nix/closure.rs:86-118 | taking completions in any order keeps the invariant and queues what is new |
| `Closures.PushReferences` | crates/niphas-core/src/nix/closure.rs:94-102 | appends exactly the references whose key is not visited, in their order |
| `Closures.ChildrenExactly` | crates/niphas-core/src/nix/closure.rs:94-102 | the edges of the search lead to exactly the valid store paths whose basenames are listed as references |
| `Closures.InvComplete` | crates/niphas-core/src/nix/closure.rs:86-102 | a completed fetch, whichever it is, keeps the invariant of the search |
| `Closures.SchedulesAgree` | crates/niphas-core/src/nix/closure.rs:42-130 | any two successful runs return the same narinfos and the same paths up to order |
| `Closures.NarSizeOfClosure` | crates/niphas-core/src/nix/closure.rs:27-29 | the size is the sum over the reachable set, modulo 2^64 |
| `ClosureOrder.OrderIsNotTopological` | crates/niphas-core/src/nix/closure.rs:16-16 | with A to B and C, and C to B, every serial run resolves B before C |
| `ClosureOrder.SerialOrderIsWordOrder` | crates/niphas-core/src/nix/closure.rs:54-118 | a serial run returns the paths in the order of their least words: the shortest walks, ties broken by the positions of the references taken |
| `ClosureOrder.SerialTopologicalExactly` | crates/niphas-core/src/nix/closure.rs:16-16 | with concurrency 1 the order returned is topological if and only if each path's least word comes before those of the other paths it references |
| `ClosureOrder.WideTopologicalExactly` | crates/niphas-core/src/nix/closure.rs:66-118 | with a concurrency above the number of references, every order that some schedule returns is topological if and only if every reference leads one step further from the root |
| `ClosureOrder.OneReferrerIsTopological` | crates/niphas-core/src/nix/closure.rs:42-130 | for every concurrency and schedule: when no path has two other referrers, and the root none, the order is topological |
| `ClosureOrder.ConcurrentOrderIsNotTopological` | crates/niphas-core/src/nix/closure.rs:66-118 | a graph whose references all lead one step further from the root and whose serial order is topological, and a schedule with concurrency 2 that returns a path before one of its referrers |
| `ClosureOrder.AnyGraphCanBeListed` | crates/niphas-core/src/nix/closure.rs:86-102 | every finite graph of valid store paths is the reference graph of some binary cache |
| `ClosureOrder.KiteExists` | crates/niphas-core/src/nix/closure.rs:66-118 | that graph among them |
| `Fetching.FetchExact` | crates/niphas-csi/src/cache.rs:121-170 | for every name, over whatever earlier attempts have left: a fetch succeeds if and only if every check passes, the root is a directory whose links can be written, no link is left over and the way to its place exists; then it publishes exactly that tree at the place its path leads to |
| `Fetching.VerifiedExactly` | crates/niphas-csi/src/cache.rs:128-196 | a tree passes every check if and only if the narinfo of the name's hash digits gives a file with the file hash, which holds, inflated by one of three decompressors or taken as it is, the archive of that tree, and the archive hash is that of the archive |
| `Fetching.FailedFetchLeaves` | crates/niphas-csi/src/cache.rs:121-170 | what a failed fetch leaves: nothing new without a download, no staging directory after a refused archive or a failed rename, what could be written after a failed extraction |
| `Fetching.AddressableExactly` | crates/niphas-csi/src/cache.rs:142-144 | a name that parses leads to its own entry, in every directory, if and only if it has no slash |
| `Fetching.DetourParses` | crates/niphas-core/src/nix/store_path.rs:36-71 | a detour through one entry to another parses, with the hash of the first, and leads to the second |
| `Fetching.DetourPublishesOtherTree` | crates/niphas-csi/src/cache.rs:121-170 | with the first cached and the second missing, a fetch of the detour publishes the first one's tree under the second one's name |
| `Fetching.AnyTreeCanBeServed` | crates/niphas-csi/src/cache.rs:128-160 | every well-formed tree within the depth limit has an archive that passes every check |
| `Fetching.CanonicalArchiveIsNeverCached` | crates/niphas-csi/src/cache.rs:146-168 | whatever its tree and whatever is left over, a fetch does not publish a canonical archive |
| `Fetching.TmpNameInjective` | crates/niphas-csi/src/cache.rs:142-143 | a temporary name determines its basename and its process |
| `Fetching.BasenameIsNotTmp` | crates/niphas-csi/src/cache.rs:105-117 | no store-path basename looks like a temporary name, so cleaning up spares every finished entry |
| `Fetching.TmpNameText` | crates/niphas-csi/src/cache.rs:105-143 | the text of a temporary name, and the prefix by which the cleanup knows one |
| `Fetching.StripStoreExactly` | crates/niphas-csi/src/cache.rs:56-60 | a store path is cached under its basename, and other text is taken as it is |
| `Fetching.NarCache.Fetch` | crates/niphas-csi/src/cache.rs:121-170 | computes `FetchAndExtract`: what exists afterwards, by path, and the outcome, on every way through the function |
| `Fetching.NarCache.EnsureCached` | crates/niphas-csi/src/cache.rs:69-102 | the loop computes `EnsureAll`, for any names |
| `Fetching.EnsureAllOutcome` | crates/niphas-csi/src/cache.rs:69-102 | if no path asked for is a store path with a slash: success means every final name is present; what was present stays as it was; a new name passed every check |
| `Fetching.EnsureAllExactly` | crates/niphas-csi/src/cache.rs:69-102 | for entries of the cache directory: a list can be had if and only if each path is there or can be published; then each new one has its verified tree, what was there is as it was, and nothing else is new |
| `Fetching.NarCache.CleanupTempDirs` | crates/niphas-csi/src/cache.rs:105-117 | every temporary entry of the cache directory goes with all below it, nothing else does |
| `CacheProtocol.InvAfter` | crates/niphas-csi/src/cache.rs:69-170 | every step of every run in which no request asks for a store path with a slash (calls, locking, each file-system call, disk faults, cancellation, crash, sweep) keeps the invariant of disk, locks and tasks |
| `CacheProtocol.MutualExclusion` | crates/niphas-csi/src/cache.rs:82-98 | in every state of such a run at most one task holds the lock of a name or is past its second check |
| `CacheProtocol.OnlyVerifiedTreesAppear` | crates/niphas-csi/src/cache.rs:121-170 | in every state of such a run a final name holds the complete tree of an archive whose hash is the narinfo's archive hash, from a file whose hash is its file hash |
| `CacheProtocol.CanonicalArchivesNeverAppear` | crates/niphas-csi/src/cache.rs:121-170 | in no state of such a run does a final name exist whose download is a canonical archive |
| `CacheProtocol.EntrySurvives` | crates/niphas-csi/src/cache.rs:69-117 | once present, a final name keeps its contents and is never downloaded again in such a run, through crashes, sweeps and cancellations |
| `CacheProtocol.FinishedHasAll` | crates/niphas-csi/src/cache.rs:69-102 | in such a run, a call that returned without error has every final name it was asked for complete on disk |
| `CacheProtocol.ExtractCall` | crates/niphas-csi/src/cache.rs:162-162 | one call of an extraction, done, failed or torn, leaves a part of the goal tree |
| `CacheProtocol.UndisturbedFetchPublishes` | crates/niphas-csi/src/cache.rs:94-168 | from any state of the protocol, a task left alone with the lock of a missing, verified name takes a number of steps given by the tree and lets the lock go; the name is then published if and only if it can be cached and no link is left over, and otherwise the task has failed |
| `CacheProtocol.StuckUntilRestart` | crates/niphas-csi/src/cache.rs:142-168 | once a link is left under the temporary name and no task is past it, the name does not appear in such a run while the service stays up, whoever asks and however the disk behaves |
| `CacheProtocol.StuckIsReachable` | crates/niphas-csi/src/cache.rs:162-162 | for every cacheable name whose tree has anything after a link, a run of a new service with one failing call gets there |
| `CacheCalls.UndisturbedCall` | crates/niphas-csi/src/cache.rs:69-102 | from any state of the protocol, a call for entries of the cache directory that no other task gets in the way of ends, and ends without error if and only if each name is there or can be published; then exactly those names are new |
| `CacheCalls.RestartRecovers` | crates/niphas-csi/src/cache.rs:105-117 | a crash, the cleanup and a new start make every cacheable name obtainable again, and keep what is published |
| `NodeService.Server.NodePublishVolume` | crates/niphas-csi/src/node.rs:46-130 | computes `Publish`: cache, mounts, target directories and answer |
| `NodeService.Server.BindMountReadonly` | crates/niphas-csi/src/mount.rs:53-90 | bind and remount: mounted read-only, undone, or left writable when neither works |
| `NodeService.Server.NodeUnpublishVolume` | crates/niphas-csi/src/node.rs:132-167 | computes `Unpublish` |
| `NodeService.ClosureListOfJoin` | crates/niphas-operator/src/resources.rs:83-83 | split, trim and filter give back the operator's joined list if and only if each path is non-empty, has no comma and no white space at its ends |
| `NodeService.ClosureListMeaning` | crates/niphas-csi/src/node.rs:82-86 | the list of any text is that of its parts between commas in order, each without white space around it, blank ones left out |
| `NodeService.AttributesOfDeployment` | crates/niphas-operator/src/resources.rs:83-83 | the attribute holds the list that a deployment is built from, and publishing reads it back if each path can be listed |
| `NodeService.PublishedVolume` | crates/niphas-csi/src/node.rs:46-130 | success on a free target mounts exactly that target, read-only, from a source that exists; if no closure path is a store path with a slash, every final name of the closure is in the cache and the others are as they were |
| `NodeService.PublishAnswersExactly` | crates/niphas-csi/src/node.rs:46-130 | when a publish call succeeds and which error it answers otherwise: volume and target named; the target mounted already, or both attributes with some path, the closure cached, the directory there or made, the source found, and bind and remount working |
| `NodeService.PublishedDirectory` | crates/niphas-csi/src/node.rs:104-127 | the target directory is there after a success, gone after a failure where it can be removed, and no call touches another |
| `NodeService.FailedPublishKeepsMounts` | crates/niphas-csi/src/node.rs:46-130 | a failed call leaves the mounts as they were, if and only if it is not the case that the bind worked and neither remount nor undo did |
| `NodeService.LeftoverMountIsReportedPublished` | crates/niphas-csi/src/node.rs:66-69 | in that case the mount is writable, and the next call answers success without touching it |
| `NodeService.UnpublishUndoesPublish` | crates/niphas-csi/src/node.rs:132-167 | publishing and then unpublishing restores mounts and directories |
| `NodeService.UnpublishAgain` | crates/niphas-csi/src/node.rs:132-167 | a failed call changes nothing, a successful one removes that mount only, and repeating it changes nothing more |
| `NodeService.UnpublishAnswersExactly` | crates/niphas-csi/src/node.rs:132-167 | when an unpublish call succeeds, which error it answers otherwise, and what is left of mounts and directories |
| `NodeService.OperatorClosureIsFetched` | crates/niphas-csi/src/node.rs:72-90 | with the store path added, the fetched list is the operator's list |
| `NodeRuns.MountedVolumesAreComplete` | crates/niphas-csi/src/node.rs:46-167 | in every state of every run in which no volume asks for a store path with a slash, each mounted volume has every final name of its closure, and its source if that is one, complete and verified in the cache |
| `NodeRuns.MountsChangeOnlyByTheirCalls` | crates/niphas-csi/src/node.rs:46-167 | only the return of its own publish call mounts a target, and only an unpublish call for it removes the mount |
| `NodeRuns.CallBeginsExactly` | crates/niphas-csi/src/node.rs:54-90 | a request becomes a call if and only if it names volume and target, the target is free, and both attributes are there with some path listed |
| `NodeRuns.ReturnMountsExactly` | crates/niphas-csi/src/node.rs:104-129 | the return of a call that has its closure mounts the target if and only if the source is there, the directory can be had and the kernel obeys; a bind that can be neither remounted nor undone is the one other way |
| `NodeRuns.HangUpEndsTheCall` | crates/niphas-csi/src/node.rs:46-130 | a caller that hangs up ends its own call only, frees the lock it held, and leaves disk and mounts alone |
| `NodeRuns.UnpublishCallExactly` | crates/niphas-csi/src/node.rs:132-167 | what an unpublish call for a target with no publish call under way leaves of mounts and directories, in every case |
| `NodeRuns.WholePublishExactly` | crates/niphas-csi/src/node.rs:46-130 | a whole publish call on a quiet node, for paths without a slash: its return mounts the target read-only if and only if each path is cached or can be, the source is among them or cached, and the kernel obeys |
| `NodeRuns.InvReach` | crates/niphas-csi/src/node.rs:46-167 | every event of such a run keeps the invariant of cache, calls and mounts |
| `Globs.MatchesGlob` | crates/niphas-eval/src/allowlist.rs:33-67 | the loop over both iterators with its recursion at `*` computes `Glob`, aborts included |
| `Globs.GlobCorrect` | crates/niphas-eval/src/allowlist.rs:33-67 | for every input: yes only if some substrings for the stars make the pattern the input, no only if none do |
| `Globs.GlobDecides` | crates/niphas-eval/src/allowlist.rs:33-67 | on ASCII input, yes if and only if such substrings exist |
| `Globs.AsciiNeverAborts` | crates/niphas-eval/src/allowlist.rs:45-52 | on ASCII input no slice is off a character boundary |
| `Globs.AbortsExactly` | crates/niphas-eval/src/allowlist.rs:45-52 | an input never makes the matcher slice off a character boundary, whatever the pattern, if and only if it is ASCII |
| `Globs.DocumentedWhenSlashesAgree` | crates/niphas-eval/src/allowlist.rs:6-6 | for one input and pattern, the documented meaning holds if and only if the code's does and pattern and input have equally many slashes |
| `Globs.DocumentedForAllInputs` | crates/niphas-eval/src/allowlist.rs:6-6 | the two meanings agree on every input if and only if the pattern has no star |
| `Globs.ValidateFlakeRef` | crates/niphas-core/src/eval.rs:49-109 | accepts exactly the safe references |
| `Globs.AllowedCharacters` | crates/niphas-core/src/eval.rs:63-106 | the characters allowed in scheme and path, written out |
| `Globs.CheckAllowlist` | crates/niphas-eval/src/allowlist.rs:13-31 | admitted only by a matching pattern, denied only if none matches, aborted only on non-ASCII text |
| `Globs.AdmitRequest` | crates/niphas-eval/src/evaluator.rs:37-42 | for every flake reference the two checks decide without an abort, and let it through if and only if it is safe and some pattern matches |
| `EvalResults.CachedAgreesWithFresh` | crates/niphas-operator/src/eval.rs:26-49 | a persisted and rebuilt result gives the same store path and closure, the same command if and only if the program name has no `/`, and the same deployment if and only if that is so or the spec overrides the command |
| `EvalResults.CacheNeverDrifts` | crates/niphas-operator/src/reconciler.rs:386-396 | after any number of passes over the cache, the deployment is what the evaluation gave if and only if there were none, the spec overrides the command, or the program name has no `/` |
| `Reconciler.ApiServer.Reconcile` | crates/niphas-operator/src/reconciler.rs:19-174 | an uninterrupted pass leaves the object as the steps of the state machine do |
| `Passes.PassExactly` | crates/niphas-operator/src/reconciler.rs:19-174 | what one uninterrupted pass leaves of any object, for any answers: finalizers on deletion and creation, nothing when up to date, and otherwise the status after failure, interruption or report, field by field, with the evaluator called if and only if the status lags or holds no result |
| `Reconciler.InvAfter` | crates/niphas-operator/src/reconciler.rs:19-405 | every step, write, crash and user change keeps the invariant |
| `Reconciler.ProvenanceOverRuns` | crates/niphas-operator/src/reconciler.rs:190-200 | in every reachable state: generation of the result, observed generation and generation are in this order, and the first two differ if and only if a failure was recorded at a later generation since |
| `StoredResults.StoredIsAnswered` | crates/niphas-operator/src/reconciler.rs:333-405 | in every reachable state with a result, whatever the phase: the evaluator was called for that generation and answered it; path and closure are those of the answer; so is the command if and only if the last report was of a fresh evaluation or the program has no `/` |
| `StoredResults.CommandKeptExactly` | crates/niphas-operator/src/eval.rs:26-49 | a stored command is that of the answer if and only if nothing has rebuilt it or the program has no `/` |
| `Reconciler.NoEvaluationUntilSpecChanges` | crates/niphas-operator/src/reconciler.rs:51-95 | from every reachable state whose status claims the current generation and holds a result, no evaluation is called until the spec changes |
| `Reconciler.EvaluationStopsExactly` | crates/niphas-operator/src/reconciler.rs:51-95 | from a reachable state with a result and no deletion, no continuation without a spec change evaluates if and only if the status claims the current generation |
| `Reconciler.StaleUntilGenerationRises` | crates/niphas-operator/src/reconciler.rs:190-200 | from every reachable state whose status claims more than its result, no evaluation is called, and that stays so, before the generation rises above the one observed |
| `Reconciler.RunningOverRuns` | crates/niphas-operator/src/reconciler.rs:333-405 | phase Running comes with its three conditions at the observed generation, and with at least the replicas that generation asked for |
| `Reconciler.RunningIsAbsorbing` | crates/niphas-operator/src/reconciler.rs:44-49 | from every reachable state that is Running at the current generation, the status stays as it is until the spec changes, through passes, crashes, finalizer edits and deletion |
| `Reconciler.FinalizerWrites` | crates/niphas-operator/src/reconciler.rs:202-255 | the finalizer is added or removed, and other controllers' finalizers survive if and only if the snapshot listed the same ones |
| `Reconciler.ForeignExactly` | crates/niphas-operator/src/reconciler.rs:227-255 | removal leaves out exactly the reconciler's own finalizer and keeps the others in order |
| `Leaders.OrderHoldsExactly` | crates/niphas-operator/src/reconciler.rs:300-405 | with any number of passes side by side, from copies of any age: the result is no newer than the status in every state of a run if and only if no failure of the run is written with a generation older than the result stored at that time |
| `Leaders.LaggingLeaderKeepsOrder` | crates/niphas-operator/src/reconciler.rs:19-174 | passes one after the other, from copies that may lag but do not go back, keep that order in every state of every run |
| `Leaders.CheckedWritesKeepOrder` | crates/niphas-operator/src/reconciler.rs:300-331 | so does any number of leaders whose failures are written only over a status that claims no later generation |
| `Leaders.RunningOverAllRuns` | crates/niphas-operator/src/reconciler.rs:333-405 | with any leaders and copies of any age, in every state of every run, phase Running comes with its three conditions at the observed generation and at least the replicas that generation asked for |
| `LeaderResults.StoredIsRepliedToSomeone` | crates/niphas-operator/src/reconciler.rs:333-405 | with any leaders and copies of any age, in every state with a result: some leader called the evaluator for that generation and got that answer; path and closure are those of the answer, and so is the command if and only if the result was not rebuilt or the program has no `/` |
| `Leaders.FormerLeaderBreaksOrder` | crates/niphas-operator/src/reconciler.rs:300-331 | a run of two leaders after which the status claims one generation less than its result |
| `Reconciler.StaleResultReportedCurrent` | crates/niphas-operator/src/reconciler.rs:300-331 | a run of two generations in which a failed update is followed by a pass that reports the previous generation's result as Running and current, for every result that can be rebuilt |
| `Reconciler.StaleResultIsReportedFromAnywhere` | crates/niphas-operator/src/reconciler.rs:94-174 | from every reachable state whose status claims the current generation with an older result that can be rebuilt, no deletion and the finalizer in place, a continuation without a spec change or an evaluation reports it as Running at that generation |

## Left out

- The HTTP client and its fallback over several caches: `fetch` is a function.
- Ed25519 and base64: signatures are opaque values with a codec as a parameter.
- SHA-256 and the decompressors: functions of the bytes.
- System calls other than their outcomes: mounts and directories are tables, `/proc` is not parsed, and targets are compared as text.
- The manifest builders of the operator, apart from the closure list and the volume attributes: literals with easy properties.
- Leader election: the algorithm is in another crate. What several leaders at once do to the status is in `Leaders`.
- Requeue intervals, events, messages, timestamps and the child resources removed on deletion: none feeds back into the modelled state.
- The validators of attributes and revisions: loops like that of the flake reference.
- The mesh, garbage collection, telemetry, configuration and the `nix eval` process.
- Closures.ResolveClosure: the clock is the number of loop iterations it lets pass; the timeout of a single fetch is a failing fetch.
- ClosureOrder.OneReferrerIsTopological: for a concurrency between 1 and the number of references the condition is sufficient and not necessary: which paths share a batch depends on how the batches fall.
- `file_size` of a closure: the same sum as `nar_size`.
- NarReading.NarReader.Parse: the byte count does not wrap at 2^64.
- Fetching.NarCache.EnsureCached: paths are read part by part, where every directory on the way exists; links on the way are not followed, and what exists inside a cached tree is given with the other places.
- CacheProtocol.InvAfter: a run in which a store path with a slash is asked for is not covered; `Fetching` says what one fetch of such a name does. Whether a name that does not parse and is no entry exists is left open.
- Fetching.NarCache.Fetch: the disk obeys; failing and torn calls are in `CacheProtocol`.
- Extraction.ExtractIntoFresh: limits on the length of names and link targets are those of the file system and not modelled; in `CacheProtocol` any call may fail.
- Reconciler.InvAfter: one pass at a time, from the current object; `Leaders` lifts both for the order of result and status.
- NodeRuns.MountedVolumesAreComplete: calls for one target are serialised, as the Container Storage Interface specification asks; overlapping mounts on one target are not modelled.
