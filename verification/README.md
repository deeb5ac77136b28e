# Once: a verified model of its store and executor core

Once is a content-addressed build cache and executor. This project models the parts of it whose
correctness is hard to see from one function, and proves what its documentation promises of them.

| file | models |
|---|---|
| Gc.dfy | the garbage collector: two eviction tiers, the reference-count cascade, deletion order |
| Store.dfy, Durability.dfy, BlobCodec.dfy | blob files under concurrent writers, removals and crashes; what survives a power loss; their stored form |
| Budget.dfy | the transfer budget over a fair semaphore |
| Extraction.dfy, Download.dfy | ZIP extraction, its links, and byte accounting against one reservation |
| DirectoryCapture.dfy, DirectoryCodec.dfy, DirectoryStage.dfy, DirectoryRestore.dfy, DirectorySnapshot.dfy | directory snapshots: the walk, the binary form, the staged restore, and the round trip |
| InputDigest.dfy, SourceDigest.dfy | the input digest builder and the digest of a source path |
| Archive.dfy | resolving declared archive entries into members |
| Events.dfy | the run event bus and paced publication |
| Termination.dfy | the signal handler and watcher over two atomics |
| Paths.dfy, Trees.dfy, Ordering.dfy, Encodings.dfy, Common.dfy | normal-form paths, directory trees, sorting, integers and text as bytes |

`dafny verify dfyconfig.toml` checks everything.

## How the source is represented

- The digest function is any function from bytes to 32 bytes. Nothing assumes that it is injective:
  conclusions read "equal, or here is a colliding pair".
- The compressor is any pair in which inflating undoes compressing. Inflating other bytes may give
  anything, or fail.
- A filesystem is a finite map from component sequences to nodes, with the order in which each
  directory lists its entries. Where following a link ends is part of the node.
- Concurrent code is a set of atomic steps; theorems range over every sequence of enabled steps.
  A power loss in Store.dfy may undo any change whose directory was not synchronized, the creation of a
  directory with all it holds included, and may tear any content that was not; it may not be counted on that
  the operating system writes things back earlier on its own. Readings of the monotonic clock in
  Termination.dfy do not decrease.
- Modification times are natural numbers. Saturating u64 operations are written out where a result
  depends on them (Download.dfy, BlobCodec.dfy); in the collector the totals are proved exact, so
  its saturating subtractions never saturate.

## Where a promise needs a condition

- The collector ends within its budget exactly when the files hidden by a later-scanned file of the
  same digest fit it (`Gc.BudgetMetIff`); the store writes one file per digest, and then it always does.
- A download stays within its reservation exactly when the reserved sum is representable in a u64
  (`Download.CoveredIff`).
- The streamed blob decoder accepts one kind of file that the in-memory one rejects
  (`BlobCodec.StreamedAgreesIff`); the store never writes it.
- A put is durable exactly when an earlier power loss left its shard directory, because the shard is
  synchronized and the directory that holds it is not (`Durability.AcknowledgedSurvivesIff`,
  `Durability.FirstPutMayBeLost`). From then on it stays durable (`Durability.AcknowledgedPutSurvives`). A put that
  finds the blob already there rests on whatever settled it before (`Durability.EarlyReturnSurvivesIff`).
- A watcher may be installed exactly when no handler is in the way (`Termination.InstallSafeIff`).
  Installing none after a claimed signal is enough (`Termination.UnclaimedInstallsAreGuarded`).
- Paced publication loses nothing exactly when every event fits above the high-water mark
  (`Events.LossFreeIff`). One-message events always do; a log chunk split into many messages may not
  (`Events.SplitChunkOverruns`).
- Extracted links stay below the destination exactly when no extracted link entry is written with a
  leading `.` and climbs the level that its component count adds (`Extraction.StaysInsideIff`). Whether the
  ZIP reader hands over a leading `.` is up to that library; both cases are covered.
- Keyed pushes are told apart when labels hold no NUL. That is sufficient and not exact: a NUL confuses the
  sequences of `InputDigest.NulLabelConfuses`, and need not confuse others.

## Model

| member | source | states |
|---|---|---|
| `Gc.PlanEviction` | crates/once-cas/src/gc.rs:38-126 | The evicted orphans and then the evicted actions are the shortest oldest-first prefixes that reach the budget, no action goes while an orphan is left, a blob goes exactly when it is an evicted orphan or every action that referenced it went, and both totals are exactly the sizes of what is there before and after. |
| `Gc.PlanDetermined` | crates/once-cas/src/gc.rs:38-126 | That promise has one solution: two plans that keep it are the same plan, files, order and totals. |
| `Gc.SurvivorsKeepTheirBlobs` | crates/once-cas/src/gc.rs:97-126 | No blob that a surviving action references is removed, whatever the ages, sizes and repeated references. |
| `Gc.ReferencedBlobRemovedIff` | crates/once-cas/src/gc.rs:97-126 | With one file per digest a referenced blob is removed exactly when no surviving action references it. |
| `Gc.BudgetMetIff` | crates/once-cas/src/gc.rs:69-126 | The pass ends within its budget exactly when the referenced files that share their digest with a later-scanned file fit the budget by themselves. |
| `Gc.BudgetMet` | crates/once-cas/src/gc.rs:69-126 | With one file per digest every pass ends within its budget. |
| `Gc.BudgetMissed` | crates/once-cas/src/gc.rs:64-68 | Two files of one digest and a budget of zero: every correct plan ends above the budget. |
| `Gc.StrandedSurvive` | crates/once-cas/src/gc.rs:64-126 | Files shadowed in the digest index outlive every plan, so they bound every total from below. |
| `Gc.OnlyStrandedLeft` | crates/once-cas/src/gc.rs:77-126 | Evicting everything evictable leaves exactly those files. |
| `Gc.AnyPrefixRestorable` | crates/once-cas/src/gc.rs:128-167 | Deletion may stop after any victim: every snapshot action still on disk keeps every referenced blob that was on disk. |
| `Gc.CountReferences` | crates/once-cas/src/gc.rs:57-63 | The counts are the multiplicities of each digest over all actions, repeated references counted. |
| `Gc.AddReferences` | crates/once-cas/src/gc.rs:59-62 | One action adds exactly its references to the counts. |
| `Gc.IndexBlobs` | crates/once-cas/src/gc.rs:64-68 | The index finds the last scanned file of each digest, and every such file. |
| `Gc.SortByModified` | crates/once-cas/src/gc.rs:86 | A stable sort by age: the same indices, oldest first, equal ages in scan order. |
| `Gc.OneOrder` | crates/once-cas/src/gc.rs:86 | There is one oldest-first listing of a set of files. |
| `Gc.FindOrphans` | crates/once-cas/src/gc.rs:77-86 | Exactly the files without a digest or without a reference, oldest first. |
| `Gc.OrderActions` | crates/once-cas/src/gc.rs:98-99 | All actions, oldest first. |
| `Gc.EvictOrphans` | crates/once-cas/src/gc.rs:87-93 | The shortest orphan prefix that reaches the budget, or all orphans, with an exact running total. |
| `Gc.DropOne` | crates/once-cas/src/gc.rs:106-122 | One dropped reference keeps every count equal to the references still counted, so it never saturates, and releases the blob exactly when the count of its digest reaches zero. |
| `Gc.ReleaseBlobs` | crates/once-cas/src/gc.rs:106-124 | After all references of an evicted action are dropped, counts, removed blobs and total are those of the plan with one more action evicted. |
| `Gc.EvictAction` | crates/once-cas/src/gc.rs:104-124 | One eviction keeps exact counts, both bitmaps and the total. |
| `Gc.EvictActions` | crates/once-cas/src/gc.rs:97-126 | The shortest action prefix that reaches the budget, or all actions. |
| `Gc.LiveRefsAlive` | crates/once-cas/src/gc.rs:57-63 | A digest is counted exactly when a surviving action references it. |
| `Gc.LiveRefsEvict` | crates/once-cas/src/gc.rs:104-109 | Evicting an action takes exactly its references, with multiplicity, out of the counts. |
| `Gc.Disk.RemoveFiles` | crates/once-cas/src/gc.rs:158-167 | Deletes in order and skips missing files; it fails exactly at the first file that is there and cannot be removed, and the files gone are exactly those before it. |
| `Gc.Disk.Collect` | crates/once-cas/src/gc.rs:38-155 | The whole pass: a correct plan and an exact report; it fails exactly when a victim that is there cannot be removed, and then exactly the victims before the first such one are gone; on success a file is gone exactly when the plan evicts it; a dry run deletes nothing; the store is restorable on every outcome. |
| `Gc.AllEvicted` | crates/once-cas/src/gc.rs:128-155 | Deleting all victims of a correct plan deletes, of the files that were there, exactly the evicted actions and blobs. |
| `Gc.VictimCount` | crates/once-cas/src/gc.rs:128-155 | The reported number of files is the number of evicted actions and blobs. |
| `Extraction.StaysInsideIff` | crates/once-core/src/execute.rs:687-750 | For every entry list and wherever extraction stops, following paths of names from the extracted directories, over any number of links and steps, stays below the destination exactly when no extracted link entry with a leading `.` has a target that uses the level this adds. |
| `Extraction.PlainArchiveStaysInside` | crates/once-core/src/execute.rs:687-750 | An archive without such an entry is confined wherever its extraction stops; this can be read off the archive beforehand. |
| `Extraction.LeadingDotCounts` | crates/once-core/src/execute.rs:839 | A leading `.` counts as a component: the link `./a` to `..` is accepted, and its tree is not confined. |
| `Extraction.LinksOfAll` | crates/once-core/src/execute.rs:687-750 | The links of an extracted tree are exactly those of its extracted link entries; none is lost to a later entry. |
| `Extraction.NeverAbove` | crates/once-core/src/execute.rs:821-866 | The walk invariant over any number of steps: what is pending is some `..` no deeper than the real directory, then names only. |
| `Extraction.StepConfined` | crates/once-core/src/execute.rs:821-866 | One step of pathname resolution, link expansion included, keeps that invariant. |
| `Extraction.InsideIffNeverAbove` | crates/once-core/src/execute.rs:829-853 | A target that climbs before it descends is accepted exactly when following it never leaves the destination. |
| `Extraction.CheckTarget` | crates/once-core/src/execute.rs:839-853 | The component loop accepts exactly the targets with at most the allowed number of leading `..` followed by names. |
| `Extraction.ExtractAllBounded` | crates/once-core/src/execute.rs:645-752 | Every tree extraction leaves, failed ones included, is well formed, and bytes written plus bytes remaining are the expansion bound. |
| `Extraction.ExtractionComplete` | crates/once-core/src/execute.rs:687-750 | A successful extraction shows exactly its entries, later ones over earlier ones, and the directories above them. |
| `Extraction.ExtractsIff` | crates/once-core/src/execute.rs:645-866 | Extraction succeeds exactly when every entry is neither escaping nor unsupported; only directories were placed above its path; a directory meets only directories at its path, a file only files at it and nothing below it, and a link nothing at or below it; a link target is readable, not empty and accepted; and the declared size and the intact stream of a file fit what earlier files left of the bound. |
| `Extraction.ExtractedNode` | crates/once-core/src/execute.rs:687-817 | A successful extraction leaves at each path what the last entry for it says: a directory, its link target, or its bytes with the low nine bits of its mode, and no mode when the archive records none. |
| `Extraction.Destination.TraversesExtractedSymlink` | crates/once-core/src/execute.rs:821-827 | Finds a link at the path or above it, exactly. |
| `Extraction.Destination.ExtractSymlink` | crates/once-core/src/execute.rs:834-866 | Creates the link exactly when the target is accepted for the component count of the entry and the place is free and reachable. |
| `Extraction.Destination.ExtractBoundedFile` | crates/once-core/src/execute.rs:756-817 | Writes no more than the remaining bytes whatever the entry declares, and succeeds only when the whole entry was copied. |
| `Extraction.Destination.ExtractEntry` | crates/once-core/src/execute.rs:687-750 | The new tree, bytes written, bytes left and success are those of one step of the specification, whose success is characterized from the archive by Extraction.ExtractsIff. |
| `Extraction.Destination.ExtractArchive` | crates/once-core/src/execute.rs:645-752 | Succeeds exactly when every entry fits after those before it, and then shows exactly the entries and has written exactly their bytes; on every outcome the tree is well formed, within the bound, and confined exactly when no extracted entry climbs out. |
| `Download.CoveredIff` | crates/once-core/src/execute.rs:443-494 | A download that passes the first size check stays within its staging reservation on all responses and archives exactly when the reservation is representable in a u64. |
| `Download.CoveredByHalf` | crates/once-core/src/execute.rs:569-589 | Twice the archive limit fitting in a u64 is enough for every response. |
| `Download.WrittenWithinStaging` | crates/once-core/src/execute.rs:443-494 | Archive bytes plus extracted bytes stay within the one reservation. |
| `Download.ReceiveBound` | crates/once-core/src/execute.rs:474-492 | The size counter is exact and within the allowance, whatever the chunks. |
| `Download.ReceiveIff` | crates/once-core/src/execute.rs:443-492 | A body is accepted exactly when no error breaks it and the declared size, if any, and the saturating sum of its chunks are within their limits; all of it is then written. |
| `Download.CompleteIff` | crates/once-core/src/execute.rs:443-545 | Receiving, verifying and extracting all succeed exactly under conditions on the response and the archive alone. |
| `Download.ExtractedWithinRatio` | crates/once-core/src/execute.rs:569-575 | Whatever the archive holds, extraction writes no more than the declared size times the expansion ratio. |
| `Download.FillingExtractsIff` | crates/once-core/src/execute.rs:569-575 | An archive of one file extracts exactly when the file is within the declared size times the ratio and within the archive limit, or within the limit alone when no size is declared. |
| `Download.ReservationTight` | crates/once-core/src/execute.rs:577-589 | The reservation is not larger than needed: some response and archive use all of it. |
| `Download.ReceiveBody` | crates/once-core/src/execute.rs:443-492 | The size check and the chunk loop write exactly the specified bytes and stop at the specified error. |
| `Download.DownloadAndExtract` | crates/once-core/src/execute.rs:443-545 | The action writes exactly the specified bytes, within the reservation; it succeeds exactly when receiving, verifying, extracting and replacing all do, and then the destination shows exactly the archive; when one of the first three fails the old destination is untouched. |
| `Paths.TryFrom` | crates/once-core/src/path.rs:75-94 | The component loop keeps exactly what the normal form keeps and rejects absolute paths and `..`. |
| `Paths.ParseErrIff` | crates/once-core/src/path.rs:75-94 | A path is refused exactly when it starts with a slash or has `..` between slashes. |
| `Paths.ParseEmptyIff` | crates/once-core/src/path.rs:75-94 | An accepted path has no component exactly when nothing but `.` stands between its slashes. |
| `Paths.JoinSplit` | crates/once-core/src/path.rs:75-94 | The pieces between slashes, joined with slashes, are the text again. |
| `Paths.ParseJoin` | crates/once-core/src/path.rs:75-94 | Writing a normal path and reading it back gives the same components. |
| `Paths.ParseIdempotent` | crates/once-core/src/path.rs:75-94 | Normalization is idempotent. |
| `Paths.JoinInjective` | crates/once-core/src/path.rs:75-94 | Two normal paths with one text are one path. |
| `Paths.PackageRelativeIff` | crates/once-core/src/path.rs:58-69 | A source joins its package exactly when both are valid, and is then the package path followed by the source path. |
| `DirectoryCodec.DecodeIff` | crates/once-core/src/directory_blob.rs:423-527 | The reader accepts exactly the encodings of storable entries, in both versions, and returns those entries. |
| `DirectoryCodec.EncodeInjective` | crates/once-core/src/directory_blob.rs:150-167 | Storable entry lists with one encoding are the same list in the same version. |
| `DirectoryCodec.WrittenInjective` | crates/once-core/src/directory_blob.rs:150-167 | Entry lists whose fields fit their widths are determined by what is written, also where the reader would refuse them. |
| `DirectoryCodec.Truncated` | crates/once-core/src/directory_blob.rs:423-527 | Every proper prefix of a valid blob is rejected or decodes to a proper prefix of its entries. |
| `DirectoryCodec.PrefixEntries` | crates/once-core/src/directory_blob.rs:150-167 | An entry list whose encoding starts another is a prefix of it. |
| `DirectoryCodec.DecodeEncodeEntry` | crates/once-core/src/directory_blob.rs:467-527 | Reading an encoded entry gives it back and leaves what follows it. |
| `DirectoryCodec.EncodeDecodeEntry` | crates/once-core/src/directory_blob.rs:467-527 | Nothing else is read: the bytes consumed are the encoding of the entry returned. |
| `DirectoryCodec.HeadsAgree` | crates/once-core/src/directory_blob.rs:150-167 | Encoded entries are told apart by their own bytes, whatever follows them. |
| `DirectoryCodec.KindFromByte` | crates/once-core/src/directory_blob.rs:48-57 | The inverse of the kind byte, on every byte. |
| `DirectoryStage.StageAllIff` | crates/once-core/src/directory_stage.rs:67-154 | Staging succeeds exactly when no path equals or is above another and every name can be created; the private tree then shows exactly the entries. |
| `DirectoryStage.StageOneIff` | crates/once-core/src/directory_stage.rs:67-154 | One entry can be staged exactly when it clashes with none staged before it. |
| `DirectoryStage.OrderIrrelevant` | crates/once-core/src/directory_stage.rs:67-154 | Every order of the same entries gives the same outcome and the same tree. |
| `DirectoryStage.ConflictFreeIff` | crates/once-core/src/directory_stage.rs:132-154 | Conflict freedom is a property of the multiset of entries. |
| `DirectoryRestore.RestoreIff` | crates/once-core/src/directory_blob.rs:442-450 | The blob of storable entries restores exactly when no path equals or is above another and every name and target can be created, and to exactly those entries. |
| `DirectoryRestore.Reader.ReadLe` | crates/once-core/src/directory_blob.rs:611-621 | Takes a little-endian integer of the given width. |
| `DirectoryRestore.Reader.ReadHeader` | crates/once-core/src/directory_blob.rs:467-508 | Reads the header fields of either version in stream order. |
| `DirectoryRestore.Reader.NextEntry` | crates/once-core/src/directory_blob.rs:467-527 | One entry off the stream, or its end, or an error, as specified by the codec. |
| `DirectoryRestore.StagedTree.PrepareParent` | crates/once-core/src/directory_stage.rs:132-154 | Makes the missing directories exactly when nothing else is in the way; on failure only a prefix of them was made. |
| `DirectoryRestore.StagedTree.RestoreEntry` | crates/once-core/src/directory_stage.rs:67-130 | Stages one entry as specified and keeps the tree well formed. |
| `DirectoryRestore.StageEntries` | crates/once-core/src/directory_blob.rs:443-447 | The entry loop stages exactly the decoded entries, or fails when decoding or staging does. |
| `DirectoryRestore.StageFrom` | crates/once-core/src/directory_blob.rs:423-447 | Magic, version and entries of a stream into the private tree. |
| `DirectoryRestore.Workspace.RestoreDirectoryBlob` | crates/once-core/src/directory_blob.rs:423-450 | Succeeds exactly when the blob restores and nobody took the destination meanwhile; otherwise the destination is as others left it. |
| `DirectoryCapture.Collector.CollectDirectory` | crates/once-core/src/directory_blob.rs:170-207 | The walk ends on every finite filesystem, by external directories not being materialized and then positions below; it appends exactly the specified entries and restores the active set. |
| `DirectoryCapture.Collector.CollectEntry` | crates/once-core/src/directory_blob.rs:178-205 | One listed name contributes exactly its specified entries. |
| `DirectoryCapture.Collector.CollectExternal` | crates/once-core/src/directory_blob.rs:209-263 | A link that leaves the captured directory is materialized, or kept when its directory is already being materialized. |
| `DirectoryCapture.EnteredShrinks` | crates/once-core/src/directory_blob.rs:170-262 | Every directory the walk enters, by name or through a link, lowers the lexicographic measure. |
| `DirectoryCapture.IdleShrinks` | crates/once-core/src/directory_blob.rs:236-258 | Materializing one more external directory leaves fewer to materialize. |
| `DirectoryCapture.WalkApart` | crates/once-core/src/directory_blob.rs:170-263 | No captured path equals or is above another, whatever the links. |
| `DirectoryCapture.ListingIrrelevant` | crates/once-core/src/directory_blob.rs:170-207 | The captured entries do not depend on the order of any directory listing, in either mode. |
| `DirectoryCapture.PreserveCollects` | crates/once-core/src/directory_blob.rs:170-221 | In Preserve mode every captured entry is a file or link below the root, recorded as it is. |
| `DirectoryCapture.PreserveRecorded` | crates/once-core/src/directory_blob.rs:170-221 | In Preserve mode every file and link below the root is captured. |
| `DirectoryCapture.PreservedIff` | crates/once-core/src/directory_blob.rs:170-221 | In Preserve mode the captured entries are exactly one per file and link below the root: a file with its content and low nine mode bits, a link with its target, mode 0o777 and whether it leads to a directory. |
| `DirectoryCapture.LinkKeptIff` | crates/once-core/src/directory_blob.rs:217-262 | A link the walk gets to is captured as a link exactly when links are preserved, it does not resolve, stays inside, ends at a special file, or ends at an external directory entered on the way to it. |
| `DirectoryCapture.LinkMaterialized` | crates/once-core/src/directory_blob.rs:235-258 | Every other link is replaced by the content of its file, or by everything the walk captures in its directory. |
| `DirectoryCapture.WalkCollects` | crates/once-core/src/directory_blob.rs:170-263 | In both modes, what is captured stands at a place the walk gets to by entering directories and external links. |
| `DirectoryCapture.WalkCaptures` | crates/once-core/src/directory_blob.rs:170-263 | In both modes, what stands at such a place is captured. |
| `DirectoryCapture.AroundIsExternal` | crates/once-core/src/directory_blob.rs:235-252 | What is being materialized around a place are directories outside the captured one. |
| `DirectoryCapture.NamesNormal` | crates/once-core/src/directory_blob.rs:290-293 | Captured paths are normal and not empty. |
| `DirectorySnapshot.PreserveRoundTrip` | crates/once-core/src/directory_blob.rs:132-207 | Capturing in Preserve mode and restoring gives the same files and links at the same places, exactly the directories that hold one, and each file mode as max(mode & 0o777, 0o400). |
| `DirectorySnapshot.SnapshotRestores` | crates/once-core/src/directory_blob.rs:132-168 | In either mode a representable capture restores, and to exactly the collected entries. |
| `DirectorySnapshot.SnapshotIgnoresListing` | crates/once-core/src/directory_blob.rs:132-168 | The blob is the same bytes whatever order each directory was listed in. |
| `DirectorySnapshot.PreserveItems` | crates/once-core/src/directory_blob.rs:170-221 | The restored items are exactly the files and links below the root. |
| `DirectorySnapshot.EntriesApart` | crates/once-core/src/directory_blob.rs:148 | The stored entries are sorted by path and no path equals or is above another. |
| `DirectorySnapshot.WriteDirectoryBlob` | crates/once-core/src/directory_blob.rs:132-168 | The blob is the encoding of the sorted entries; the one error is a path longer than its length field. |
| `DirectorySnapshot.WriteEntries` | crates/once-core/src/directory_blob.rs:150-167 | The write loop emits exactly the encoding. |
| `Termination.NextInv` | crates/once-cli/src/termination.rs:171-264 | Every atomic step of handler and watcher keeps the protocol invariant. |
| `Termination.RunInv` | crates/once-cli/src/termination.rs:171-264 | The invariant holds after every interleaving. |
| `Termination.AtMostOneClaim` | crates/once-cli/src/termination.rs:171-187 | At most one signal is claimed per watch. |
| `Termination.ClaimHandedOver` | crates/once-cli/src/termination.rs:238-264 | A watch that ended returned exactly the signal claimed in it, or nothing when none was, and `recv` gave the same signal. |
| `Termination.IgnoredOnlyRepeats` | crates/once-cli/src/termination.rs:171-193 | A delivery is ignored only when it is of the claimed kind and the claim time is unrecorded or inside the repeat window. |
| `Termination.WatchedSignalIsCaught` | crates/once-cli/src/termination.rs:177-180 | With a live watcher that has caught nothing, the next signal to reach the exchange is claimed. |
| `Termination.ReceiveIff` | crates/once-cli/src/termination.rs:238-248 | After every interleaving, `recv` can return exactly when the live watch has claimed a signal, and it returns that signal. |
| `Termination.ExchangeIff` | crates/once-cli/src/termination.rs:171-187 | After every interleaving, a delivery that reaches the exchange claims a live watch without a claim, is compared with a claim of its own kind, and keeps its default disposition otherwise. |
| `Termination.RepeatIgnoredIff` | crates/once-cli/src/termination.rs:182-193 | With the time of the current claim recorded or yet to be, a repeat of its kind is ignored exactly when the claim is still being stored or the repeat came inside the window. |
| `Termination.InstallSafeIff` | crates/once-cli/src/termination.rs:171-235 | With a clock that does not run backwards, wherever the invariant holds and no watcher is installed, installing one keeps deliveries from being ignored unjustly in every continuation exactly when no handler has yet to compare a repeat from outside its window, and no claim yet to be recorded can mislead a repeat of a claim that an earlier delivery on its way could still make. |
| `Termination.ResetThenCheckIff` | crates/once-cli/src/termination.rs:189-193 | Right after an install, a comparison ignores a delivery unjustly exactly when its claim is recorded and it came outside the window. |
| `Termination.UnclaimedInstallsAreGuarded` | crates/once-cli/src/termination.rs:228-235 | Sequences of steps that install no watcher after a claimed signal satisfy that guard. |
| `Termination.UnclaimedIsQuiet` | crates/once-cli/src/termination.rs:171-193 | Before any claim no handler is between its exchange and its end. |
| `Termination.GuardNeeded` | crates/once-cli/src/termination.rs:228-235 | Situations without a watcher where none may be installed yet are reachable. |
| `BlobCodec.RoundTrip` | crates/once-cas/src/blob.rs:21-64 | Decoding the stored form returns the original bytes, magic-prefixed ones included. |
| `BlobCodec.SizeIsOriginal` | crates/once-cas/src/store.rs:70-90 | The size read from the stored file is the length of the original. |
| `BlobCodec.GrowsOnlyEscaped` | crates/once-cas/src/blob.rs:21-33 | The stored form is longer than the original only for magic-prefixed bytes. |
| `BlobCodec.EncodeIff` | crates/once-cas/src/blob.rs:21-33 | Encoding succeeds exactly when the original and the wrapped length fit a u64, and unless the bytes start with the magic the stored length is the smaller of the two. |
| `BlobCodec.DecodeIff` | crates/once-cas/src/blob.rs:35-64 | A stored file decodes exactly to itself without the magic, and otherwise exactly to bytes of the recorded size that its body inflates to; only a recorded size of the largest u64 lets a longer body through, cut. |
| `BlobCodec.DecodedSize` | crates/once-cas/src/store.rs:70-90 | What decodes has the size the store reports for the stored file. |
| `BlobCodec.StreamedAgreesIff` | crates/once-cas/src/blob.rs:94-160 | The streamed and the in-memory decoder agree exactly except on a file cut inside its header that still hashes to the expected digest. |
| `BlobCodec.MagicAlone` | crates/once-cas/src/blob.rs:114-139 | The shortest such file is the magic alone: one decoder returns it, the other fails. |
| `BlobCodec.StreamedRoundTrip` | crates/once-cas/src/blob.rs:94-160 | Both decoders return the original bytes of every stored form. |
| `BlobCodec.ReadHeader` | crates/once-cas/src/blob.rs:102-110 | Reads of any length fill the header buffer with exactly the first bytes. |
| `BlobCodec.DecodeOpenFile` | crates/once-cas/src/blob.rs:94-160 | Publishes exactly what streamed decoding gives, and nothing once cancelled. |
| `Store.VisibleIsComplete` | crates/once-cas/src/filesystem.rs:31-77 | In every interleaving of puts, mirrors, removals, failures, process deaths and power losses, a file at a blob path is one complete encoding of bytes with that digest. |
| `Store.GetReturnsWhatWasPut` | crates/once-cas/src/store.rs:189-220 | A lookup finds nothing, or the bytes put under the digest, or exhibits a collision; never a corrupt file. |
| `Store.PutCompletes` | crates/once-cas/src/filesystem.rs:31-77 | After every interleaving, whatever the other writers are doing, a put of new bytes can finish; a lookup then finds those bytes and every other blob is as it was. |
| `Store.PutOfExisting` | crates/once-cas/src/store.rs:98-103 | A put of bytes whose blob is there changes nothing. |
| `Store.RemovedIsGone` | crates/once-cas/src/store.rs:189-220 | A removed blob is not found, and every other lookup is as before. |
| `Store.DeathEndsOwnWriters` | crates/once-cas/src/filesystem.rs:31-77 | A process that dies takes its own writers with it and no others, and leaves every blob and temporary file as it was. |
| `Store.NothingLeftBehind` | crates/once-cas/src/filesystem.rs:31-77 | As long as no process dies and no power is lost, every temporary file belongs to a writer that is still writing it: those of failed and finished writes are gone. |
| `Durability.AcknowledgedPutSurvives` | crates/once-cas/src/filesystem.rs:31-77 | Once a put into a shard that an earlier power loss left is acknowledged, every lookup in every continuation that does not remove the blob finds its bytes, whatever other writers do and through any number of power losses, or exhibits a collision. |
| `Durability.AcknowledgedSurvivesIff` | crates/once-cas/src/filesystem.rs:31-77 | Right after it is acknowledged, a put survives the next power loss exactly when an earlier one left its shard directory. |
| `Durability.FirstPutMayBeLost` | crates/once-cas/src/filesystem.rs:31-33 | The first put of a shard is acknowledged with its file and its shard synchronized, and a power loss can still take it away with the shard, whose own entry nothing synchronizes. |
| `Durability.DurableNext` | crates/once-cas/src/filesystem.rs:31-77 | Only removing a durable blob ends its durability: no rename of another writer and no power loss does. |
| `Durability.SurvivesIff` | crates/once-cas/src/filesystem.rs:31-89 | After any sequence of steps, the next power loss leaves a blob exactly when it was settled in its shard, by any put that synchronized that shard or by an earlier power loss, has been there ever since, and its shard was left by an earlier power loss. |
| `Durability.HeldIff` | crates/once-cas/src/filesystem.rs:66-68 | A blob stays where its shard stays exactly when some step synchronized the shard, for this blob or another, or a power loss passed over it, and it has been there ever since. |
| `Durability.RootedIff` | crates/once-cas/src/filesystem.rs:108-113 | A shard cannot be lost exactly when an earlier power loss left it. |
| `Durability.EarlyReturnSurvivesIff` | crates/once-cas/src/store.rs:98-103 | A put that finds its blob visible returns at once, and what it acknowledged survives the next power loss exactly under that condition. |
| `Durability.ExistingMayBeLost` | crates/once-cas/src/store.rs:98-127 | A put can return on a blob that a mirror put there without synchronizing the shard, and that does not even stay where its shard stays. |
| `Store.NewNameDistinct` | crates/once-cas/src/filesystem.rs:34-40 | The temporary name a writer takes is no other live writer's. |
| `Store.NextInv` | crates/once-cas/src/filesystem.rs:31-77 | Every step keeps: complete files at blob paths now and after any power loss, and owned temporary files. |
| `Store.RunInv` | crates/once-cas/src/filesystem.rs:31-77 | That invariant holds after every interleaving. |
| `Durability.UnsyncedMayCorrupt` | crates/once-cas/src/filesystem.rs:55-60 | With the atomic policy a power loss can leave a blob that fails its check, for every blob whose digest is not that of the empty string. |
| `Budget.Capacity` | crates/once-cas/src/budget.rs:143-150 | The most whole units within the configured bytes, capped at a u32. |
| `Budget.Wanted` | crates/once-cas/src/budget.rs:165 | The fewest whole units that hold the bytes. |
| `Budget.NeverOverBudget` | crates/once-cas/src/budget.rs:142-190 | In every sequence of requests, grants, drops and cancellations, live reservations never exceed the configured bytes and free plus held units are the capacity. |
| `Budget.NoOvertaking` | crates/once-cas/src/budget.rs:164-190 | Whatever holds units came before whatever waits. |
| `Budget.WaitsOnlyForEarlier` | crates/once-cas/src/budget.rs:164-190 | A waiting request always waits for an earlier one that holds units. |
| `Budget.GrantedOnceFirst` | crates/once-cas/src/budget.rs:164-190 | In every sequence of steps a request that is neither cancelled nor dropped waits or holds, and holds once nothing that came before it holds units; together with Budget.NextBag and Budget.Drains. |
| `Budget.NextKeeps` | crates/once-cas/src/budget.rs:164-190 | No step but its own cancellation or drop loses a request; that those do is Budget.EndedIsGone. |
| `Budget.NextBag` | crates/once-cas/src/budget.rs:128-190 | Each step changes the requests in the pool, waiting and holding together, by exactly the one it adds, drops or cancels, and a refused one by nothing. |
| `Budget.EndedIsGone` | crates/once-cas/src/budget.rs:128-133 | After every sequence of steps, a dropped or cancelled request is out of the pool, and every other one is still in it. |
| `Budget.IdlePool` | crates/once-cas/src/budget.rs:128-190 | After every sequence of steps that leaves nobody holding units, the whole capacity is free and nobody waits. |
| `Budget.Drains` | crates/once-cas/src/budget.rs:128-190 | Dropping reservations until there are none serves every waiting request and ends with the whole capacity free. |
| `Budget.Admitted` | crates/once-cas/src/budget.rs:164-190 | A request that is not refused waits or holds at once. |
| `Budget.RefusedIff` | crates/once-cas/src/budget.rs:165-180 | A request is refused, and leaves the pool as it was, exactly when it exceeds the whole capacity. |
| `Budget.NextInv` | crates/once-cas/src/budget.rs:142-190 | Every step keeps conservation, arrival order, and that no waiting request could be granted. |
| `Budget.RunInv` | crates/once-cas/src/budget.rs:142-190 | Those hold after every sequence of steps. |
| `InputDigest.SameDigestSamePushes` | crates/once-core/src/input_digest.rs:147-165 | Keyed records with NUL-free labels under one domain whose buffers give one digest are the same records, or the hash collides on the two buffers. |
| `InputDigest.SameDigestSameKeyed` | crates/once-core/src/input_digest.rs:147-240 | Two builders that made only keyed pushes with NUL-free labels under one domain and have one digest pushed the same labels with the same digests in the same order, or the hash collides on what they hashed. |
| `InputDigest.SameDigestSameBytes` | crates/once-core/src/input_digest.rs:147-240 | The same for builders that pushed only bytes without a NUL. |
| `InputDigest.FedIsRecords` | crates/once-core/src/input_digest.rs:159-215 | What any calls feed to the hash are their NUL-delimited records in order: label and digest, bytes alone, or nothing when a call only records. |
| `InputDigest.NulLabelConfuses` | crates/once-core/src/input_digest.rs:159-165 | With a NUL in a label two different sequences of pushes build one buffer. |
| `InputDigest.RecordingIsSilent` | crates/once-core/src/input_digest.rs:167-215 | Recording fingerprint components never changes what is hashed. |
| `InputDigest.SameDigestSameSource` | crates/once-core/src/input_digest.rs:57-89 | Sources whose fields fit their widths and that have one digest have the same kind, content, modes and special bits, or the hash collides on a pair it was taken of. |
| `InputDigest.KindIsVisible` | crates/once-core/src/input_digest.rs:57-89 | The kind of a source can be read off the bytes hashed for it. |
| `InputDigest.PairsInjective` | crates/once-core/src/input_digest.rs:76-80 | NUL-delimited records with fixed-size tails are told apart by their concatenation. |
| `InputDigest.Builder.PushKeyed` | crates/once-core/src/input_digest.rs:159-165 | Appends label, NUL, digest, NUL, which InputDigest.FedIsRecords makes one delimited record, and records nothing. |
| `InputDigest.Builder.Apply` | crates/once-core/src/input_digest.rs:159-215 | Each call appends exactly its delimited record and records exactly its component. |
| `InputDigest.Build` | crates/once-core/src/input_digest.rs:147-240 | The digest of a finished builder is the hash of the domain and the delimited records of its calls, for keyed pushes the keyed buffer; it is that of the same pushes with nothing recorded; the manifest lists exactly what was recorded. |
| `InputDigest.RecordedAt` | crates/once-core/src/input_digest.rs:167-215 | Calls that record give one component each, in order, with their category and label and the digest given or that of the bytes given. |
| `SourceDigest.SpecialPermissionEntries` | crates/once-core/src/input_digest.rs:94-117 | The worklist ends and lists exactly the regular files below the root with special bits, sorted by path. |
| `SourceDigest.ReadDirectory` | crates/once-core/src/input_digest.rs:101-113 | Reading a directory pushes exactly its subdirectories and finds exactly its special files. |
| `SourceDigest.PoppedSearching` | crates/once-core/src/input_digest.rs:100-114 | One turn of the worklist keeps: pending directories do not nest, and exactly the special files under none of them were found. |
| `SourceDigest.PoppedRest` | crates/once-core/src/input_digest.rs:100-114 | One turn leaves fewer positions to visit. |
| `SourceDigest.OneSpecialList` | crates/once-core/src/input_digest.rs:115 | There is one such list, so it does not depend on listing order. |
| `SourceDigest.DigestSourcePath` | crates/once-core/src/input_digest.rs:57-89 | The digest is the hash of the bytes specified for what the position holds; the errors are a missing or unsupported node and an unstorable path length. |
| `SourceDigest.SameDigestSameSource` | crates/once-core/src/input_digest.rs:57-89 | Two filesystem positions that have one digest hold the same file (content and low twelve mode bits), the same link, or such files and links at the same places, or the hash collides. |
| `Events.PacingLosesNothing` | crates/once-core/src/events.rs:311-338 | While pacing is in force and every event fits the room left, no subscriber ever loses a message, whatever subscribers do. |
| `Events.SingleMessageFits` | crates/once-core/src/events.rs:311-322 | An event that becomes one message always fits. |
| `Events.LossFreeIff` | crates/once-core/src/events.rs:311-338 | Pacing that never stalls loses nothing in any sequence of events of at most m messages exactly when m messages fit above the high-water mark. |
| `Events.FitsIff` | crates/once-core/src/events.rs:311-322 | An event overruns no subscriber of any bus whose producer has seen room exactly when its messages fit above the high-water mark. |
| `Events.SplitChunkOverruns` | crates/once-core/src/events.rs:286-294 | A log chunk of 17 messages on a ring of 16 makes a subscriber lose one. |
| `Events.BacklogOnlyShrinks` | crates/once-core/src/events.rs:324-338 | While nothing is published the backlog only shrinks, also when subscribers come and go. |
| `Events.QuietRunShrinks` | crates/once-core/src/events.rs:324-338 | So it does over every sequence of steps without a publication. |
| `Events.WaitForRoom` | crates/once-core/src/events.rs:324-338 | Over any behaviour of the subscribers it ends with room, or after a whole stall period without progress, and within one stall period and one sleep for each message above the mark and one more. |
| `Events.PublishConserves` | crates/once-core/src/events.rs:279-300 | Splitting a log chunk loses and reorders nothing, bounds every payload and sends the counted number of messages. |
| `Events.TakesEveryMessage` | crates/once-core/src/events.rs:341-344 | A subscriber within the ring takes its unread messages one by one, all of them, and loses none. |
| `Events.LaggardTakesTheRing` | crates/once-core/src/events.rs:253-256 | A subscriber that fell behind loses exactly what the ring dropped, is told so once, and then takes the rest. |
| `Events.PollIff` | crates/once-core/src/events.rs:324-338 | A waiting producer sees room exactly when every attached subscriber has fewer unread messages than the mark. |
| `Events.PublishIff` | crates/once-core/src/events.rs:311-322 | A producer publishes exactly when it does not wait, a stall ends the waiting, and a publication adds its messages to what every subscriber has unread. |
| `Events.ComesAndGoes` | crates/once-core/src/events.rs:341-344 | A subscriber that leaves holds nobody back, and one that arrives starts with nothing unread. |
| `Events.ChunksConserve` | crates/once-core/src/events.rs:279-300 | The chunks join to the bytes, and each is neither empty nor too long. |
| `Archive.DeclarationOrderIrrelevant` | crates/once-core/src/archive.rs:264-363 | Declaring the same entries in any order gives the same success or failure and the same members. |
| `Archive.ResolvesIff` | crates/once-core/src/archive.rs:264-446 | Resolving succeeds exactly when every entry expands and no two expanded members share a path, and then maps every path to its member; what an entry expands to is fixed by Archive.ExpandIff. |
| `Archive.ResolvedIff` | crates/once-core/src/archive.rs:264-446 | Resolving succeeds exactly when every entry can be declared and no two entries declare one path, and the result then holds exactly the declared members, both read off the filesystem. |
| `Archive.ExpandIff` | crates/once-core/src/archive.rs:269-432 | A tree expands exactly when nothing below its directory is special or has a backslash in its name; its members are then one for each position below, whatever the depth, with the content of the file, the target of the link or nothing for a directory, with the mode for that kind and the owner, group and time of the entry, and one for the destination unless that is empty. |
| `Archive.TreeMembers` | crates/once-core/src/archive.rs:374-432 | The members collected for a directory are exactly one for each position below it. |
| `Archive.TreeOkIff` | crates/once-core/src/archive.rs:374-432 | Collecting a directory fails exactly when some position below it is special or has a backslash in its name. |
| `Archive.NormalizeIff` | crates/once-core/src/archive.rs:448-487 | A member path is refused exactly when it has a backslash, starts with a slash, has `..` between slashes, or has no component where one is needed. |
| `Archive.NormalizeNormal` | crates/once-core/src/archive.rs:448-487 | A normal path without a backslash is kept as it is. |
| `Archive.KeysAreNormal` | crates/once-core/src/archive.rs:448-487 | Every key is a relative path in normal form, not empty, and names its own member. |
| `Archive.InsertedIff` | crates/once-core/src/archive.rs:434-446 | Inserting a list succeeds exactly when no path occurs twice. |
| `Archive.NormalizeArchivePath` | crates/once-core/src/archive.rs:448-487 | Trimming slashes and the component loop compute the specified normal form, which Archive.NormalizeIff and Archive.NormalizeNormal characterize. |
| `Archive.Resolver.InsertEntry` | crates/once-core/src/archive.rs:434-446 | Inserts one member, or refuses a path already there and changes nothing. |
| `Archive.Resolver.CollectTree` | crates/once-core/src/archive.rs:374-432 | Inserts exactly the specified members of the tree, those of Archive.TreeMembers, or fails when one is refused. |
| `Archive.Resolver.CollectChild` | crates/once-core/src/archive.rs:382-430 | The same for one child and, when it is a directory, everything below it. |
| `Archive.Resolver.ResolveEntry` | crates/once-core/src/archive.rs:269-361 | Inserts exactly the members of one declared entry, those of Archive.ExpandIff, or fails. |
| `Archive.ResolveEntries` | crates/once-core/src/archive.rs:264-363 | The loop over entries gives exactly the specified outcome, which Archive.ResolvedIff reads off the filesystem. |

## Left out

- The async runtime, task cancellation plumbing, timeouts and tracing: only the atomic steps they order are modelled.
- zstd, BLAKE3, SHA-256, deflate and the tar, zip and gzip byte layouts: foreign formats, kept as abstract functions.
- The parsing of ZIP entry names: an entry has a sequence of names, with or without a leading `.`, or is one that is refused as escaping. The limit on the number of entries and the check of the archive before it is opened are not modelled.
- Directory permission bits, the process umask, and limits of the operating system on the length of names and paths.
- Reading and parsing action results and blob file names (crates/once-cas/src/gc.rs:200-320): the collector starts from the scanned snapshot.
- Streaming puts and the staging files behind them (crates/once-cas/src/store.rs:139-187), and action results, which use the same write.
- Process identifiers of live processes are taken as different, since the operating system makes them so. A mirrored blob with the wrong digest writes nothing and is no step.
- The memory and staging pools are two instances of one pool; the semaphore is taken as first-in-first-out and all-at-once, and the broadcast channel as a ring, as their documentation says.
- The restore path for an existing destination and for platforms without a no-replace rename (crates/once-core/src/directory_blob.rs:451-458, 529-609), and the in-memory decoder beside the streamed one (642-755).
- The rejection of outputs that overlap their inputs, and rereading of a file that changes during capture.
- SourceDigest.DigestSourcePath: has no digest for sockets, pipes and devices, because what reading one gives is not a property of the filesystem; the source would try to read them.
- Archive sources are taken at their canonical positions, and the order in which children are sorted before insertion is not represented, since no result depends on it.
- Extraction.Destination.ExtractBoundedFile: replaces a file of an earlier entry also when its recorded mode denies writing, which the operating system refuses to a user who is not root, because the privileges of the process are not modelled.
- Raw `sigaction` setup, re-raising, and forwarding of signals to children: kernel behaviour.
- Windows branches and names that are not UTF-8.
- The remote tier, scheduler, sandbox, command line and reporters.
