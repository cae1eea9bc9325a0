# Golden-image integrity pipeline, modelled in Dafny

The system has three programs:
- The **baseline collector** walks a golden image and records one `FileIntegrityEntry` per regular file. An entry holds the root-relative path, the SHA-512 of the content, the permission bits, the uid and the gid. The collector wraps the entries into a `Baseline` for an image id.
- The **metadata service** stores baselines by image id and hands them out.
- The **integrity agent** runs on a live host and fetches the baseline. In scan mode it walks the host the same way and compares the two states. It exits with failure iff anything differs. In monitor mode it verifies each file a file event names. It fails closed after five consecutive anomalies.

This project models those programs and proves what they promise:

- `common.dfy` (module `IntegrityCommon`) covers the shared types and their `Display` renderings. It defines octal and decimal numerals, with a parse that inverts them.
- `walk.dfy` (module `Walk`) covers the walk that the collector and the agent share, line for line:
  - the exclusion rule;
  - the walker's pruning of excluded directories;
  - the root-relative path;
  - the entry recorded for a walked file.

  The filesystem is abstract. A walk is the sequence of items the walker yields. Each item carries what reading its metadata and hashing its content return.
- `collector.dfy` (module `BaselineCollector`) covers the collector's list-building scan.
- `agent.dfy` (module `IntegrityAgent`) covers:
  - the agent's map-building scan;
  - the full comparison;
  - the single-file check;
  - the fail-closed counter;
  - the exit decision of `main`.
- `metadata_service.dfy` (module `MetadataService`) is a class holding the baseline table, with the store and get handlers.

Anomaly messages are modelled as an `Anomaly` datatype with one constructor per message prefix. Record equality is Dafny's structural equality, which is the field-wise equality the Rust records derive.

Hash-map iteration order is unspecified. The comparison therefore picks the next key of a set with `:|`, and ghost outputs record the orders it used. Its contract holds for every order:
- the reports are one block per baseline path followed by the ADDED reports;
- they are exactly the differences between the two maps;
- each report appears once.

Where the code and the design description differ, the model follows the code:
- The design says symbolic links are not followed or hashed. The exclusion rule skips only block and character devices, fifos and sockets. The walker does not follow links, and the metadata it reads is the link's own. Hashing opens the file and so follows the link. A link to a regular file is therefore recorded with the link's own mode, uid and gid and with its target's hash.
- The design says the single-file check compares the hash and then the metadata. The code checks mode, uid and gid first, then the hash (`VerifyFileMetadataFirst`).
- The design describes validation of stored baselines. The store handler accepts any payload, including an empty image id (`EmptyImageIdAccepted`).
- The single-file check reports ADDED for any path missing from the baseline, even a file that cannot be read. A file whose metadata is readable but whose content cannot be hashed is dropped by the scan, so the full comparison reports it DELETED. The single-file check reports ERROR_HASHING, or a metadata mismatch, for the same file. `VerifyFileAgreesWithDiff` states where the two checks agree when both read the same state of the file; the two bullets below are cases where they do not.
- The single-file check reads metadata that follows symbolic links, while the scan reads a link's own metadata. A baselined link whose own mode (typically 0o777), uid or gid differs from its target's is therefore reported PERMISSION_CHANGED, UID_CHANGED or GID_CHANGED at every event, while the full comparison finds it clean. `ProbeEntry` and `ScannedAt` build the state from the probe's view, so `VerifyFileAgreesWithDiff` does not cover this case.
- The scan skips block and character devices, fifos and sockets, so a baselined regular file replaced by one of them is DELETED in the full comparison. The single-file check never looks at the file's kind (`VerifyFileIgnoresKind`) and judges such a file on its mode, uid, gid and hash alone. It may therefore find the file clean, or report ERROR_HASHING.

## Model

| member | source | states |
|---|---|---|
| IntegrityCommon.Numeral | integrity-common/src/lib.rs:52 | the `{}`/`{:o}` rendering of a number is a well-formed numeral (digits of the base, no leading zero), one digit long iff the number is below the base |
| IntegrityCommon.NumeralRoundTrip | integrity-common/src/lib.rs:52 | parsing the rendered numeral gives back the number, for every base from 2 to 10 |
| IntegrityCommon.NumeralInjective | integrity-common/src/lib.rs:52 | different modes, uids, gids or counts render differently |
| IntegrityCommon.EntryDisplay | integrity-common/src/lib.rs:48-56 | the rendering starts with the struct name and the path and ends with " }" |
| IntegrityCommon.BaselineDisplay | integrity-common/src/lib.rs:58-68 | the rendering starts with "Baseline { image_id: " and the image id and ends with " files }" |
| IntegrityCommon.EntryDisplayShowsFields | integrity-common/src/lib.rs:48-56 | an entry's display contains its path, its hash and its mode in octal |
| IntegrityCommon.EntryDisplayOctalExample | integrity-common/src/lib.rs:74-87 | mode 0o644 displays as "644" |
| IntegrityCommon.BaselineDisplayShowsFields | integrity-common/src/lib.rs:58-68 | a baseline's display contains its image id, its timestamp and "N files" for its N entries |
| IntegrityCommon.BaselineDisplayCountExample | integrity-common/src/lib.rs:89-115 | a baseline of two entries displays "2 files" |
| Walk.AnyPrefixIff | integrity-agent/src/main.rs:55 | the `any(starts_with)` test holds iff some listed string is a prefix of the path |
| Walk.ShouldExcludeIff | integrity-agent/src/main.rs:45-68 | a directory is excluded iff one of the seven directories is a plain string prefix of its path; anything else is excluded iff its readable metadata says block device, char device, fifo or socket |
| Walk.ShouldExcludeExamples | baseline-collector/src/main.rs:26-49 | "/tmpx" and "/var/log/journal" are excluded as directories, "/etc" is not, and a regular file under "/tmp" is not excluded by the rule itself |
| Walk.ShouldExclude | integrity-agent/src/main.rs:49-68 | only a directory, or an entry whose metadata could be read, is rejected; a rejected non-directory is neither a regular file nor a directory |
| Walk.FilterFrom | integrity-agent/src/main.rs:82-85 | the filtered walker never yields more items than the walk holds |
| Walk.FilterEntry | baseline-collector/src/main.rs:64-67 | every item the filtered walker yields occurs in the raw walk, and no yielded entry is rejected by the filter |
| Walk.FilterFromIff | integrity-agent/src/main.rs:82-88 | the walker yields exactly the surviving items: entries the filter accepts, and errors, in both cases unless a pruned directory or a rejected directory walked earlier hides them (an entry beneath it, an error at it or beneath it) |
| Walk.FilterFromSound | integrity-agent/src/main.rs:82-85 | every yielded item occurs in the walk, no pruned directory hides it, and a yielded entry passes the filter |
| Walk.FilterFromComplete | integrity-agent/src/main.rs:82-88 | an entry the filter accepts, or an error, that neither a pruned directory nor a rejected directory walked before it hides, is yielded |
| Walk.ExcludedDirPruned | integrity-agent/src/main.rs:82-85 | once an excluded directory is walked, nothing it hides (an entry beneath it, an error at it or beneath it) is yielded afterwards |
| Walk.PrunedListingErrorExample | integrity-agent/src/main.rs:82-88 | when listing the rejected "/proc" fails, the error is never reported: the walk of "/" yields only the root |
| Walk.StripPrefix | integrity-agent/src/main.rs:97-100 | a stripped path is a tail of the path, no longer than it |
| Walk.RelativePath | integrity-agent/src/main.rs:97-100 | the relative path is a tail of the walked path, no longer than it |
| Walk.StripPrefixJoin | integrity-agent/src/main.rs:97-100 | a stripped path is the root joined with the rest; a path not under the root is kept whole |
| Walk.StripPrefixOfJoin | integrity-agent/src/main.rs:97-100 | conversely, the root followed by a separator (none when the root ends in one) and a rest strips to exactly that rest |
| Walk.StripPrefixSibling | integrity-agent/src/main.rs:97-100 | a path that only continues the root's last component, as "/etcx" does "/etc", is not under the root and is kept whole |
| Walk.RelativePathExamples | baseline-collector/src/main.rs:79-82 | "/etc/passwd" under "/" is "etc/passwd"; a sibling "/srv/image" of root "/srv/img" is kept whole; the root itself becomes "" |
| Walk.EntryOf | baseline-collector/src/main.rs:73-100 | a record is produced only for a non-directory whose metadata and hash were read, and it has a non-empty path and a mode below 0o10000 |
| Walk.EntryOfIff | baseline-collector/src/main.rs:73-100 | a walked entry yields a record iff it is not a directory, its relative path is non-empty, and both metadata and hash are readable; the record holds that path, the hash, the mode's low twelve bits, the uid and the gid |
| Walk.Collected | baseline-collector/src/main.rs:85-96 | every collected record has a non-empty path and a mode below 0o10000, and there are no more records than walked items |
| Walk.CollectedIff | baseline-collector/src/main.rs:69-115 | a record is collected iff some walked entry yields it |
| Walk.CollectedAppend | baseline-collector/src/main.rs:100 | records are appended in walk order: collecting a concatenation gives the concatenated collections |
| Walk.FailuresSurviveFilter | baseline-collector/src/main.rs:64-70 | the filtered walk holds a walker error iff the raw walk holds one that no rejected directory walked before it hides |
| Walk.CollectedFromRaw | baseline-collector/src/main.rs:64-115 | a record is collected from the filtered walk iff a surviving entry of the raw walk yields it, so every surviving readable file is recorded |
| BaselineCollector.ScanFilesystem | baseline-collector/src/main.rs:59-126 | the scan fails iff the raw walk holds an error that no rejected directory hides, and then with the first error of the filtered walk; otherwise it returns a baseline carrying the requested image id, the given timestamp and exactly the collected records in walk order, all with non-empty paths and masked modes |
| IntegrityAgent.PathIndex | integrity-agent/src/main.rs:167-170 | every key of the path-keyed view names its own entry, and that entry comes from the list |
| IntegrityAgent.PathIndexKeys | integrity-agent/src/main.rs:167-170 | the view's keys are exactly the paths in the list |
| IntegrityAgent.PathIndexLastWins | integrity-common/src/lib.rs:27 | when a path occurs several times in the list, the view holds its last entry |
| IntegrityAgent.ScanFilesystem | integrity-agent/src/main.rs:78-137 | the scan fails iff the raw walk holds an error that no rejected directory hides, with the first error of the filtered walk; otherwise the map is the collected records indexed by path, every key is non-empty and names its own entry, and every mode holds only permission bits |
| IntegrityAgent.ScannedKeys | integrity-agent/src/main.rs:97-118 | a key of the scanned map is exactly the relative path of some walked entry that yields a record |
| IntegrityAgent.FieldDiff | integrity-agent/src/main.rs:177-192 | at most four reports for a path present in both states, and none iff hash, mode, uid and gid all agree |
| IntegrityAgent.PathDiffMembers | integrity-agent/src/main.rs:173-198 | the reports for one baseline path are exactly the differences for that path other than ADDED, each once |
| IntegrityAgent.PushFieldReports | integrity-agent/src/main.rs:176-192 | the four field checks append exactly the per-field reports, hash then mode then uid then gid |
| IntegrityAgent.ReportBaselinePaths | integrity-agent/src/main.rs:173-199 | the first loop enumerates the baseline paths once each, and its reports are exactly the non-ADDED differences, without duplicates |
| IntegrityAgent.ReportNewPaths | integrity-agent/src/main.rs:202-206 | the second loop appends one ADDED per current path missing from the baseline, once each, completing exactly the differences |
| IntegrityAgent.CompareFilesystems | integrity-agent/src/main.rs:165-209 | the reports are one block per baseline path followed by one ADDED per new path; they are exactly the differences between the two states, each reported once |
| IntegrityAgent.DiffEmptyIff | integrity-agent/src/main.rs:165-209 | there is no difference iff the current state has exactly the baseline's paths with equal hash, mode, uid and gid |
| IntegrityAgent.DiffReportsPerPath | integrity-agent/src/main.rs:173-206 | for a shared path, one report per differing field and no other; a missing path gets exactly DELETED; a new path exactly ADDED |
| IntegrityAgent.ModifiedExample | integrity-agent/src/main.rs:177-180 | a baseline file whose hash changed, nothing else differing, is reported exactly MODIFIED |
| IntegrityAgent.DeletedExample | integrity-agent/src/main.rs:194-197 | a baseline file that is gone is reported exactly DELETED |
| IntegrityAgent.AddedExample | integrity-agent/src/main.rs:202-206 | a new file against an empty baseline is reported exactly ADDED |
| IntegrityAgent.VerifyFile | integrity-agent/src/main.rs:211-257 | every report names the path with its leading "/" stripped; a clean verdict needs that path in the baseline and both the metadata and the hash readable |
| IntegrityAgent.VerifyFileCleanIff | integrity-agent/src/main.rs:211-257 | a file verifies clean iff it is in the baseline, its metadata and hash are readable, and hash, permission bits, uid and gid equal the baseline's |
| IntegrityAgent.VerifyFileNotInBaseline | integrity-agent/src/main.rs:212-214 | a path missing from the baseline (looked up with the leading "/" stripped) is ADDED whatever the file looks like |
| IntegrityAgent.VerifyFileMetadataFirst | integrity-agent/src/main.rs:218-231 | when mode, uid or gid differ, the report names the first of them that differs in the order mode, uid, gid, and it is the same whatever the hash |
| IntegrityAgent.VerifyFilePrecedence | integrity-agent/src/main.rs:214-249 | for a baselined path: unreadable metadata is DELETED; otherwise a permission-bit mismatch is PERMISSION_CHANGED with the baseline's and the file's bits; with the bits equal, a uid mismatch is UID_CHANGED; with both equal, a gid mismatch is GID_CHANGED; with all three equal, an unreadable hash is ERROR_HASHING and a different hash is MODIFIED with both hashes |
| IntegrityAgent.VerifyFileIgnoresKind | integrity-agent/src/main.rs:217-231 | the single check's result does not depend on the file's kind, so a device, fifo or socket is judged on its fields alone |
| IntegrityAgent.VerifyFileAgreesWithDiff | integrity-agent/src/main.rs:211-257 | the single check reports something iff the full comparison against the state the probe reads for that path reports something, and what it reports is one of the comparison's reports unless the hash alone is unreadable |
| IntegrityAgent.Outcomes | integrity-agent/src/main.rs:291-294 | one outcome per event, in order, true iff verifying that event's file reports an anomaly |
| IntegrityAgent.Streak | integrity-agent/src/main.rs:288-306 | the counter after a sequence of outcomes: the length of the final run of anomalies, as StreakIff states |
| IntegrityAgent.StreakIff | integrity-agent/src/main.rs:294-306 | the counter's value is at least n iff the last n outcomes are all anomalies |
| IntegrityAgent.RunIffStreak | integrity-agent/src/main.rs:288-307 | the counter reaches n at some event iff the outcomes contain n consecutive anomalies |
| IntegrityAgent.FirstReachRun | integrity-agent/src/main.rs:296-302 | the first event at which the counter reaches n closes a run of n consecutive anomalies |
| IntegrityAgent.NeverReachNoRun | integrity-agent/src/main.rs:291-307 | a counter that never reaches n means the outcomes hold no run of n consecutive anomalies |
| IntegrityAgent.RunMonitorMode | integrity-agent/src/main.rs:259-314 | a start failure is a storage error; otherwise the loop fails closed iff the outcomes hold five consecutive anomalies, at the first event where the counter reaches five, with the counter below five before it; a closed channel ends normally unless stopping fails |
| IntegrityAgent.MonitorExamples | integrity-agent/src/main.rs:294-306 | five anomalies in a row fail closed; four, a clean event, then four do not |
| IntegrityAgent.RunAgent | integrity-agent/src/main.rs:317-367 | a missing scan path and a failed fetch are errors; in scan mode `main` returns the walker's error iff the raw walk holds an error no rejected directory hides, and otherwise the process exits with failure iff the scanned state does not match the baseline; in monitor mode it exits with failure iff the monitor fails closed |
| MetadataService.Upsert | metadata-service/src/main.rs:40-42 | storing adds the baseline under its image id, replaces what was there, and keeps every other id |
| MetadataService.Lookup | metadata-service/src/main.rs:60-68 | a served read finds a baseline iff the id is stored, and otherwise answers 404 naming the id |
| MetadataService.UpsertWellKeyed | metadata-service/src/main.rs:33-42 | storing keeps every baseline under its own image id |
| MetadataService.LookupAfterUpsert | metadata-service/src/main.rs:32-68 | a stored baseline is read back unchanged |
| MetadataService.UpsertLastWins | metadata-service/src/main.rs:40-42 | a second store under the same id replaces the first |
| MetadataService.UpsertOthersUnchanged | metadata-service/src/main.rs:40-42 | storing under one id leaves every other id's answer unchanged |
| MetadataService.NeverStoredNotFound | metadata-service/src/main.rs:60-63 | an id never stored answers 404, not an empty baseline |
| MetadataService.EmptyImageIdAccepted | metadata-service/src/main.rs:32-42 | the empty image id is accepted as a key and read back |
| MetadataService.BaselineStore.StoreBaseline | metadata-service/src/main.rs:28-50 | a failed insert changes nothing; a successful insert stores the baseline under its id even if the flush then fails; only when both succeed is the answer 201 echoing the baseline |
| MetadataService.BaselineStore.GetBaseline | metadata-service/src/main.rs:52-69 | a failed read is a 500; a served read returns the stored baseline, or 404 when the id is absent |
| MetadataService.StoreThenGet | metadata-service/src/main.rs:28-69 | storing and then reading a baseline yields 201 and then 200 with the same baseline |

## Left out

- SHA-512 and its hex encoding (`compute_sha512`) are not modelled. A walked entry or a probed file carries the hash as an opaque string, or None when hashing fails.
- The filesystem, `walkdir` and `fs::metadata` are not modelled. A walk is an input sequence of abstract entries and errors in preorder: each entry has its directory flag, metadata and hash, and each error the path it concerns. The walker lists a directory right after yielding it, so a rejected directory's listing error, and everything inside it, never reaches the loop.
- Path strings are assumed normalised, with no repeated or trailing separators. Under that assumption `Path::strip_prefix` is modelled component-wise on strings. Lossy UTF-8 conversion is not modelled.
- `fetch_baseline`, `upload_baseline` and the actix routing and server are HTTP plumbing and are not modelled. `RunAgent` takes the fetch result as an input.
- Durability of the sled database is not modelled. Its insert, flush and read failures are inputs.
- JSON serialisation is the identity, so its error paths (500 on a serialisation failure) are not modelled.
- The tokio monitor, the mock monitor and the fanotify stub are not modelled. The monitor's events are an input sequence, and its start and stop failures are inputs.
- Argument parsing, logging and the progress messages every 1000 files are not modelled.
- `process::exit(1)` is modelled as the `ExitFailure` result.
- The text of the anomaly messages and of the errors' `Display` is not modelled. Anomalies are a datatype with the same fields, and error payloads are plain messages.
- The timestamp taken from the clock is not modelled. It is a parameter of the collector's scan.
- Mode, uid and gid are below 2^32 by type. The mask `& 0o7777` is modelled as `% PERMISSION_MODULUS`, where the modulus is 0o7777 + 1 = 0x1000. The two are equal on non-negative integers.
- Streak carries no contract of its own. The counter is specified by StreakIff and RunIffStreak.
- The counter in `run_monitor_mode` is a `usize`. It never exceeds five, so its width is irrelevant and not modelled.
