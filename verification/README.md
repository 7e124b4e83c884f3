# Diskforge: a verified model

Diskforge overwrites a whole disk with a verified image, and refuses to unless kernel state, image
identity and operator consent all agree. This project models the code that decides and the code that
writes, and proves what acceptance, success and failure mean.

The layers, from the bottom up:

- `Basics`, `Text`, `Lexicographic`, `Paths`, `Model` hold splitting and joining, decimal and
  hexadecimal text, the order device names are sorted in, `filepath` behaviour, and the values that
  pass between components.
- `Procfs`, `Sysfs`, `Observer`, `RootChains` read one kernel snapshot. A snapshot of
  `/sys/class/block` is a finite tree of entries with listings and file text; any entry may be
  missing or unreadable, and relations may be cyclic.
- `Naming`, `Confirmation`, `Policy` hold the consent token, the ordered gates and release names.
- `Streams`, `Images`, `Staging` hold the copy loop, held descriptors, the guarded write and atomic
  staging. Reads, writes and failures come from a finite list of events; when the list ends first the
  operation is still blocked, so a statement about all lists is a statement about every prefix of
  every execution. A blocked outcome is possible only under a list that is too short for the bytes at
  hand (`Streams.Ends`, `Streams.Finishes`, and the `Complete` predicates built from them), so each
  statement about failure is also one about success.
- `System`, `Execution` compose everything. The kernel may change between any two observations and
  the image file may change between verification and writing.
- `Example`, `Stacked`, `Runs` hold accepted hosts in both modes, a refused host with a device-mapper
  volume over a partition of the target, and whole runs that succeed.

What the decisions and the copy rest on (listed relations, options, escapes, digests, labels, paths, formats,
the order of gates and calls, and every bound) is also stated in terms that do not use the functions that
compute it: members called `…InFull`, `…Laws` or `…Grammar`, and the round trips.

Strings are sequences of Unicode scalar values, one per code point of the program's UTF-8 text. SHA-256
and zstd decoding are function parameters; a claim that needs collision-freedom says so. The model
follows the code where the documentation is wider: `docs/safety-model.md` says that the token binds the
kernel name, partition status, relations, source path, compressed size and mode as well, and the code
binds six fields (`Confirmation.OtherFieldsAreNotBound`). The same document calls absence a refusal, while
a source whose device number resolves to no block device is accepted with an empty backing list, exactly
then (`Observer.BackingIsEmptyExactlyWhenUnresolved`), and `mountedDevices` skips such a mount in the same
way (`Observer.MountedDevices`). `Example.UnresolvedMountIsAccepted` is a host where this happens: its only
mount, with the image on it, names the target as its source under an anonymous device number, and rescue
mode accepts. Mount and source isolation are therefore stated for the numbers that resolve.

`dafny verify dfyconfig.toml` checks the whole project.

## Model

| member | source | states |
|---|---|---|
| Sysfs.Walk.WalkRelated | internal/linux/observer.go:145-193 | The shared-set depth-first walk ends on every snapshot, cyclic or not; on success everything newly seen is readable and all its relations are seen; on failure something seen is unreadable. |
| Sysfs.Related | internal/linux/observer.go:131-143 | Returns the strictly sorted list of exactly the names reachable by slaves, partition parents and, from the start only, partition children; fails exactly when a reachable name cannot be read in full. |
| Sysfs.ReachableIsLeast | internal/linux/observer.go:145-193 | Reachability lies inside every set that holds the start and is closed under the relations. |
| Sysfs.RelationsAreListed | internal/linux/observer.go:98-211 | One step of the walk goes exactly to the names listed under `slaves`, to the least listed name whose directory marks the device as a partition and, from the start only, to listed entries with a partition marker. |
| Sysfs.ListedIsReached | internal/linux/observer.go:145-193 | Whatever a reached device lists is reached, through any number of layers. |
| Sysfs.BrokenIsUnreadable | internal/linux/observer.go:113-193 | A device fails the walk exactly when it is nowhere, the top level is unreadable, its existing `slaves` directory is unreadable or, at the start, its own directory is. |
| Sysfs.FailureIsUnresolvedName | internal/linux/observer.go:131-193 | When directory reads work, the walk fails exactly when some reachable name is unresolved. |
| Sysfs.RelatedIsCanonical | internal/linux/observer.go:131-143 | Two results are equal as sequences exactly when the two reachable sets are equal. |
| Lexicographic.LessAtFirstDifference | internal/linux/observer.go:140-140 | The sort order is decided by the lesser character at the first difference, and a proper prefix comes first. |
| Sysfs.BlockPathResolves | internal/linux/observer.go:78-96 | A name resolves exactly when it is at top level, listed or not, or directly below a listed top-level name; top level wins, then the least such parent. |
| Sysfs.PartitionParentIsLeast | internal/linux/observer.go:98-111 | The parent is the lexicographically least top-level name under which the partition marker appears, and none exactly when there is no such name. |
| Observer.NameByDeviceNumberIsCorrect | internal/linux/observer.go:338-362 | A found name holds the number, a directory before its own children, and no earlier directory does; absence means that every directory is readable and none holds it; failure means exactly that an unreadable directory comes before every holder. |
| Observer.Mounts | internal/linux/observer.go:269-292 | All records in order, or a refusal exactly when a line does not parse. |
| Observer.Expand | internal/linux/observer.go:364-374 | Adds exactly the reachable set of a device, or fails exactly when it cannot be resolved. |
| Observer.MountedDevices | internal/linux/observer.go:377-396 | Exactly the devices that some resolved mount reaches; refused exactly when a line, a lookup or a relation is unreadable. |
| Observer.BlockMountsReadOnly | internal/linux/observer.go:315-336 | Yes exactly when every line and lookup reads, some mount is block-backed and every block-backed mount is read-only; an error exactly when the table is unreadable or a lookup fails before any writable block-backed mount. |
| Observer.SelectMount | internal/linux/observer.go:541-551 | Picks the earliest of the longest mountpoints that contain the path, or none when none contains it. |
| Observer.SelectedIsDeepest | internal/linux/observer.go:522-551 | For canonical paths every other containing mountpoint is a component prefix of the selected one, and the selected is the earliest of its kind. |
| Observer.Source | internal/linux/observer.go:531-563 | The filesystem of the selected mount and exactly the devices below it; refused only when no such answer exists. |
| Observer.BackingIsEmptyExactlyWhenUnresolved | internal/linux/observer.go:553-563 | The backing list is empty exactly when the device number of the selected mount resolves to nothing. |
| Observer.SwapDevices | internal/linux/observer.go:433-470 | Exactly the devices that some swap partition or swap file rests on; any unreadable, unsupported or unbacked area refuses all. |
| Observer.SwapKinds | internal/linux/observer.go:439-467 | A `partition` area rests on its device, a `file` area on what holds the file, and any other kind is unreadable. |
| Observer.RootDisk | internal/linux/observer.go:473-485 | The only physical disk below the first root mount, or a refusal exactly when there is no such unique disk. |
| Observer.PhysicalRootDisk | internal/linux/observer.go:487-520 | The unique non-partition, slave-free, non-`dm-` member of the device's closure, or a refusal. |
| Observer.RootDiskIsWhole | internal/linux/observer.go:500-519 | Of everything below the root mount the root disk alone has no partition marker, lists no slave and is not named `dm-`. |
| Observer.Target | internal/linux/observer.go:213-247 | The complete identity of a canonical `/dev/<name>` path, with capacity within 64 bits; refused exactly when no identity exists. |
| Observer.OptionalTextComesFromFiles | internal/linux/observer.go:249-258 | A non-empty file below `device` wins over the one in the device directory; nothing else is read. |
| Observer.CapacityOfTarget | internal/linux/observer.go:224-241 | The capacity of a target is 512 bytes for every printed sector, within 64 signed bits. |
| Observer.SectorsRoundTrip | internal/linux/observer.go:224-231 | A printed sector count is read back, and rejected exactly when the byte capacity would overflow 64 bits. |
| Observer.DeviceNumberRoundTrip | internal/linux/system.go:280-303 | Parsing a printed major and minor number returns them in that order when both fit 32 bits, and refuses them otherwise. |
| Procfs.UnescapeUndoesEscape | internal/linux/observer.go:260-267 | Unescaping undoes the kernel's octal escaping for every string. |
| Procfs.UnescapeOfCodes | internal/linux/observer.go:260-267 | The codes 040, 011, 012 and 134 stand for space, tab, newline and backslash wherever they start. |
| Procfs.ParseUndoesPrint | internal/linux/observer.go:294-312 | Parsing a printed mountinfo line returns device, mountpoint and filesystem for any optional fields other than a dash, and read-only exactly when `ro` is a whole option of the mount or of the superblock. |
| Procfs.ParseOfFields | internal/linux/observer.go:294-308 | For every list of fields with a dash: refused exactly with fewer than six fields or fewer than three after the first dash, and where each value comes from otherwise. |
| Procfs.OptionsAreWords | internal/linux/observer.go:310-312 | The option test on a comma-separated list is membership of the whole word. |
| Procfs.FieldsOfConcat | internal/linux/observer.go:294-296 | Any white space separates fields, and runs of it produce no empty ones. |
| Procfs.ParseMounts | internal/linux/observer.go:278-291 | One record per line in order, or a refusal exactly when some line is malformed. |
| Procfs.ParseSwaps | internal/linux/observer.go:407-428 | Skips the heading and returns one record per line, or refuses exactly when some later line is malformed. |
| Procfs.SwapParseUndoesPrint | internal/linux/observer.go:414-423 | Parsing a printed swap line returns its unescaped source, whatever it is, and its kind. |
| Paths.PathWithinIsComponentPrefix | internal/linux/observer.go:522-528 | For canonical paths the textual test is component-list prefix. |
| Paths.ContainersFormAChain | internal/linux/observer.go:522-549 | All mountpoints that contain a path are nested, and the longer text lies deeper. |
| Paths.CleanLaws | internal/linux/observer.go:213-218 | Cleaning drops empty and dot components, lets dot-dot cancel the name before it, and drops dot-dot at the root; with the canonical paths as fixed points this decides every absolute path. |
| Paths.BaseLaws | internal/policy/inspect.go:20-34 | The base name is the last non-empty component, `/` when there is none and `.` for the empty path. |
| RootChains.ChainEndsAtDisk | internal/linux/observer.go:500-519 | A slave and parent chain that cannot continue has arrived at the resolved disk, given that partitions have parents and `dm-` devices have slaves. |
| RootChains.EveryChainReachesDisk | internal/linux/observer.go:487-520 | On an acyclic snapshot every chain from the root mount extends to the resolved disk. |
| Naming.StableTagGrammar | internal/naming/naming.go:48-79 | The tag test accepts exactly `v` and three dotted decimal numbers without leading zeros. |
| Naming.ValidExtension | internal/naming/naming.go:99-119 | The flag-driven scan accepts exactly well-separated text of at most 63 characters. |
| Naming.ExtensionGrammar | internal/naming/naming.go:99-119 | Well-separated text is exactly non-empty alphanumeric segments joined by single separators. |
| Naming.ArtifactName | internal/naming/naming.go:19-45 | A name is produced exactly for accepted fields within 255 characters, and a parser recovers all four fields from it. |
| Naming.NameRoundTrip | internal/naming/naming.go:33-39 | Decoding the printed name returns version, system, architecture and extension. |
| Naming.LabelGrammar | internal/naming/naming.go:82-97 | A label is 1 to 63 lower-case letters, digits and hyphens without a hyphen at either end. |
| Confirmation.ConfirmationToken | internal/policy/confirmation.go:14-62 | Accepted exactly for accepted fields, with the first failed check named otherwise; a parser that cuts from the right reads the device label, the first 12 digest characters and the first 8 bytes of the record's sum back from the token. |
| Confirmation.TokenIsGranted | internal/policy/confirmation.go:14-77 | A token is granted exactly for a path of names below `/dev` that ends in a label, positive sizes, serial and identifier of at most 256 printable characters, and 64 lower-case hexadecimal digits; one step past any bound is refused. |
| Confirmation.RecordInLines | internal/policy/confirmation.go:45-53 | The bound record is eight lines: the version, the six fields in order, and an empty rest. |
| Confirmation.RecordIsInjective | internal/policy/confirmation.go:45-53 | Two accepted records are equal exactly when the six bound fields are, even with newlines inside path components. |
| Confirmation.TokenParts | internal/policy/confirmation.go:56-61 | Tokens are equal exactly when label, digest fragment and binding are, despite hyphens in labels. |
| Confirmation.TokenShape | internal/policy/confirmation.go:56-61 | Every token has at most 104 characters, all lower-case unreserved characters, and the version prefix. |
| Confirmation.ConfirmedTokenFixesIdentity | internal/policy/confirmation.go:14-62 | Without a collision of the two truncated sums, equal tokens mean equal bound fields and conversely. |
| Confirmation.OtherFieldsAreNotBound | internal/policy/confirmation.go:45-61 | Kernel name, partition flag, descendants, source path and compressed size never change the token. |
| Policy.DeviceNames | internal/policy/inspect.go:20-34 | Exactly the base names of the non-empty descendants, kernel name and path. |
| Policy.Intersects | internal/policy/inspect.go:36-52 | The lexicographically least active device whose base name is a candidate, whatever the map order; none exactly when the sets do not meet. |
| Policy.MapFromSlice | internal/policy/inspect.go:144-151 | The active devices of the map are exactly the listed ones. |
| Policy.Inspect | internal/policy/inspect.go:55-105 | Accepts exactly when every gate holds, otherwise reports the first failing gate in order, with the least overlapping device for an overlap and no device otherwise. |
| Policy.DecisionInFull | internal/policy/inspect.go:55-142 | Acceptance as one condition with every bound written out: mode, root, whole disk, capacity, identity, no overlap of the source or, in rescue mode, of mounts and swap; in live mode root disk, tmpfs, 536870912 bytes and SysRq. |
| Policy.GateOrder | internal/policy/inspect.go:55-142 | The order of the gate codes in each mode. |
| Policy.InspectMode | internal/policy/inspect.go:107-142 | The same for the gates of one mode. |
| Policy.InspectionIsMonotone | internal/policy/inspect.go:55-142 | More devices in use or more descendants never turn a refusal into an acceptance. |
| Streams.Reader.Read | internal/image/write.go:43-50 | A read delivers the next bytes, exactly as many as it may, reports the end only there and never hides an error. |
| Streams.ProgressWriter.Write | internal/image/write.go:63-71 | Bytes overwrite in place, and every report equals the bytes accepted so far. |
| Streams.CopyLimited | internal/image/write.go:107-111 | For every chunking the destination holds a prefix of the stream of at most the limit; a finished copy stopped at the limit or a clean end; a fault-free copy fails only on a broken stream; a list of reads long enough for the limit or the end never leaves it blocked. |
| Images.VerifyDescriptor | internal/image/verified.go:107-141 | On success no call failed, the record has the content's length, digest and format and the offset is 0; failure needs a fault, an irregular file or a wrong digest; with enough reads it is one or the other. |
| Images.DescriptorFormat | internal/image/verified.go:143-164 | Zstd exactly when the four magic bytes lead, with the offset back at 0; it fails only on a fault and finishes once four bytes or the end can be read. |
| Images.FormatInFull | internal/image/verified.go:143-164 | Zstd exactly when the first four bytes are 40, 181, 47 and 253. |
| Images.Verify | internal/image/verified.go:65-90 | The descriptor stays open exactly on success; success means a valid, matching digest and no failed call; failure has one of five named causes; enough reads rule out a third outcome. |
| Images.DigestInFull | internal/image/verified.go:119-127 | The digest test passes exactly for the 64 digits whose pairs, high half first, are the 32 bytes of the sum. |
| Text.UnhexUndoesHex | internal/image/verified.go:124-124 | A decoder of digit pairs, high half first, returns the encoded bytes. |
| Text.ValidDigestsArePrintedSums | internal/image/verified.go:92-105 | The accepted digests are exactly the printed sums of 32 bytes. |
| Images.Verified.Close | internal/image/verified.go:46-62 | Releases the descriptor; afterwards there is none, so a second call changes nothing. |
| Images.ReverifySource | internal/image/write.go:167-201 | Success means unchanged length and digest, no failed call and a rewound descriptor; a failure is reported as a change only of a changed source and otherwise needs a fault; enough reads bring it to an end. |
| Images.StreamTo | internal/image/write.go:99-136 | A prefix of at most the expected length, one sync at most and only behind a clean end at exactly that length, reports from 0 strictly up to the bytes accepted; an exact clean stream is never refused without a fault, an I/O error needs a fault, a broken stream or a full disk, and enough reads for the copy and the surplus probe bring it to an end. |
| Images.Write | internal/image/write.go:74-137 | Either nothing is written, synced or reported, or the source was intact and was streamed as above; success means that no call failed and that the disk holds the raw content, or the cleanly decoded frames, of exactly the expected size; each refusal names its cause; an intact source of that size with room, no fault and enough reads is written in full. |
| Images.Session | internal/image/verified.go:46-62 | Over any sequence of closes, outside mutations and writes, each single call other than a write that starts before any close on content of the recorded length and digest leaves the disk as it was: no byte, no sync. |
| Staging.CopyToPartial | internal/image/stage.go:131-138 | The partial holds exactly what was hashed; below the limit it is the whole clean body; every state on the way is safe; a fault-free copy fails only on a broken body and finishes once enough can be read. |
| Staging.FillAndRename | internal/image/stage.go:126-169 | Rename happens only with a complete, publishable body and after mode, copy, file sync and verification have worked; until then every state differs from the start in the partial alone; a failure has a listed cause, before the rename or after it. |
| Staging.Cleanup | internal/image/stage.go:121-126 | Removes a partial that is still there and nothing else; a published destination is untouched. |
| Staging.PublishResponse | internal/image/stage.go:103-172 | At every step the destination holds its old content or a complete download and other names are unchanged; with any fault up to the rename, or a body that is broken, too long, of the wrong length or digest, the destination is as it was in every state; no partial survives a working removal; the descriptor is open exactly on success; a publishable body without faults and with enough reads is published. |
| Staging.Stage | internal/image/stage.go:21-51 | Success means accepted inputs, a 2xx response, no failed call and the complete body at the destination; refused inputs and responses touch nothing; the destination keeps its old content in every state under a refusal, a bad body or a fault up to the rename; an admitted response fails only for a listed cause and enough reads bring it to an end; the limit of one more byte stays within 64 bits. |
| System.Inspect | internal/linux/system.go:42-92 | Accepts exactly when the observations justify it: observed target, devices in use, and every gate. |
| Example.AcceptanceIsPossible | internal/linux/system.go:42-92 | A two-disk host is accepted in rescue mode for every digest and size that fits, whatever SHA-256 computes, so the isolation theorems are not about nothing. |
| Example.UnresolvedMountIsAccepted | internal/linux/observer.go:377-396 | A host whose only mount, which holds the image, has a device number no block device holds is accepted with nothing mounted and an empty backing list. |
| Example.LiveAcceptanceIsPossible | internal/linux/system.go:94-107 | A host with its root on the first disk and the image on tmpfs is accepted in live mode, with that disk as root disk and target. |
| Example.WritableHost | internal/linux/observer.go:294-336 | The same host is not read-only before the remount, although its superblock options end in `ro`. |
| Stacked.StackedRootIsRefused | internal/policy/inspect.go:113-117 | A disk under a partition under a device-mapper volume that holds the root filesystem is refused, first by the gate about mounts, and nothing justifies it. |
| System.ObserveLive | internal/linux/system.go:94-107 | Adds the resolved root disk, memory and SysRq state, or refuses when one is unavailable. |
| System.SourceIsolation | internal/policy/inspect.go:84-91 | In either mode no device the image source rests on belongs to the target. |
| System.RescueIsolation | internal/policy/inspect.go:84-122 | In rescue mode no device that a resolved mount, a swap area or the source reaches belongs to the target, through any chain of relations. |
| System.NoMountReachesTarget | internal/policy/inspect.go:113-122 | In particular no mounted device reaches the target or is reached from it. |
| System.LiveTargetIsRootDisk | internal/policy/inspect.go:124-126 | Live acceptance makes the resolved root disk the target. |
| System.LiveRootChainsReachTarget | internal/linux/observer.go:487-520 | On a well-formed snapshot every dependency chain of the root mount runs into the accepted live target. |
| System.RemountReadOnly | internal/linux/system.go:200-216 | Succeeds exactly when the request works and one of 600 polls finds every block-backed mount read-only before any poll ends in a read error. |
| System.OpenTarget | internal/linux/system.go:219-251 | The descriptor is left open exactly when the calls work, the second observation equals the inspected identity and the descriptor has the device's number; a rejected one is closed again. |
| System.ValidateOpenedTarget | internal/linux/system.go:253-278 | The checks on the open descriptor pass exactly when nothing has drifted and its number can be read. |
| System.JustifiedIsUnique | internal/linux/system.go:42-92 | One request and one set of observations justify at most one inspection. |
| System.DriftIsSetDifference | internal/linux/system.go:305-313 | Comparing descendants as sequences detects exactly a change of the related set. |
| Execution.Machine.Prepare | internal/linux/execute.go:67-90 | A held source is returned only with a justified inspection of the same path, digest and size and after calls that worked; otherwise it is closed and the reason is one of those listed, or its reads have not ended. |
| Execution.Machine.PrepareLive | internal/linux/execute.go:153-172 | The four live calls in order up to the first failure, and a proven remount on success. |
| Execution.Machine.RebootLive | internal/linux/execute.go:174-186 | Sync, then reboot, in live mode only. |
| Execution.Machine.Execute | internal/linux/execute.go:105-151 | Calls are a prefix of the fixed order and stop at the first failure; a rejected call is the last one; success exactly for the whole order with every call succeeding, so none of the syncs, flushes and reboot calls failed, and a live write has memory locked, swap off and SysRq enabled; live without reboot stops at confirmation; both descriptors are closed on return; writing needs every gate, consent and an undrifted target; the disk holds old bytes under a prefix of the verified expansion, the whole expansion on success, decoded to a clean end if it is zstd; a stop has a named cause; an unfinished run is waiting in its last call under a list that is too short; a favourable environment ends in success. |
| Execution.OrderInFull | internal/linux/execute.go:105-186 | The seven calls of a rescue run and the thirteen of a live run, in order. |
| Execution.Machine.WholeImageOnDisk | internal/image/write.go:203-224 | After success the disk reads as the raw image verbatim, or its decoded frames when the zstd magic led, followed by the old suffix, and the decoder ended cleanly. |
| Execution.Machine.FavourableIsDone | internal/linux/execute.go:105-151 | What stops a run or leaves it unfinished is what a favourable environment rules out, so a justified inspection there means success. |
| Runs.RescueRunSucceeds | internal/linux/execute.go:105-151 | For every raw image of at most 4096 bytes and every disk with room, the whole rescue run on the accepted host ends in success with the image over the old bytes. |
| Runs.LiveRunSucceeds | internal/linux/execute.go:105-186 | The same for the live run on the disk under the root filesystem, through the remount and up to the reboot. |
| Runs.LiveRunIsCleared | internal/linux/execute.go:117-151 | The live host passes everything that must hold before the first byte, its own remount included. |
| Execution.IsolatedWhenWritten | internal/linux/system.go:253-278 | In rescue mode the devices of the reopened target are apart from everything the observed mounts, swap areas and source rest on. |
| Execution.ConsentCoversTheWrite | internal/linux/system.go:115-127 | Without a collision, a write reaches only the target and image for which the operator obtained the token. |

## Left out

- Execution.Machine.Execute: the boundary is the production one under an arbitrary environment; other implementations of the Go `Boundary` interface are not modelled.
- `cmd/diskforge/main.go`, `diskforge.go`, `types.go`, `errors.go`: flag parsing, JSON, exit codes and field-by-field conversion would only add easy members.
- HTTP transport: a response is a status, an optional length and a byte stream that may fail.
- Open flags of the target (exclusive in rescue mode, no symbolic links): opening is one call that succeeds or fails.
- Raw system calls (`mlockall`, `swapoff`, control writes, `fdatasync`, block flush): each is one step that succeeds or fails.
- SHA-256 and zstd internals: parameters of the model.
- Concurrent change of the image file while it is streamed: content is stable within one call and arbitrary between calls; the mutex is not modelled.
- Observer calls are atomic: one observer call reads one snapshot, and different calls may read different ones.
- Special path names: device names are single path components, so `.`, `..` and `/` as device names have no directory meaning in the snapshot tree.
- Invalid UTF-8 in kernel text: strings are decoded text.
- `MemAvailable` and SysRq text parsing: the two values are part of the snapshot.
- Sleeping between remount polls, and error message wording other than the named overlap device.
- The progress callback is modelled by the list of reports it would receive; a missing callback receives none.
- Unsupported formats in `expandedReader`: verification yields raw or zstd only.
