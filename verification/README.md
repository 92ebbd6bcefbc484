# Klitka: verified core

Klitka runs commands in small virtual machines and lends them host directories. This project
models, in Dafny 4.11, the parts of it that keep state and have to keep it right:

- the FS-RPC server of one mount: a two-way index between host paths and inode numbers, and a
  table of open handles, kept in step with a directory tree through lookup, listing, create,
  mkdir, unlink, subtree rename and garbage collection (`Paths`, `InodeTable`, `HandleTable`,
  `HostFs`, `Readdir`, `MountSpec`, `MountRuns`, `MountAgreement`, `ReaddirRuns`, `MountLaws`,
  `MountAcceptance`, `FsrpcMountObject`);
- the guest's wire layer: the CBOR subset of sections 3, 4.1 and 4.2.1 of RFC 8949, and frames
  that survive short reads and writes (`Cbor`, `Framing`, `Protocol`);
- the guest's command loop with its back-pressure and its final response (`ExecLoop`);
- the guest's bounded caches (`Recency`, `LruCacheObject`);
- three small concurrent protocols: ownership of virtio requests, ownership of network managers
  across VM starts and stops, and the SDK's asynchronous queue (`VirtioClient`, `VmLifecycle`,
  `AsyncQueueObject`).

`dafny verify dfyconfig.toml` checks everything.

## How it is built

Code that updates fields in place is a class with the same fields, loops and branches; each
method is proved to compute a function on values. Loops over a Go map pick the next key
arbitrarily, so a result proved for such a loop holds for every iteration order. What holds
over time is proved about the functions: a run is a sequence of states with one event between
each two, and the theorems speak of every state of every run.

What the outside world decides is an argument. `Oracle` holds what the host answers while one
request is served (clock, refused and missing paths, system-call failures, the directory
listing). `Wire` takes and gives bytes in portions that are left open. A `Tick` is one round of
the guest's poll loop; a list of ticks is a schedule. The concurrent protocols are state
machines whose actions are the sections run under a lock and the stretches between them, in any
interleaving.

The methods for single requests compute the functions of `MountSpec` with the same branches, so
they have no rows of their own below; what those functions mean to a client is in `MountLaws`
and `MountAcceptance`, and what they keep over time in `MountRuns`, `MountAgreement` and `ReaddirRuns`.

A clean host path is the sequence of its components. `Paths.StringPrefixIsComponentwise` ties
the server's string tests to that form.

## What came out of it

- **Inodes follow their files, under one condition.** `MountAgreement.InodesFollowObjects`: in
  every run of the mount's own requests, an inode number names one host object from the moment
  it is issued until that object is gone, through renames of the object and of its ancestors,
  and is never issued again. The condition is on renames: the source has an inode, or the
  target has none, or they are the same path. `MountAgreement.RenameFollowsExactly` shows that a
  successful rename keeps the property if and only if the condition holds, and
  `MountAgreement.RenameWithoutLookup` is a run from a fresh mount that breaks it: look up "b",
  rename "a" over "b" without looking "a" up, and the inode of the old "b" names the other file.
- **A listing page can panic.** `Readdir.PageExact`: a request makes the server allocate a
  negative capacity exactly when its page starts inside the listing and start plus size does not
  fit in a signed 64-bit integer; an offset of 2^63 or more starts at zero. `Readdir.PagePanics`
  gives three such requests. The guest never asks for that many entries.
- **The claim about virtio channels needs no bound on the number of requests.**
  `VirtioClient.ChannelsSafe` holds even when 32-bit ids wrap around;
  `VirtioClient.NoRequestLost` and `VirtioClient.CloseSettlesAll` are stated up to the wrap.
- **A strict VM is guarded in every interleaving.** `VmLifecycle.StrictGuarded`: as long as it is
  in the table its proxy and transport are open, the transport was set up before the VM, and it
  is not on the host backend; `VmLifecycle.ManagersAccounted`: a start that fails leaves nothing
  open.

Where documents and code differ the model follows the code: fs-rpc.md:74 names the fields of a
rename request differently from daemon/fsrpc_server.go:870-885, and fs-rpc.md:126 speaks of LRU
collection of inodes where the code drops only unpinned entries whose path is missing or
outside the mount (daemon/fsrpc_server.go:1109-1139).

## Model

| member | source | states |
|---|---|---|
| `Paths.StringPrefixIsComponentwise` | daemon/fsrpc_server.go:1166-1190 | on clean paths the server's string-prefix test picks exactly the proper component-wise descendants, never a sibling with a common string prefix, and the string it builds is the rendering of the moved path |
| `Paths.WithinRootIsPrefix` | daemon/fsrpc_server.go:1223-1232 | the relative-path test accepts a path exactly when the root is a component-wise prefix of it |
| `Paths.ResolveStaysInside` | daemon/fsrpc_server.go:1193-1221 | from a parent inside the mount, resolution fails exactly on an empty name or one with a separator; otherwise the result is inside the mount and is the parent, its parent or a proper child |
| `InodeTable.MoveSubtree` | daemon/fsrpc_server.go:1159-1191 | the moved map: a key is present exactly if something landed on it or it was there and did not move, with the value of what landed or its own, also when the two regions overlap |
| `InodeTable.MovedKeysArrive` | daemon/fsrpc_server.go:1159-1191 | every key at or below the source is found, with its value, where it was moved to |
| `InodeTable.FreshTable` | daemon/fsrpc_server.go:108-128 | a new mount's table is consistent and rooted |
| `InodeTable.EnsureKeeps` | daemon/fsrpc_server.go:982-995 | looking up or adding a path keeps the maps inverse and rooted, keeps every stored inode, adds at most that path, and gives it a number not in use |
| `InodeTable.RemoveAllKeeps` | daemon/fsrpc_server.go:1148-1157 | removing paths keeps the maps inverse, and rooted if the root stays |
| `InodeTable.RemapConsistent` | daemon/fsrpc_server.go:1159-1191 | rename keeps the maps exact inverses; the inodes dropped are exactly those whose path did not move and was landed on |
| `InodeTable.RemapRooted` | daemon/fsrpc_server.go:1159-1191 | rename inside the mount keeps every stored path at or below the root and inode 1 on the root |
| `InodeTable.InodeGcKeeps` | daemon/fsrpc_server.go:1109-1139 | collection keeps the maps inverse and rooted, never drops the root, a pinned inode or a path still there, never goes below the limit, and stops there or with no candidate left |
| `HandleTable.FirstFreeExists` | daemon/fsrpc_server.go:997-1013 | with fewer than 2^64-1 handles the search reaches a free id, across the wrap that skips zero |
| `HandleTable.FirstFreeUnique` | daemon/fsrpc_server.go:997-1013 | only one id is the first free one in cyclic order from the counter |
| `HandleTable.HandleGcOutcome` | daemon/fsrpc_server.go:1059-1107 | at most the limit remain, exactly the limit if overflow forced evictions; no survivor is idle; every survivor was used no earlier than every handle evicted for overflow; survivors are unchanged |
| `HostFs.WriteIntentIsExact` | daemon/fsrpc_server.go:1292-1306 | the read-only filter refuses exactly the flag words whose translation could write, plus those with both access bits |
| `HostFs.RenameKeepsTree` | daemon/fsrpc_server.go:936-938 | the contract used for the host's rename: it keeps the tree a tree, with distinct objects, and replaces at most the target itself |
| `Readdir.PageExact` | daemon/fsrpc_server.go:559-579 | for every offset and size: the page panics exactly when it starts inside the listing and start plus size reaches 2^63 (an offset of 2^63 or more starts at zero); it is empty when it starts at or beyond the end; otherwise it is the next min(size, rest) entries, each with the offset after it |
| `Readdir.PagePanics` | daemon/fsrpc_server.go:559-579 | three concrete requests that panic on an empty directory |
| `Readdir.KeptExact` | daemon/fsrpc_server.go:559-579 | with a page size from 1 to 2^31 and any cut, what is kept is the next non-empty stretch of the listing, the resume offset is its end, and at the end the page is empty |
| `Readdir.FillDirentBuffer` | guest/src/sandboxfs.zig:686-716 | the guest keeps at least one entry of a non-empty page and stops at the first that reaches the buffer size |
| `Readdir.AlignDirent` | guest/src/sandboxfs.zig:1187-1189 | an entry takes the least multiple of eight octets that holds it |
| `Readdir.ReaddirTableKeeps` | daemon/fsrpc_server.go:539-557 | a listing gives the parent and every child an inode, adds nothing else, keeps every stored inode and the table's invariants |
| `Readdir.EntriesStable` | daemon/fsrpc_server.go:539-557 | a later listing that finds the inodes in place builds the same entries and changes nothing |
| `Readdir.NamesOnce` | daemon/fsrpc_server.go:539-557 | no name appears twice in a listing |
| `ReaddirRuns.InodeStable` | daemon/fsrpc_server.go:982-995 | a path holding the same object at two points of a run has the same inode at both |
| `ReaddirRuns.ListingOverRuns` | daemon/fsrpc_server.go:511-580 | in every run, with other requests and collections in between, a client that lists an unchanged directory from offset zero and resumes after the last entry it kept holds, from the actual replies put together, the beginning of one listing, each entry once, in order, one inode per name; enough turns make it complete; no reply panics; at the end the page is empty |
| `ReaddirRuns.TogetherIs` | daemon/fsrpc_server.go:511-580 | after n turns the client holds the first entries of the listing, at least n of them unless it has all, and its next request starts right after them |
| `MountRuns.ServeChange` | daemon/fsrpc_server.go:390-444 | every request changes table and tree by one of six named changes, a rename only to the two paths it resolved |
| `MountRuns.ChangeKeepsTable` | daemon/fsrpc_server.go:982-1191 | each of those changes keeps the index exact and rooted and the host tree a tree |
| `MountRuns.DropFiles` | daemon/fsrpc_server.go:1025-1107 | dropping handles and closing their files keeps every descriptor held once or closed once |
| `MountRuns.ServeKeepsFiles` | daemon/fsrpc_server.go:582-767 | every request keeps that account, also a create whose stat fails after the open |
| `MountRuns.GcKeeps` | daemon/fsrpc_server.go:1041-1139 | collection keeps index and account, leaves the remaining handles and inodes unchanged, and drops no inode that an open handle is on or that is still on the host |
| `MountRuns.PinnedIs` | daemon/fsrpc_server.go:1114-1120 | the pinned inodes are exactly the root's and those of the open handles |
| `MountRuns.OpenInodeStays` | daemon/fsrpc_server.go:1109-1139 | in every run, also while other processes remove files: as long as a file stays open and no unlink or rename is served, its inode stays in the table at its path through every collection |
| `MountRuns.FreshInv` | daemon/fsrpc_server.go:108-128 | a new mount meets the invariant |
| `MountRuns.InvOverRuns` | daemon/fsrpc_server.go:390-444 | in every state of every run, also with other processes changing the tree: the maps are exact inverses below nextIno, every stored path is the root or below it, inode 1 is the root, every opened file is in the handle table under one id or closed exactly once |
| `MountRuns.AllClosedOnce` | daemon/fsrpc_server.go:130-146 | closing what is in the handle table leaves every descriptor ever opened closed exactly once |
| `MountRuns.NothingLiveAfterClose` | daemon/fsrpc_server.go:130-146 | after shutdown every descriptor ever opened has been closed exactly once |
| `MountRuns.ReadOnlyRuns` | daemon/fsrpc_server.go:408-444 | on a read-only or unspecified-mode mount no sequence of requests, with any flags, changes tree or contents or opens a writable descriptor |
| `MountAgreement.RenameFollowsExactly` | daemon/fsrpc_server.go:869-942 | a successful rename keeps agreement and object identity if and only if the source has an inode, the target has none, or both are the same path |
| `MountAgreement.SafeRenameFollows` | daemon/fsrpc_server.go:1159-1191 | under that condition inodes follow their objects and the replaced target's inode is retired |
| `MountAgreement.UnsafeRenameBreaks` | daemon/fsrpc_server.go:1159-1191 | otherwise the target's inode survives and names the source's object |
| `MountAgreement.GcQuiet` | daemon/fsrpc_server.go:1109-1139 | while table and tree agree, collection drops no inode |
| `MountAgreement.NextFollows` | daemon/fsrpc_server.go:390-444 | one event of a run, under the condition, keeps agreement and identity |
| `MountAgreement.InodesFollowObjects` | daemon/fsrpc_server.go:820-942 | between any two points of a run of the mount's own requests: every stored path exists, an inode names the same object at both, it is retired exactly when the object is gone, and its number is never reused |
| `MountAgreement.FreshAgrees` | daemon/fsrpc_server.go:108-128 | a new mount agrees with the tree |
| `MountAgreement.RenameWithoutLookup` | daemon/fsrpc_server.go:1166-1178 | a concrete run in which the condition fails and an inode changes object |
| `MountLaws.LookupReply` | daemon/fsrpc_server.go:446-484 | a lookup succeeds exactly for a name that denotes an existing object other than a symbolic link, returns that object and the inode its path has from now on, and changes no inode handed out before; a failing one changes nothing |
| `MountLaws.LookupThenGetattr` | daemon/fsrpc_server.go:446-509 | the inode a lookup returned gives the attributes it returned; a second lookup returns the same and changes nothing |
| `MountLaws.MkdirThenLookup` | daemon/fsrpc_server.go:769-818 | a directory just made is found under its name with the inode and object of the reply |
| `MountLaws.CreateThenLookup` | daemon/fsrpc_server.go:696-767 | a file just created is found under its name with the inode of the reply; its handle is new, on that inode, and open on the very object found |
| `MountLaws.UnlinkThenLookup` | daemon/fsrpc_server.go:820-867 | a file just unlinked is not found and its inode is unknown |
| `MountLaws.RenameThenLookup` | daemon/fsrpc_server.go:869-942 | after a rename the new name gives the old inode and the same object, and the old name is gone |
| `MountLaws.OpenThenRelease` | daemon/fsrpc_server.go:582-661 | releasing a handle just opened restores the handle table, with the file closed once; a second release is refused |
| `MountLaws.ReleaseThenUse` | daemon/fsrpc_server.go:622-694 | a released handle is refused by every later read, write and release, and other handles read what they read before |
| `MountLaws.OverlayExact` | daemon/fsrpc_server.go:681-689 | every byte of a file after a write: the data where it went, old bytes elsewhere, zeros in a gap |
| `MountLaws.WriteThenRead` | daemon/fsrpc_server.go:622-694 | a write through a handle for reading and writing succeeds unless the host fails, and its data is read back from where it went: the offset, or the old end of the file in append mode |
| `MountLaws.FailedWrite` | daemon/fsrpc_server.go:681-691 | a write that fails in the system call has stored the first part of the data, as long as the host got, where it belongs; one refused before it has stored nothing |
| `MountLaws.WriteThenReadOther` | daemon/fsrpc_server.go:622-694 | a write, failing or not, changes nothing that is read through a handle on another file; through a handle not open for writing it changes what no handle reads |
| `MountLaws.TruncateThenRead` | daemon/fsrpc_server.go:944-973 | after a truncate to any size, zero included, the file reads as cut to that size, or filled up with zeros |
| `MountLaws.Resolves` | daemon/fsrpc_server.go:1193-1221 | a proper name, "." and ".." resolve to exactly the child, the directory and its parent, which at the root is the root; malformed names to nothing |
| `MountLaws.ListThenLookup` | daemon/fsrpc_server.go:446-580 | every entry of a listing, the dot entries included, is what a lookup of its name in that directory finds: same inode, same kind, nothing changed |
| `MountLaws.EveryChildListed` | daemon/fsrpc_server.go:539-557 | every child of the directory is listed under its name |
| `MountAcceptance.Dispatches` | daemon/fsrpc_server.go:390-444 | a changing request on a read-only or unspecified-mode mount is answered 30 with nothing changed; otherwise each request is answered by its own handler, an unknown one by 38, a ping with the mode |
| `MountAcceptance.LookupRefusals` | daemon/fsrpc_server.go:446-484 | how a lookup fails, by error number: unknown parent or parent that is no directory 20, malformed name 22, refused 13, nothing there 2, symbolic link 40 |
| `MountAcceptance.ParentRefusals` | daemon/fsrpc_server.go:511-942 | listing, create, mkdir, unlink and rename answer 20 for a parent that is no directory and 13 for one the host does not let them look at, with nothing changed |
| `MountAcceptance.MkdirAccepted` | daemon/fsrpc_server.go:769-818 | under a directory, a proper name can be made exactly if nothing is there, unless the host fails; otherwise 17 and nothing changed |
| `MountAcceptance.CreateAccepted` | daemon/fsrpc_server.go:696-767 | under a directory, create succeeds exactly if nothing is there, or a file and no exclusive flag, unless the host fails; a path it may not look at is answered 13 |
| `MountAcceptance.CreatedHandle` | daemon/fsrpc_server.go:696-767 | the handle of a create reads, writes and appends as the flag word says; an existing file keeps its contents unless truncation is asked for, a new one is empty, no other file changes |
| `MountAcceptance.UnlinkAccepted` | daemon/fsrpc_server.go:820-867 | unlink succeeds exactly on something other than a directory or a symbolic link, unless the host fails; a directory gives 21 |
| `MountAcceptance.RenameAccepted` | daemon/fsrpc_server.go:869-942 | between two directories a rename succeeds exactly if the source exists and is no symbolic link, the target is no directory and not below the source, and nothing is at the target of a directory, unless the host fails |
| `MountAcceptance.RenameMovesSubtree` | daemon/fsrpc_server.go:869-942 | such a rename moves every object at or below the source, directories included, to its moved path, with its inode; the rest stays, save what the target replaced |
| `MountAcceptance.OpenAccepted` | daemon/fsrpc_server.go:582-620 | open succeeds exactly for an inode on a file, with flags the mount's mode allows and no exclusive creation, unless the host fails |
| `MountAcceptance.OpenedHandle` | daemon/fsrpc_server.go:582-620 | the handle of an open is on the object of the inode, reads, writes and appends as the flag word says, and only the truncate flag changes contents, of that one file |
| `MountAcceptance.ReadReply` | daemon/fsrpc_server.go:622-648 | a read through a readable handle returns the bytes of the file from the offset: as many as asked for, at most 262144, no more than are left; only the time stamp changes |
| `MountAcceptance.ReadRefused` | daemon/fsrpc_server.go:622-648 | a read through an unknown handle is answered 9, from an offset of 2^63 or more 5, and a read of at least one byte through an unreadable handle 9 |
| `MountAcceptance.WriteAccepted` | daemon/fsrpc_server.go:663-694 | a write through a writable handle stores all the data unless the host fails or the offset does not fit; through one that is not writable it is refused |
| `MountAcceptance.TruncateAccepted` | daemon/fsrpc_server.go:944-973 | truncate succeeds exactly for an inode on a file and a size below 2^63, unless the host fails, and gives the file that size |
| `MountAcceptance.FirstHandle` | daemon/fsrpc_server.go:108-128 | a new mount knows the root only, as inode 1; the first file created in it gets inode 2 and handle 1 |
| `MountAcceptance.CollectionDue` | daemon/fsrpc_server.go:1041-1057 | a collection happens exactly when the interval has passed: no idle handle and no more than the permitted number are left, and with too many inodes none whose path is gone, but for the root's and those of open handles; otherwise nothing changes |
| `FsrpcMountObject.FsrpcMount.constructor` | daemon/fsrpc_server.go:108-128 | a new mount object holds the fresh state |
| `FsrpcMountObject.FsrpcMount.EnsureInode` | daemon/fsrpc_server.go:982-995 | in place, computes `Ensure` and returns the path's inode |
| `FsrpcMountObject.FsrpcMount.RemovePathMapping` | daemon/fsrpc_server.go:1141-1157 | in place, computes `Remove` |
| `FsrpcMountObject.FsrpcMount.RemapPath` | daemon/fsrpc_server.go:1159-1191 | the four loops compute `Remap` for every order in which the maps are visited, overlap included |
| `FsrpcMountObject.FsrpcMount.GcInodes` | daemon/fsrpc_server.go:1109-1139 | the loop's outcome is one `InodeGc` allows |
| `FsrpcMountObject.FsrpcMount.NextHandleId` | daemon/fsrpc_server.go:997-1013 | terminates and returns the first free id in cyclic order; the counter moves past it |
| `FsrpcMountObject.FsrpcMount.GetHandle` | daemon/fsrpc_server.go:1015-1023 | refreshes the time stamp of a handle in use and changes nothing else |
| `FsrpcMountObject.FsrpcMount.CloseHandle` | daemon/fsrpc_server.go:1025-1039 | removes the handle and closes its file once, or reports it missing |
| `FsrpcMountObject.FsrpcMount.GcHandles` | daemon/fsrpc_server.go:1059-1107 | the outcome is one `HandleGc` allows; the files appended to the closing list by the two loops are those of the evicted handles, each once |
| `FsrpcMountObject.FsrpcMount.EvictIdle` | daemon/fsrpc_server.go:1067-1076 | the first loop evicts exactly the idle handles and collects each of their files once |
| `FsrpcMountObject.FsrpcMount.EvictOverflow` | daemon/fsrpc_server.go:1078-1104 | evicts exactly the excess, none of it used after a survivor, and collects each of their files once |
| `FsrpcMountObject.FsrpcMount.MaybeGC` | daemon/fsrpc_server.go:1041-1057 | collection before a request, at most once per interval; the closing loop closes each collected file once |
| `FsrpcMountObject.FsrpcMount.Close` | daemon/fsrpc_server.go:130-146 | after the two loops no handle is left and every file the server ever opened has been closed exactly once |
| `FsrpcMountObject.FsrpcMount.ListEntries` | daemon/fsrpc_server.go:539-557 | builds the full listing and the table that goes with it |
| `FsrpcMountObject.FsrpcMount.CutPage` | daemon/fsrpc_server.go:559-579 | cuts the page the specification defines, panic included |
| `FsrpcMountObject.FsrpcMount.Handle` | daemon/fsrpc_server.go:390-444 | serving a request, collection first, is a step of a run, keeps the invariant and gives the specified reply |
| `Cbor.BigEndianRoundTrip` | guest/src/cbor.zig:48-55 | reading n octets back gives the number written, if it fits |
| `Cbor.RoundTrip` | guest/src/cbor.zig:69-133 | decoding an encoding followed by any octets gives the value and stops right after it |
| `Cbor.PrefixFree` | guest/src/cbor.zig:69-237 | no encoding is a proper prefix of another, and distinct values have distinct encodings |
| `Cbor.WireForm` | guest/src/cbor.zig:173-237 | the octets of section 3.1 of RFC 8949 for every kind of value: integers from 0x00 and 0x20, strings from 0x40 and 0x60, arrays and maps from 0x80 and 0xA0, with the argument in the initial octet or in 1, 2, 4 or 8 octets after it; 0xF4, 0xF5 and 0xF6 are false, true and null |
| `Cbor.BodyInOrder` | guest/src/cbor.zig:98-122 | items follow one another in order, and in a map every key stands before its value |
| `Cbor.Refused` | guest/src/cbor.zig:57-133 | the refusals by initial octet: tags, other simple values and indefinite lengths are unsupported, reserved information malformed, integers of 2^63 or more overflow, a missing octet is the end of the buffer |
| `Cbor.EncodingIsShortest` | guest/src/cbor.zig:173-195 | whatever octets decode to a value are at least as many as its encoding has |
| `Cbor.Decoder.ReadN` | guest/src/cbor.zig:41-46 | returns the next n octets and moves past them, or fails at the end |
| `Cbor.Decoder.ReadUIntN` | guest/src/cbor.zig:48-55 | the loop returns the big-endian number of the next n octets |
| `Cbor.Decoder.ReadUInt` | guest/src/cbor.zig:57-67 | returns the argument announced by the initial byte, or the specified error |
| `Cbor.Decoder.DecodeValue` | guest/src/cbor.zig:69-133 | terminates on every input and gives the value and position, or the error, of `Decode` |
| `Cbor.Decoder.DecodeCount` | guest/src/cbor.zig:98-108 | the loop that fills an array, for any announced length |
| `Cbor.Decoder.DecodeEntryCount` | guest/src/cbor.zig:109-122 | the loop that fills a map, for any announced length |
| `Cbor.ByteBuffer.WriteUIntBE` | guest/src/cbor.zig:164-171 | the loop appends the n low-order octets, most significant first |
| `Cbor.ByteBuffer.WriteTypeAndLen` | guest/src/cbor.zig:173-195 | appends the initial byte with the shortest argument |
| `Cbor.ByteBuffer.WriteInt` | guest/src/cbor.zig:201-208 | appends the encoding of a signed 64-bit integer |
| `Cbor.ByteBuffer.WriteBytes` | guest/src/cbor.zig:210-213 | appends the encoding of a byte string |
| `Cbor.ByteBuffer.WriteText` | guest/src/cbor.zig:215-218 | appends the encoding of a text string |
| `Framing.DeliveredInOrder` | guest/src/protocol.zig:55-98 | if delivered, held and travelling bytes make up the enqueued frames, the delivered frames are a prefix of them, and all of them once nothing travels |
| `Framing.FrameLayout` | guest/src/protocol.zig:55-109 | a frame is its length in four octets, most significant first, and that many octets; parsing refuses exactly a length above 4194304 and yields a frame exactly if all its octets are there |
| `Framing.FrameReader.ReadFrame` | guest/src/protocol.zig:55-109 | the bytes taken join those held; a returned frame is exactly what they encode and nothing is held after it; it asks for more only when they are no frame yet and it took some or the wire blocked; it refuses exactly a length above the limit; other errors have their cause in the wire |
| `Framing.FrameWriter.Enqueue` | guest/src/protocol.zig:132-143 | appends the frame of the payload to what is pending |
| `Framing.FrameWriter.Flush` | guest/src/protocol.zig:145-159 | under any short writes, blocks and failures, sent plus pending bytes stay the same sequence |
| `Framing.ReadExact` | guest/src/protocol.zig:311-318 | fills the buffer with the next bytes, whatever the portions; it fails only when a read does or a closed stream is too short |
| `Framing.ReadFrameBlocking` | guest/src/protocol.zig:280-296 | takes exactly the first frame of the stream, refuses exactly a length above the limit, reports the end exactly of a closed stream that stops short, unless a read fails |
| `Framing.ReadResuming` | guest/src/protocol.zig:55-109 | repeated calls of the resumable reader give the frame, the refusal or the end that the stream determines; without an answer some call blocked or the calls were fewer than the frame has bytes |
| `Framing.ReadBoth` | guest/src/protocol.zig:280-296 | the resumable reader refines the blocking one on two wires with the same bytes to come in any portions: unless a wire fails or blocks, its answer is the blocking reader's, be it a frame (with the same bytes left), a refusal or the end of the stream, and with as many calls as the frame has bytes it answers |
| `Framing.RunLink` | guest/src/protocol.zig:36-160 | for any script of enqueues, flushes and reads: sent and pending bytes are exactly the frames the script enqueues, in order; the frames the reads return are a prefix of them, no read refuses one, and with nothing pending and all read they are all of them |
| `Protocol.MessageEncodes` | guest/src/protocol.zig:183-239 | every message has an encoding; an output message adds at most 51 octets to its data |
| `Protocol.EncodeExecOutput` | guest/src/protocol.zig:183-208 | the writer calls produce the encoding of the output message |
| `Protocol.EncodeExecResponse` | guest/src/protocol.zig:210-239 | the writer calls produce the encoding of the response message |
| `Protocol.MessageRoundTrip` | daemon/virtio.go:259-299 | what the host reads from an encoded message is that message |
| `Protocol.HostAccepts` | daemon/virtio.go:259-333 | exactly which maps the host takes for a message (integer id not negative, known type, integer exit code in a response), and what a missing payload, stream, data or signal counts as |
| `ExecLoop.ParseStatus` | guest/src/main.zig:491-500 | a signal is reported exactly for the status of a signalled process, with 128 plus its number as the code; a normal exit gives its exit code; anything else gives 1 |
| `ExecLoop.NothingToPollLeaves` | guest/src/main.zig:318-323 | with nothing to poll, only the child's status keeps the loop from ending |
| `ExecLoop.IdleThenLeaves` | guest/src/main.zig:318-323 | in every course of the loop a head with nothing to poll is followed by the head that leaves it |
| `ExecLoop.CourseKnows` | guest/src/main.zig:287-394 | at every head the status is the first one the ticks reported or, after a head with nothing to poll, the one waited for; stdin is open exactly if asked for, not closed by a tick and, with a terminal, stdout is open; with a terminal stderr is not read |
| `ExecLoop.CourseAdvances` | guest/src/main.zig:325-352 | every round that finds a stream open, ready and not held back reads at least one byte of it or closes it at its end |
| `ExecLoop.RoundTold` | guest/src/main.zig:290-393 | between two heads one tick is used in which poll and the reads did not fail, but for a terminal's input/output error, which ends stdout; from 262144 pending bytes on neither stream is touched |
| `ExecLoop.Pump` | guest/src/main.zig:327-352 | one chunk becomes one output message; at most one maximal frame is added to what is pending |
| `ExecLoop.Round` | guest/src/main.zig:325-393 | one poll round computes `RoundVars`, fails exactly on an unaccepted fault of poll, a read or the wire, and never has more than 278637 bytes pending |
| `ExecLoop.RunLoop` | guest/src/main.zig:287-394 | over every schedule the heads form a course of the loop, each head with sent plus pending bytes equal to the transcript; it ends at a head that may leave, at one that needs a tick when none is left, or with a round that failed; the writer's high-water mark stays at 278637 or below |
| `ExecLoop.FlushWriter` | guest/src/main.zig:474-489 | sent plus pending bytes stay the transcript; it ends normally only with nothing pending, stays unfinished only if the wire blocked in every round that reported room, and fails only when poll, the wire or the other end does |
| `ExecLoop.HandleExec` | guest/src/main.zig:271-409 | for every child output and schedule: the writer never holds more than 278637 pending bytes; an idle head is directly followed by the exit; a course that leaves the loop has sent all of stdout and stderr in order and then exactly one response, last, with the first status the ticks reported or else the one waited for, all messages with the request's id; a normal return means all of it is on the wire; any other outcome has its cause in the schedule or the wire |
| `ExecLoop.HostReadsTranscript` | daemon/virtio.go:174-188 | read frame by frame and decoded, the bytes of a transcript are exactly its messages |
| `Recency.ListIsLru` | guest/src/sandboxfs.zig:234-275 | one operation on the recency list is one on time-stamped entries that evicts an oldest one |
| `Recency.LruRuns` | guest/src/sandboxfs.zig:205-276 | after any operations the list is within the limit and holds what a run of the time-stamped reference holds, in order of last use |
| `Recency.LookupAgrees` | guest/src/sandboxfs.zig:248-254 | a lookup returns the latest value put, for exactly the keys neither removed nor evicted |
| `LruCacheObject.LruCache.Put` | guest/src/sandboxfs.zig:234-246 | map and linked list stay in step and hold the recency list after the put |
| `LruCacheObject.LruCache.Get` | guest/src/sandboxfs.zig:248-254 | returns the value and moves the key to the front; a miss changes nothing |
| `LruCacheObject.LruCache.Remove` | guest/src/sandboxfs.zig:256-261 | the key is gone from map and list |
| `LruCacheObject.LruCache.Touch` | guest/src/sandboxfs.zig:263-266 | unlinks a node and links it in front, keeping map and list in step |
| `LruCacheObject.LruCache.EvictIfNeeded` | guest/src/sandboxfs.zig:268-275 | drops from the end exactly down to the limit |
| `LruCacheObject.RunCache` | guest/src/sandboxfs.zig:278-344 | any operations on a new cache: each get returns what the recency list of the operations before it holds, and the cache ends as that list |
| `VirtioClient.StepKeeps` | daemon/virtio.go:69-128 | every action keeps the invariant: a request in the table or being delivered has open, unused channels |
| `VirtioClient.ChannelsSafe` | daemon/virtio.go:69-231 | in every interleaving no channel is closed twice, no final send or broadcast hits a closed channel, no final send blocks |
| `VirtioClient.NoRequestLost` | daemon/virtio.go:69-231 | up to the wrap of ids, every request is closed exactly once, waiting and open, or could not be sent |
| `VirtioClient.CloseSettlesAll` | daemon/virtio.go:69-84 | in every state after the first Close, each request made before it is closed exactly once, just being delivered, or could not be sent |
| `VirtioClient.ValuesDelivered` | daemon/virtio.go:69-231 | in every interleaving a response has put one value into the exit channel and none into the error channel, an error message the reverse, Close none; a failure of the read loop adds one error to what was waiting; a request that could not be sent is no longer in the table |
| `VirtioClient.BroadcastReaches` | daemon/virtio.go:190-199 | when the read loop fails every waiting request gets exactly one error, and no other request changes |
| `VirtioClient.FinalDelivered` | daemon/virtio.go:201-231 | a final message puts one value into the channel meant for it, of the request it names, and closes all three |
| `VmLifecycle.ChoiceExact` | daemon/backend.go:43-95 | the host backend is used exactly for non-strict requests that asked for it or found no VM; a VM exactly when one was tried and came up |
| `VmLifecycle.StepKeeps` | daemon/service.go:24-39 | every step of every call keeps each open manager with one holder |
| `VmLifecycle.ManagersAccounted` | daemon/network.go:72-155 | in every interleaving of starts and stops the open managers are exactly those of VMs in the table or of one call in flight, the others are closed once, a failed start leaves nothing open, no strict request runs on the host |
| `VmLifecycle.VmsListed` | daemon/service.go:24-121 | in every interleaving a VM is in the table exactly if its start has succeeded and no stop has taken it out, with the manager and strictness of its start |
| `VmLifecycle.BackendPicked` | daemon/backend.go:43-95 | the step that picks the backend builds a VM exactly if a backend may be used, and on the host exactly if that is the one |
| `VmLifecycle.StrictGuarded` | daemon/network.go:72-104 | in every interleaving a VM of a strict request has an open manager whose transport was set up first, and is not on the host; any VM is on the host exactly if its start took that backend |
| `VmLifecycle.TransportKept` | daemon/network.go:83-104 | once its transport is up, the manager of a strict start has it to close |
| `AsyncQueueObject.AsyncQueue.constructor` | sdk/src/client.ts:244-247 | a new queue is open and empty |
| `AsyncQueueObject.AsyncQueue.Push` | sdk/src/client.ts:249-259 | settles the oldest waiting call or queues the item; refused exactly when closed |
| `AsyncQueueObject.AsyncQueue.Close` | sdk/src/client.ts:261-270 | settles every waiting call with done and keeps queued items |
| `AsyncQueueObject.AsyncQueue.Next` | sdk/src/client.ts:274-285 | the call gets the next item, done, or waits in line |
| `AsyncQueueObject.RunSession` | sdk/src/client.ts:244-296 | in every interleaving the i-th next gets the i-th item pushed before the close, or done, or waits; unread items stay in order; items and waiting readers never coexist and none waits after close |

## Left out

- Decoding of FS-RPC request maps: requests arrive as values, so the refusals for missing or mistyped fields are not modelled, nor are the attributes, modes and time stamps in replies.
- Concurrent requests on one mount: the requests of a mount are served one after the other.
- Symbolic links to directories in the middle of a path: a path through one does not exist in the model's tree, so the host is not followed through it.
- Hard links, case-insensitive file systems and exhaustion of 64-bit inode numbers.
- HostFs: which error number the host gives is decided by the tree or by the oracle; a refused stat is always EACCES, and errors such as a name that is too long or a full disk appear only as the oracle's failure of the system call.
- FsrpcMountObject.SortCandidates: the library's sort is an insertion sort here; only that older candidates come first is used.
- Handles without a file: the server's tolerance of nil entries in the handle table has no counterpart, since no handler stores one.
- Framing: allocation failure, and `writeFrame`/`writeAll`, whose loop is that of the flush without blocking.
- Cbor: limits of the machine's size type and allocation failure while decoding; lengths are mathematical integers below 2^64.
- Protocol.MessageRoundTrip: the host's CBOR library is represented by the guest's decoder; keys repeated in a map do not occur in these messages.
- ExecLoop.HostReadsTranscript: the host's CBOR library is represented by the guest's decoder here too.
- ExecLoop.HandleExec: in a terminal session the end of stdout may be an input/output error, so completeness of stdout is claimed for pipes only.
- Stdin forwarding (guest/src/main.zig:411-457) is a verdict in the tick; what the child reads, terminal resizing and file descriptors are not modelled.
- LruCacheObject.RunCache: `HandleCache` has the same code as `LruCache`; one generic class stands for both, and freeing of nodes is not modelled.
- VirtioClient.ChannelsSafe: the lossy send of `exec_output` after unlocking is outside the claim, and so is what `collectExecOutput` gathers.
- VmLifecycle.ManagersAccounted: closing of the VM and host backends themselves, and the proxies' own work.
- DNS, TLS interception, host matching, secrets, policies, the CLI, image building and the QEMU and virtiofsd backends: libraries, system calls, or rules that would add easy members only.
