# Verified model of the wasmtime-mysql host bridge

This project models the logic that lets a MySQL server built for WASI run inside a Wasmtime
host: guest path resolution and the file table, the Windows data-file lock protocol, the
socket table with its `poll` bridge, the shutdown flag and the connection listener, thread ids,
the guest's `mkstemp` and file-size shims, and the benchmark client's MySQL wire decoder.
`dafny verify dfyconfig.toml` checks all of it.

## How it is modelled

- **Protocols** (`FileLocks`, `SocketOwnership`, `FlagOverlap`, `Shutdown`, `ThreadIds`,
  `FileSize`, the shared directory in `TempNames`) are state machines: `Enabled` and `Apply` say
  what one atomic step does, a run is a sequence of events, and the theorems quantify over every
  possible run, so over every interleaving of any number of processes or threads. Table
  operations are one step each because the source runs each under one mutex; everything else
  (kernel calls, the two halves of a signal handler or of `F_SETFL`, the three seeks of a size
  query) is a step of its own.
- **Histories.** What tables, descriptors, flags, the listener and the shared directory hold is
  also stated by functions of the events alone (`LatestOpen`, `Latest`, `OpenedOn`, `Reported`,
  `Place`, `Present`, `CursorOrigin`, ...), and proved to agree with the state machine.
- **Objects the source updates** (`HostFiles`, `HostSockets`, guest memory, the client, an open
  file) are classes whose methods are tied to functions of the old state; the protocols use
  the same functions.
- **Loops** (`NormalizeGuestPath`, `ResolveGuestPath`, `WindowsLockName`, `PollCall`, `Query`,
  `Mkstemp`, ...) are methods proved against specification functions, and the laws are proved
  about those functions.
- **The operating system** is a parameter or an event: kernel answers, `recv` chunking, the
  outcome of exclusive creates, the socket table each look-up finds, and what other threads do
  to guest memory during a call are universally quantified.
- Guest paths are byte strings (one `char` per byte). Host paths are lexical component lists.
  Event and flag masks are sets of bit positions in `PollEvents` and `StatusFlags`;
  `PollWindows` ties them to the 16-bit fields in guest memory. Machine integers are written
  out: saturating counters, the wrapping thread counter, wrapping `i32` address sums (as in a
  release build), saturating `i64` timeouts, 64-bit hash arithmetic.

## Where the code differs from what one might expect

- `docs/status.md` says Windows uses `LockFileEx`; the code uses a named kernel object
  (src/host_files.rs:336-349), and that is what `FileLocks` models.
- A SIGINT that *arrives* before a SIGTERM but runs its first action after it exits at once
  (`Shutdown.ArrivalBeforeRequestCanStillExit`); the exact condition is when the check runs
  (`Shutdown.ForcedExitIffLateCheck`).
- Unix `accept` slices its buffer by the length the kernel reports; a longer one panics and the
  accepted socket is lost (`SocketOwnership.OversizedAddressLosesSocket`). Together with an
  insert over a live entry at the saturated number, that is the only way to lose a socket
  (`SocketOwnership.LostIffSomeStepLoses`).
- The timeout conversion is one millisecond short for some microsecond values near `i64::MAX`
  (`Timeouts.ConversionCanFallShort`); `Timeouts.ConversionExactIff` gives the exact set.
- The lock's object name begins with `Local\`, which Windows keeps apart by logon session. The
  exclusion holds within one session (`FileLocks.MutualExclusion`); two sessions can hold one
  path at once (`FileLocks.OtherSessionHoldsToo`).
- A lock nobody holds can still be refused, while another caller is being refused on it
  (`FileLocks.RefusedThoughNobodyHolds`); `FileLocks.RefusedIffInUse` is exact.
- The `poll` write-back can fail half way only in memory of more than 2^31 + 1 bytes
  (`Poll.SmallMemoryNeverFails`). The shipped guest is linked with at most 2^30 bytes, so it
  never meets this (`Poll.ShippedGuestNeverFails`).
- `F_SETFL` sets the kernel's mode and the cached flag in two steps. The two agree exactly when
  the last of each on that socket carry the same bit (`FlagOverlap.LastHalvesDecide`), hence
  always when calls on one socket do not overlap (`FlagOverlap.OrderlySocketAgrees`), and not
  when two calls cross (`FlagOverlap.CrossedSetFlDisagrees`). An accepted socket agrees exactly
  when the flag cached for its listener at look-up is the mode the kernel then copies
  (`FlagOverlap.AcceptedAgreesIff`).
- Overlapping size queries can move the shared cursor (`FileSize.OverlapCanMoveCursor`) but need
  not (`FileSize.NestedOverlapIsHarmless`). Which it is follows from the order of the steps: the
  query that goes back last takes the cursor to where it was when that query started
  (`FileSize.LastToGoBackDecides`, `FileSize.CursorRestoredIff`, `FileSize.OrderRestoresIff`).
- A size query whose first seek fails but not its second leaves the cursor at the end of the
  file (`FileSize.OpenFile.GetSize`).
- The client cuts a packet length to three bytes, so what it writes reads back exactly when the
  payload is shorter than 2^24 bytes (`WireClient.WrittenPacketReadsBackIff`).

## Model

| member | source | states |
|---|---|---|
| `GuestPath.NormalizeGuestPath` | src/host_files.rs:553-584 | the stack loop computes the normal form of the specification: parse to components, render them |
| `GuestPath.WalkConcat` | src/host_files.rs:560-570 | walking a concatenation is walking the second part from where the first ended, errors included |
| `GuestPath.NameThenUpCancels` | src/host_files.rs:560-570 | a name followed by ".." may be deleted anywhere in the path without changing success, failure or result |
| `GuestPath.NeutralPartsVanish` | src/host_files.rs:562 | empty parts and "." may be deleted anywhere |
| `GuestPath.WalkFailsIffEscapes` | src/host_files.rs:563-567 | a walk fails, with ENOTCAPABLE, exactly when some prefix has more ".." than names; otherwise the depth is the balance |
| `GuestPath.NormalizeErrors` | src/host_files.rs:553-570 | ENOENT exactly for the empty path, ENOTCAPABLE exactly for an escaping one, no other error |
| `GuestPath.ParseUndoesRender` | src/host_files.rs:572-583 | rendering a canonical component list and normalizing it again gives the same components and the same kind |
| `GuestPath.NormalizeIdempotent` | src/host_files.rs:553-584 | normalizing a normalized path changes nothing |
| `GuestPath.NormalizeCompositional` | src/host_files.rs:553-584 | normalizing a/b equals normalizing normalize(a)/b, errors included |
| `GuestPath.ParseAppended` | src/host_files.rs:553-584 | a/b denotes b walked from the components of a, and keeps a's kind |
| `CwdJoin.ResolvePath` | patches/mysql-wasi/0001-add-wasi-port-probe-cmake-bypasses.patch:1039-1057 | when the argument is passed through, when ENAMETOOLONG is reported, and otherwise the exact terminated text in the caller's buffer |
| `CwdJoin.JoinThenNormalizeIsWalk` | patches/mysql-wasi/0001-add-wasi-port-probe-cmake-bypasses.patch:1050-1056 | the guest's cwd join followed by host normalization is walking the relative path from the normalized cwd, errors included |
| `Preopens.SuffixRefinesCovers` | src/host_files.rs:379-394 | the byte comparisons accept exactly the component-prefix relation ("." all relative paths, "/" all paths) and leave exactly the remaining components |
| `Preopens.CoverageInText` | src/host_files.rs:379-394 | "/" covers every path, "." every path without a leading slash, any other guest directory itself and what follows it after a slash |
| `Preopens.JoinPrefix` | src/host_files.rs:387-390 | a joined list and a slash is a byte prefix of another joined list exactly for a proper component prefix |
| `Preopens.JoinSuffix` | src/host_files.rs:586-594 | the host root followed by the non-empty, non-"." parts of the suffix |
| `Preopens.ResolveGuestPath` | src/host_files.rs:374-398 | the byte-level loop over the preopens refines resolution on component lists, for every path and every normalized preopen list |
| `Preopens.ResolvePicksLongestThenFirst` | src/host_files.rs:88-396 | resolution picks the covering preopen with the longest guest side, first declared among equals, and returns its host root plus exactly the remaining names; ENOTCAPABLE exactly when none covers |
| `Preopens.SortedFindsBest` | src/host_files.rs:88 | the first match of the sorted list is the best match of the declaration list |
| `Preopens.SortPermutes` | src/host_files.rs:88 | the sort is a permutation |
| `Preopens.SortSorts` | src/host_files.rs:88 | the sort orders by decreasing guest length |
| `Preopens.NewPreopens` | src/host_files.rs:71-101 | the table holds the default mapping and every declaration, normalized and sorted, or reports the error |
| `Preopens.DeclareMapsInOrder` | src/host_files.rs:81-86 | every declaration is normalized and mapped in order |
| `Preopens.DeclareReportsFirstError` | src/host_files.rs:81-86 | the error is that of the first declaration that does not normalize |
| `Preopens.ResolveGuestParent` | src/host_files.rs:400-413 | the parent computation with its EINVAL and ENOTCAPABLE cases refines its specification |
| `Preopens.ParentIsDotDot` | src/host_files.rs:400-413 | with a component left after the chosen preopen, the parent resolves and equals resolving path/.. |
| `Preopens.ParentOfPreopen` | src/host_files.rs:400-413 | for the preopen itself: EINVAL without a component, otherwise granted exactly when the components above extend some preopen's host components |
| `Preopens.ParentStaysInside` | src/host_files.rs:404-409 | a granted parent lies in some preopen's host directory |
| `LockName.WindowsLockName` | src/host_files.rs:597-613 | the hash loop renders the name of the specification |
| `LockName.HashRecurrence` | src/host_files.rs:603-607 | FNV-1a with its constants: each unit is xored in and then the prime multiplied, modulo 2^64 |
| `LockName.XorBits` | src/host_files.rs:605 | exclusive or on each bit |
| `LockName.NameText` | src/host_files.rs:608-612 | the prefix, the hash in 16 lower-case hexadecimal digits, the terminator |
| `LockName.MultiplierInjective` | src/host_files.rs:606 | multiplication by the prime is injective modulo 2^64 |
| `LockName.HashSeparates` | src/host_files.rs:605-606 | paths of one length that agree except perhaps in one unit hash alike only if equal |
| `LockName.NameShowsHash` | src/host_files.rs:608-611 | two names agree exactly when the hashes agree: the 16-digit rendering is injective |
| `LockName.NearMissesGetDifferentNames` | src/host_files.rs:597-613 | upper-cased paths of one length differing in exactly one code unit get different names |
| `FileTable.HostFiles.constructor` | src/host_files.rs:90-100 | the table starts empty at descriptor 20,000 |
| `FileTable.HostFiles.Open` | src/host_files.rs:138-144 | the new descriptor is the counter, its file and lock path are recorded and nothing else changes, the counter saturates, and only the last number can already be in use |
| `FileTable.HostFiles.Close` | src/host_files.rs:147-156 | an open descriptor is removed from both tables and every other keeps its file and lock path; any other answers EBADF; held locks stay |
| `FileTable.HostFiles.LockExclusive` | src/host_files.rs:318-366 | EBADF exactly for descriptors that are not open; 0 at once exactly if the path of the descriptor is held; otherwise the kernel's answer decides the reply, the handle closed and the lock recorded; 0 means the path is held |
| `FileTable.TablesReflectHistory` | src/host_files.rs:138-156 | after every history both tables hold what the last open handed that number recorded, unless closed since, and the lock table every grant |
| `FileTable.RunKeepsInv` | src/host_files.rs:138-156 | in every reachable table the open-file and lock-path tables have equal key sets, so the second EBADF branch is unreachable |
| `FileTable.IssuedCountsUp` | src/host_files.rs:139-140 | the k-th open of a run gets 20,000 + k, capped at i32::MAX |
| `FileTable.NumbersDistinctUntilSaturation` | src/host_files.rs:139-140 | two opens share a number exactly when both come at or after the 2,147,463,648th |
| `FileTable.ClosedStaysClosed` | src/host_files.rs:138-156 | within the first 2,147,463,648 opens a closed descriptor stays unknown for the rest of the run |
| `FileLocks.StepSafe` | src/host_files.rs:318-366 | every step of any process keeps: open handles are exactly those referred to, and one owner per kernel object |
| `FileLocks.RunSafe` | src/host_files.rs:318-366 | the same over every run |
| `FileLocks.ProcessReflectsHistory` | src/host_files.rs:138-156 | over every run a descriptor of a process stands for the path of the open that was handed it, unless closed since |
| `FileLocks.LockCallExactly` | src/host_files.rs:318-351 | over every run: EBADF for a descriptor that is not open, 0 at once if the process holds the path it was opened on, else the kernel's error, or a call marked refused exactly if the object is in use |
| `FileLocks.ReturnExactly` | src/host_files.rs:352-364 | a refused call answers EAGAIN, closes its handle and holds nothing more; any other answers 0 and holds its path |
| `FileLocks.ZeroMeansHeld` | src/host_files.rs:318-366 | over every run a lock call answered 0 leaves its process holding the path its descriptor was opened on |
| `FileLocks.MutualExclusion` | src/host_files.rs:318-366 | in every interleaving, two holders of one name in one session are one process holding one path, so hash collisions never grant twice |
| `FileLocks.OtherSessionHoldsToo` | src/host_files.rs:608-611 | the session matters: a run in which processes of two sessions hold one path |
| `FileLocks.SameFileExclusion` | src/host_files.rs:597-613 | paths that agree after upper-casing are never held by two processes of one session |
| `FileLocks.HeldNameRefuses` | src/host_files.rs:352-356 | while a name is held every other attempt on it in the session is refused with EAGAIN |
| `FileLocks.ReplyIsSettled` | src/host_files.rs:340-365 | what a lock call returns is settled at creation, whatever other processes do before it returns |
| `FileLocks.RefusedIffInUse` | src/host_files.rs:340-364 | a lock call is refused with EAGAIN exactly if some process of the session holds the name, is about to be granted it, or is itself being refused on it; otherwise it is granted |
| `FileLocks.RefusedThoughNobodyHolds` | src/host_files.rs:352-356 | a run in which a lock no process holds is refused, because another caller is being refused |
| `FileLocks.LockOutlivesDescriptors` | src/host_files.rs:147-156 | a held lock survives every run in which its owner does not exit, so also closing every descriptor |
| `FileLocks.NoProcessesNoHandles` | src/host_files.rs:61-68 | when no process is left, no handle is open |
| `SocketTable.HostSockets.constructor` | src/host_sockets.rs:72-80 | the table starts empty at descriptor 10,000 |
| `SocketTable.HostSockets.Insert` | src/host_sockets.rs:83-96 | the socket is stored under the old counter, which then advances or saturates |
| `SocketTable.LookupReflectsHistory` | src/host_sockets.rs:83-108 | after every history of inserts, removals and flag changes, `get` answers the socket of the last insert that was handed the number, with the flags last set since, or EBADF if none or removed since |
| `SocketTable.HostSockets.Remove` | src/host_sockets.rs:105-108 | the stored socket leaves the table, or EBADF and no change |
| `SocketTable.HostSockets.SetStatusFlags` | src/host_sockets.rs:146-151 | only the flags of that entry change, or EBADF |
| `SocketTable.HostSockets.Drop` | src/host_sockets.rs:155-163 | the table is emptied and each entry's raw socket is closed once per entry |
| `SocketOwnership.OwnershipConserved` | src/host_sockets.rs:183-320 | over every run each raw socket is in one call, in one table entry, closed exactly once, or lost, and never in two of these |
| `SocketOwnership.StepConserves` | src/host_sockets.rs:271-320 | every step keeps that conservation |
| `SocketOwnership.EndedCallSettlesSocket` | src/host_sockets_windows.rs:118-169 | how a call ends settles its socket for the rest of every run: an inserted one belongs to its number until that is removed or the table dropped, a panic loses it, every other ending has closed it exactly once |
| `SocketOwnership.CloseReleasesSocket` | src/host_sockets.rs:659-677 | `close` on an open number frees the number at once, keeps all others, and has closed its socket exactly once when it gets to the host's close |
| `SocketOwnership.CountsFollowEvents` | src/host_sockets.rs:155-163 | every socket the host hands out is accounted for, and the table is gone exactly after its drop |
| `SocketOwnership.LostIffSomeStepLoses` | src/host_sockets.rs:297 | sockets are lost exactly by the Unix panic on an oversized address or an insert over a live entry |
| `SocketOwnership.EverySocketClosedOnce` | src/host_sockets.rs:155-163 | with at most 2^31 - 10,000 inserts and fitting lengths nothing is lost, and after the drop every socket was closed exactly once |
| `SocketOwnership.OversizedAddressLosesSocket` | src/host_sockets.rs:296-302 | a 17-byte address in a 16-byte buffer loses the socket on Unix and not on Windows |
| `SocketOwnership.RunNumbered` | src/host_sockets.rs:85-86 | in every run the counter and the numbers in use follow the count of inserts |
| `Descriptors.NumbersDisjoint` | src/host_files.rs:24 | file and socket numbers stay disjoint while at most 10,000 sockets were inserted |
| `Descriptors.NextSocketWouldCollide` | src/host_sockets.rs:21 | the bound is tight: the next socket gets the first file's number |
| `Poll.CheckedRange` | src/host_sockets.rs:812-828 | exactly which ranges are accepted, and which errno each other one gets |
| `Poll.ReadGuest` | src/host_sockets.rs:990-1014 | exactly the bytes of the range, or its errno |
| `Poll.WriteGuest` | src/host_sockets.rs:1016-1050 | exactly the range is replaced, or nothing changes |
| `Poll.DecodeUndoesEncode` | src/host_sockets.rs:714-716 | an entry is decoded to the descriptor and events it was laid out from, wherever it stands |
| `Poll.DecodeByteByByte` | src/host_sockets.rs:714-716 | the descriptor is the signed little-endian value of bytes 0 to 3, the events that of bytes 4 and 5 |
| `Poll.Prepare` | src/host_sockets.rs:705-730 | EINVAL, EFAULT and EBADF exactly as listed, otherwise one host entry per guest entry, for the socket its own look-up finds |
| `Poll.WriteBack` | src/host_sockets.rs:735-743 | the addressable entries are written back in order, other threads acting in between; EFAULT exactly when an address sum leaves the i32 range |
| `Poll.WritesOnlyRevents` | src/host_sockets.rs:735-743 | the write-backs put the reports into bytes 6 and 7 of each entry and touch no other byte, whatever other threads do elsewhere |
| `Poll.AloneWritesExactly` | src/host_sockets.rs:735-743 | without other threads, memory afterwards differs in exactly those bytes |
| `Poll.PollCall` | src/host_sockets.rs:699-751 | on success exactly bytes 6 and 7 of each entry are written, on Unix with that entry's own revents, relative to whatever memory held when the host call returned and whatever other threads do; on Unix each entry is asked as it is; errors change nothing |
| `Poll.UnixReadsRevents` | src/host_sockets.rs:735-739 | on Unix the guest reads in every entry that entry's own revents |
| `Poll.SmallMemoryNeverFails` | src/host_sockets.rs:735-743 | once the array lies in memory no write-back fails and no address sum overflows, exactly for memories of up to 2^31 + 1 bytes |
| `Poll.WriteBackCompleteIff` | src/host_sockets.rs:738 | every entry of an array is written back exactly when the array ends at 2^31 + 1 or before |
| `Poll.ShippedGuestNeverFails` | scripts/probe-mysql-wasi-port.sh:175 | in the guest as linked, no write-back fails |
| `Poll.IgnoredReadsBackZero` | src/host_sockets_windows.rs:546-559 | an entry with a negative descriptor reads back zero at its own index, unless another thread writes there |
| `PollEvents.RoundTrip` | src/host_sockets_windows.rs:744-779 | guest to Windows and back keeps exactly the IN, PRI and OUT bits |
| `PollEvents.Distributes` | src/host_sockets_windows.rs:744-779 | both maps distribute over union |
| `PollEvents.EachBit` | src/host_sockets_windows.rs:744-779 | both maps bit by bit, for IN, PRI, OUT, ERR, HUP and NVAL |
| `PollWindows.BitsOfValue` | src/host_sockets_windows.rs:744-779 | a 16-bit field holds exactly the bits of its mask |
| `PollWindows.AskedEvents` | src/host_sockets_windows.rs:530-542 | the host is asked for exactly the host masks of the entry's IN, PRI and OUT bits |
| `PollWindows.GuestReadsEvents` | src/host_sockets_windows.rs:546-559 | end to end, the guest reads in each entry exactly the guest names of the host's events for it, and zero in an ignored one |
| `PollWindows.GuestReadsEachBit` | src/host_sockets_windows.rs:546-559 | end to end, each guest bit is read exactly when the host reported a bit of its mask |
| `PollWindows.GuestReadsOnlyWhatItAsked` | src/host_sockets_windows.rs:530-559 | there and back: from a host that reports only what it was asked, besides errors, the guest reads IN, PRI and OUT only where it asked, and all of it if all of it is reported |
| `Timeouts.ConversionExactIff` | src/host_sockets_windows.rs:718-723 | the saturating computation is the exact total rounded up and clamped, for exactly the stated inputs |
| `Timeouts.ConversionCanFallShort` | src/host_sockets_windows.rs:720-723 | an input on which it is one millisecond short |
| `Timeouts.PositiveStaysPositive` | src/host_sockets_windows.rs:714-725 | a positive normalized timeout never becomes zero |
| `Timeouts.GuestTimeoutBytes` | src/host_sockets_windows.rs:714-725 | on bytes: every `timeval` becomes the four bytes of its exact total rounded up and clamped, for exactly the stated inputs; positive stays positive; shorter values pass unchanged |
| `Timeouts.WindowsTimeoutBytes` | src/host_sockets_windows.rs:727-736 | on bytes: milliseconds become whole seconds and microseconds below one million; shorter requests pass unchanged |
| `Timeouts.MillisRoundTrip` | src/host_sockets_windows.rs:714-736 | Windows to guest to Windows is the identity on every 4-byte millisecond value |
| `StatusFlags.FlagsDoNotChangeKind` | src/host_sockets.rs:839-855 | 1 and 6 mean a stream, 2 and 5 a datagram, nothing else is supported; flag bits never change that; each flag is read from either encoding |
| `StatusFlags.CacheAgreesAlways` | src/host_sockets_windows.rs:477-503 | in every sequential run the cached flag is the kernel's mode of every open socket |
| `StatusFlags.GetFlShowsMode` | src/host_sockets_windows.rs:485-486 | F_GETFL answers 4 for a non-blocking socket and 0 for a blocking one |
| `StatusFlags.WindowsReflectsCalls` | src/host_sockets_windows.rs:60-78 | after every sequential run F_GETFL answers what the calls say: the mode asked for, inherited, or last set; EBADF for a number that is not open |
| `StatusFlags.LinuxReflectsCalls` | src/host_sockets.rs:909-937 | the same on Linux, where accepted sockets start blocking |
| `FlagOverlap.LastHalvesDecide` | src/host_sockets_windows.rs:487-498 | in every interleaving the kernel's mode is the bit of the last kernel half on that number and the cached flag that of the last cache half; they agree exactly when these are the same |
| `FlagOverlap.OrderlySocketAgrees` | src/host_sockets_windows.rs:487-498 | F_SETFL calls that do not overlap on one socket leave cache and kernel in agreement, whatever happens on other sockets |
| `FlagOverlap.AcceptedAgreesIff` | src/host_sockets_windows.rs:122-166 | an accepted socket gets the flag cached for the listener at look-up and the mode the listener has when the kernel accepts; it agrees exactly when these are the same |
| `FlagOverlap.MadeSocketAgrees` | src/host_sockets_windows.rs:60-78 | a socket made by `socket` is open in the mode asked for, with the matching flag |
| `FlagOverlap.CacheHalfFollows` | src/host_sockets_windows.rs:487-498 | an F_SETFL that has set the mode can always go on to its cache half |
| `FlagOverlap.ClosedNumberIsFree` | src/host_sockets_windows.rs:465-475 | a closed number is free and every other keeps its socket, flags and mode |
| `FlagOverlap.ApartRunsAgree` | src/host_sockets_windows.rs:122-166 | over every interleaving from the empty table in which no step touches a socket another call is in the middle of, every open socket agrees, accepted ones included |
| `FlagOverlap.CrossedSetFlDisagrees` | src/host_sockets_windows.rs:487-498 | two F_SETFL calls whose halves cross leave the two in disagreement, from every state |
| `FlagOverlap.AcceptAcrossSetFlDisagrees` | src/host_sockets_windows.rs:122-166 | so does an accept with an F_SETFL on its listener in the middle |
| `StatusFlags.WithMode` | src/host_sockets.rs:928-932 | the new flags differ in the non-blocking bit at most, which has the requested value |
| `StatusFlags.SetFlKeepsOtherFlags` | src/host_sockets.rs:923-934 | F_SETFL keeps every other host flag, and all flags of other sockets |
| `StatusFlags.WindowsRefinesAlways` | src/host_sockets_windows.rs:60-78 | the Windows bridge refines one abstract bit per socket over every sequential run |
| `StatusFlags.LinuxRefinesAlways` | src/host_sockets.rs:909-937 | so does the Linux bridge |
| `StatusFlags.BridgesAgree` | src/host_sockets_windows.rs:485-486 | both report the same F_GETFL value for every open socket made by `socket` |
| `Shutdown.FlagIffRecorded` | src/main.rs:221-237 | the flag is set exactly when some SIGINT action, SIGTERM or SQL SHUTDOWN recorded a request, and never goes back |
| `Shutdown.ForcedExitIffLateCheck` | src/main.rs:241-257 | a run ends in a forced exit exactly when a SIGINT makes its check after a request was recorded |
| `Shutdown.LoneSigintIsGraceful` | src/main.rs:244-254 | a single SIGINT with no other request never forces an exit |
| `Shutdown.ArrivalBeforeRequestCanStillExit` | src/main.rs:244-256 | arriving before another request is not enough: the check decides |
| `Shutdown.HandlerReflectsHistory` | src/main.rs:241-257 | a SIGINT that has arrived may check, one that has checked may record its request, and nothing else ends its handler |
| `Shutdown.PlaceReflectsHistory` | patches/mysql-wasi/0002-wasi-graceful-shutdown.patch:17-28 | where the main thread is follows from the events: loop head, poll, accept, hand-over, or past the loop |
| `Shutdown.ClosingIffAsked` | patches/mysql-wasi/0002-wasi-graceful-shutdown.patch:20-28 | `close_connections` is reached exactly if a loop-head test came after an abort or a recorded request |
| `Shutdown.AcceptedIsHandedOver` | patches/mysql-wasi/0002-wasi-graceful-shutdown.patch:24-25 | a connection is handed over exactly if it was accepted after a positive poll and no abort came before |
| `Shutdown.AtMostOneConnectionAfterRequest` | patches/mysql-wasi/0002-wasi-graceful-shutdown.patch:17-28 | after any recorded request at most one more connection is handed over, counted in events |
| `Shutdown.ListenerClosesWithinFiveSteps` | patches/mysql-wasi/0002-wasi-graceful-shutdown.patch:64-101 | within five listener steps after the request the loop has ended and `close_connections` is entered |
| `Shutdown.ListenerCanGoOn` | patches/mysql-wasi/0002-wasi-graceful-shutdown.patch:17-28 | until then the main thread always has a step to make |
| `ThreadIds.RunNumbered` | src/main.rs:365-384 | in every interleaving the k-th increment sees 1 + k as a wrapped i32, and each finished call returned that id exactly if it is positive and the host spawn succeeded, and the negated EAGAIN otherwise |
| `ThreadIds.EveryCallIsAnswered` | src/main.rs:365-384 | every call that made an increment can return, and has then returned its id exactly if positive and spawned, and -6 otherwise, for good |
| `ThreadIds.IdsDistinctWithinPeriod` | src/main.rs:365-384 | among 2^32 consecutive increments successful ids are positive, distinct, and distinct from burnt ones |
| `ThreadIds.IdsRepeatAfterPeriod` | src/main.rs:366 | the period is exactly 2^32 |
| `TempNames.WriteDigits` | patches/mysql-wasi/files/include/mysql_wasi_libc_shim.h:435-439 | the inner loop writes the six base-36 digits of the attempt and nothing else |
| `TempNames.CandidateText` | patches/mysql-wasi/files/include/mysql_wasi_libc_shim.h:427-439 | the shim's alphabet, digit by digit: only the last six bytes of the template change, the last one fastest |
| `TempNames.Mkstemp` | patches/mysql-wasi/files/include/mysql_wasi_libc_shim.h:426-448 | EINVAL and no change without the template; otherwise the first candidate not found existing decides, only the last six bytes change, EEXIST only after all 46,656 |
| `TempNames.SearchMeans` | patches/mysql-wasi/files/include/mysql_wasi_libc_shim.h:433-447 | after any answers, all earlier candidates were found existing; the first other answer, or the last candidate, decides |
| `TempNames.CandidatesDiffer` | patches/mysql-wasi/files/include/mysql_wasi_libc_shim.h:434-439 | different attempts try different names |
| `TempNames.EachAnswerWasTried` | patches/mysql-wasi/files/include/mysql_wasi_libc_shim.h:433-443 | every answer a caller acts on came from its own create of the candidate of that attempt |
| `TempNames.WinnerCreated` | patches/mysql-wasi/files/include/mysql_wasi_libc_shim.h:441-442 | a caller that returns a descriptor created that file itself, where there was none |
| `TempNames.TwoWinnersNeedRemoval` | patches/mysql-wasi/files/include/mysql_wasi_libc_shim.h:426-448 | in every interleaving of callers over a shared directory, two that return a descriptor for one name had that file removed between their creates |
| `TempNames.ExhaustedFoundAll` | patches/mysql-wasi/files/include/mysql_wasi_libc_shim.h:443-447 | a caller that reports EEXIST found each of its 46,656 candidates present at its own try |
| `TempNames.DirectoryReflectsHistory` | patches/mysql-wasi/files/include/mysql_wasi_libc_shim.h:441 | a name is in the directory exactly if something made it and nothing removed it since |
| `TempNames.CallerReflectsHistory` | patches/mysql-wasi/files/include/mysql_wasi_libc_shim.h:433-447 | a caller works with the template it started with, has one answer per create, and can go on while its search does |
| `FileSize.ReturnsLengthAtEnd` | patches/mysql-wasi/0001-add-wasi-port-probe-cmake-bypasses.patch:1294-1304 | in every interleaving a size query returns the length at its own SEEK_END step |
| `FileSize.StagesFollowSteps` | patches/mysql-wasi/0001-add-wasi-port-probe-cmake-bypasses.patch:1296-1303 | a query makes its three seeks in order, once each |
| `FileSize.FinishedQueryReturns` | patches/mysql-wasi/0001-add-wasi-port-probe-cmake-bypasses.patch:1296-1303 | a finished query returns the length the file was last given before its own SEEK_END step |
| `FileSize.CursorFollowsOrigin` | patches/mysql-wasi/0001-add-wasi-port-probe-cmake-bypasses.patch:1296-1302 | in every interleaving the cursor is where the order of the steps says: before the run, or at the length of the file at a certain SEEK_END step |
| `FileSize.CursorRestoredIff` | patches/mysql-wasi/0001-add-wasi-port-probe-cmake-bypasses.patch:1296-1302 | the cursor ends where it began exactly when that order leads home, or to a SEEK_END at which the file ended just there |
| `FileSize.LastToGoBackDecides` | patches/mysql-wasi/0001-add-wasi-port-probe-cmake-bypasses.patch:1301-1302 | the query that goes back last takes the cursor to where it was when that query started, so the cursor is home exactly if it was then |
| `FileSize.OrderRestoresIff` | patches/mysql-wasi/0001-add-wasi-port-probe-cmake-bypasses.patch:1296-1302 | an order of steps restores every starting position exactly when it leads home |
| `FileSize.CursorRestored` | patches/mysql-wasi/0001-add-wasi-port-probe-cmake-bypasses.patch:1296-1302 | in particular when no query starts between the second and third seek of another |
| `FileSize.OverlapCanMoveCursor` | patches/mysql-wasi/0001-add-wasi-port-probe-cmake-bypasses.patch:1296-1302 | a run that leaves the cursor at the end of the file: the query that goes back last started in the middle of another |
| `FileSize.NestedOverlapIsHarmless` | patches/mysql-wasi/0001-add-wasi-port-probe-cmake-bypasses.patch:1296-1302 | a run in which a query starts in the middle of another and the cursor is still restored |
| `FileSize.OpenFile.Seek` | src/host_files.rs:218-238 | the new position, or EBADF, EINVAL or the host's error with the cursor unmoved |
| `FileSize.OpenFile.GuestSeek` | patches/mysql-wasi/0001-add-wasi-port-probe-cmake-bypasses.patch:1109-1117 | the new position, or minus one and no move |
| `FileSize.OpenFile.GetSize` | patches/mysql-wasi/0001-add-wasi-port-probe-cmake-bypasses.patch:1294-1304 | alone: the length, or minus one exactly when the second seek fails; the cursor is back unless the second seek took effect and the first or third failed, and then it is at the end |
| `WireFormat.LenEncRoundTrip` | scripts/bench-tcp.py:142-156 | every 64-bit length is read back from anywhere in a payload, with the position after it |
| `WireFormat.LenEncByteByByte` | scripts/bench-tcp.py:142-156 | every first byte, truncated payloads included |
| `WireFormat.CellRoundTrip` | scripts/bench-tcp.py:58-63 | a NULL or text value is read back with the position after it |
| `WireFormat.CutOffOrUndecodable` | scripts/bench-tcp.py:58-63 | a value longer than its payload is cut off there; bytes that do not decode raise |
| `WireFormat.RowRoundTrip` | scripts/bench-tcp.py:55-64 | a row is read back from its encoding |
| `WireFormat.RowIsNotEof` | scripts/bench-tcp.py:53 | a row packet is never taken for the EOF packet |
| `WireFormat.LongFePacketIsRow` | scripts/bench-tcp.py:53 | a packet that begins with 0xfe but has nine bytes or more is a row |
| `WireFormat.PacketRoundTrip` | scripts/bench-tcp.py:116-119 | a packet's payload is read back and the rest of the stream is left |
| `WireFormat.PacketHeader` | scripts/bench-tcp.py:121-123 | the header byte by byte |
| `WireFormat.PacketOrClosed` | scripts/bench-tcp.py:116-134 | a stream yields a packet exactly if it holds as many bytes as the header says, else "connection closed" |
| `WireFormat.ResultSetRoundTrip` | scripts/bench-tcp.py:36-64 | every well-formed text result set decodes to exactly its rows and exactly its bytes are consumed |
| `WireFormat.OkResponse` | scripts/bench-tcp.py:39-41 | an OK packet means no rows |
| `WireFormat.ErrResponse` | scripts/bench-tcp.py:42-43 | an ERR packet raises its code and message |
| `WireFormat.MalformedResponses` | scripts/bench-tcp.py:38-45 | an empty packet, an ERR packet without a code and a NULL column count each raise their own error |
| `WireErrors.CutOff` | scripts/bench-tcp.py:36-64 | for every response that would have been read, a prefix of its stream gives the same rows if it reaches the end of the response and "connection closed" otherwise |
| `WireErrors.CutOffAnywhere` | scripts/bench-tcp.py:36-64 | a connection lost anywhere in a response raises "connection closed": no partial result set is ever returned |
| `WireErrors.BadRowRaises` | scripts/bench-tcp.py:51-64 | after any number of good rows, a row that does not decode or has too few values raises, whatever follows |
| `WireClient.Client.Recv` | scripts/bench-tcp.py:129 | any non-empty prefix of the stream up to the requested size |
| `WireClient.Client.ReadExact` | scripts/bench-tcp.py:125-134 | for every chunking exactly the next n bytes, or "connection closed" |
| `WireClient.Client.ReadPacket` | scripts/bench-tcp.py:116-119 | for every chunking the next packet of the stream |
| `WireClient.Client.WritePacket` | scripts/bench-tcp.py:121-123 | the packet is appended to the output with its length cut to three bytes |
| `WireClient.Client.Query` | scripts/bench-tcp.py:36-64 | for every stream and every chunking the outcome is that of the response decoder: exactly the rows of every well-formed result set, no rows for OK, the code and message of ERR, each with exactly its bytes consumed, and "connection closed" for every cut-off response |
| `WireClient.WrittenPacketReadsBackIff` | scripts/bench-tcp.py:121-123 | a written packet reads back exactly when its payload is shorter than 2^24 bytes |

## Left out

- Wasmtime set-up, WASI contexts, command-line parsing, build and install scripts: plumbing over libraries that are not part of this model.
- The errno translation tables and socket option tables: flat lookups; kernel errors are arbitrary codes here.
- `open` flag translation, `truncate`, `sync` and directory sync: one host call each, with no state of the bridge.
- Symbolic links, drive prefixes and back-slashes inside a component: host paths are lexical.
- The upper-casing and UTF-16 encoding of a path: a lock path carries its upper-cased units.
- UTF-8 decoding of values in the client: which byte strings decode is a parameter, and rows hold bytes.
- Result sets with payloads of 2^24 - 1 bytes or more, which the protocol splits over packets: the client does not reassemble them.
- The client's handshake: a fixed exchange over the same packet layer.
- POSIX record locks on Unix: one kernel call, whose guarantees are the kernel's.
- A thread using a raw socket while another closes it: the code holds no lock across the call, so there is nothing to keep.
- The admin-connection loop: it polls only `connection_events_loop_aborted`, not the shutdown flag.
- The count returned by `poll` on Windows: ignored entries are passed on as invalid sockets.
- Weak memory ordering of the shutdown flag: atomics are sequentially consistent here.
- Guest memory changing under a single read or write of the bridge: each copies its range in one step.
- Failing seeks inside interleaved size queries: the interleaved runs have no host errors; `FileSize.OpenFile` has them for one thread.
- `getaddrinfo`, `getnameinfo`, `ppoll`, and the signal, uid, msync and `qsort_r` stubs of the libc shim: wrappers or constants.
