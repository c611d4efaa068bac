# A verified model of the runtime's guest-facing state machines

This project models the parts of the runtime in which bytes, descriptors, handles and time change
step by step, and proves what guests and embedders rely on across those steps. Code that changes
state is modelled by methods and classes; each of them is proved against a specification function
or predicate, and the properties are lemmas about these.

| module | what it models |
|---|---|
| `ReadDir`, `Paging` | `fd_readdir`, which packs directory records into a bounded guest buffer, and the guest that pages through a directory with it, through a reference decoder of the `dirent` layout of WASI snapshot preview 1 |
| `Tables`, `Descriptors`, `StartUp` | the descriptor table with its wrapping key counter, the guest calls that use it, and the layout a module starts with |
| `ByteSource`, `Sessions`, `HttpBody`, `HttpHandles`, `Cursors` | the pull readers, each a refinement of one abstract source of bytes and errors, and runs of them behind handles |
| `MultiAddr`, `MultiAddrText` | the scanner and the printer of multi-addresses |
| `Sched`, `PollOneoff` | `poll_oneoff` through the Unix scheduler |
| `CgiDb`, `CgiIndex` | the table of CGI extensions, and how it is reconciled with a directory |
| `Mcall` | calls between modules, which move bytes between two linear memories |
| `HandleMap` | the handle map, as a state machine over the atomic steps of its threads |
| `StringArray`, `EnvVars` | how arguments and environment are laid out in guest memory, and merged |

The host is a parameter: a directory is a list of entries and failures, a body stream a list of
chunks and errors, a callee module three functions on its state. The host's clock is monotone, and
its `poll` may answer anything, save that it reports a time-out only when the time is up, reports
readiness only of descriptors it was given, and is interrupted finitely often. No time passes between the scheduler's
look at the clock and its question to the host.

Some properties one might expect do not hold of the code. For each the model has the exact
condition, or the input that shows it:

- A directory item that cannot be listed makes every call that reaches it fail as a whole, so that
  a guest misses the entries in front of it that would have been on the same page, too
  (`Paging.ListingShowsDirectory`).
- Two listeners may get the same descriptor, because a requested number does not move the counter
  behind it. No listener is lost exactly when the requested numbers differ and lie above all the
  numbers the other listeners use up (`StartUp.ListenersSurviveIff`, with an example in
  `StartUp.ListenerLost`).
- The permission check goes by the path of an entry, and a directory that a guest opened has none:
  what is opened through it is not checked, nor are reads and writes of that. A forbidden open
  succeeds exactly when its directory has no path, the host opens it and there is a free descriptor
  (`Descriptors.ForbiddenOpenIff`, with an example in `Descriptors.ForbiddenFileIsRead`). The
  directories keep their paths over a run exactly when no call adds a directory
  (`Descriptors.PathsStayIff`); so long, the check decides (`Descriptors.ChecksDecide`).
- A failed query of the extension table counts as an empty table, and a row that cannot be read as
  an absent one. A run works on the rows it recalled and leaves the others as they are. So a new
  row may double one of these: the files stay unique exactly when no program that was newly stored
  has a row that was not recalled, and a run that ends well does what is promised of it exactly when
  all rows were recalled. Everything is recalled exactly when the query succeeds, each row can be
  read and no file has two rows; after a failed query the promise holds for an empty table only. A
  program that has two rows, one of which is read, and is still there makes the run fail
  (`CgiIndex.DirectoryListExtensions`, with an example in `CgiIndex.DoubleAfterLostRow`).
- A program whose file was renamed and which kept its alias is stored before the row of its old file
  is deleted, so that every such run fails on the alias (`CgiIndex.RenamedFileDoesNotFit`; the exact
  condition for success is in `CgiIndex.DirectoryListExtensions`).
- When the host reports any descriptor as ready, every read and write subscription gets an event
  (`PollOneoff.WhoGetsAnEvent`). A time-out panics exactly when the guest asked for no clock, which
  is after no less than 2^31 - 1 milliseconds (`PollOneoff.DoPollOneoff`).
- Arguments with a zero byte are laid out as they are, so that the guest reads them cut off
  (`StringArray.GuestReadsStringsIff`, with an example in `StringArray.ZeroByteCutsOff`).
- Repeated keys of an environment file survive the merge, an explicit variable replacing only the
  first of them (`EnvVars.StrictlySortedIff`, with an example in `EnvVars.RepeatedKeySurvives`).
- A call between modules leaves both buffers of the callee allocated when, with both granted, a
  range does not lie in its memory (`Mcall.BalancedIff`, with an example in
  `Mcall.BuffersLeftBehind`).
- A read of a CGI process handle as if it were a directory listing drops the handle
  (`Cursors.CgiDriver.ListRead`).
- Handles wrap around: the handle map's are distinct and not zero exactly up to 2^32 - 1 of them
  (`HandleMap.HandlesAreFreshIff`, with a run that replaces an instance in
  `HandleMap.FirstInstanceIsReplaced`), and the HTTP and CGI drivers' are new up to 2^32 of them
  (`HttpHandles.HttpDriver.Register`, `Cursors.CgiDriver.IncreaseHandle`).

## Model

| member | source | states |
|---|---|---|
| `Common.LittleEndianRoundTrip` | crates/wasi-common/src/snapshots/preview_1.rs:1511-1537 | A number that fits its width is read back from its little-endian bytes |
| `Common.FourBytes` | crates/wasi-common/src/snapshots/preview_1.rs:1511-1537 | The first four bytes weigh 1, 256, 256^2 and 256^3, and give the number modulo 2^32 |
| `Common.EightBytes` | crates/wasi-common/src/snapshots/preview_1.rs:1511-1537 | Eight bytes, the last of which weighs most, give a 64-bit number |
| `ReadDir.Entities` | crates/wasi-common/src/sync/dir.rs:165-225 | The listing has two synthetic entries more than the directory, and the cookie of each entity is its position plus one |
| `ReadDir.DotsAre` | crates/wasi-common/src/sync/dir.rs:165-179 | The first two entities are `.` and `..`, directories with the inode of the listed one |
| `ReadDir.ItemsAre` | crates/wasi-common/src/sync/dir.rs:180-225 | Entity `i + 2` is item `i` of the directory, with its own inode, type and name, or its own error |
| `ReadDir.CopyRecord` | crates/wasi-common/src/snapshots/preview_1.rs:675-708 | One round of the loop writes a prefix of the record, never past the buffer: all of it, or as much as fills the buffer, or up to a bad pointer |
| `ReadDir.FillBuffer` | crates/wasi-common/src/snapshots/preview_1.rs:667-711 | The loop writes exactly the first `buf_len` bytes of the concatenated records and returns how many, or reports the first entity that cannot be encoded; memory outside the buffer is unchanged |
| `ReadDir.FdReaddir` | crates/wasi-common/src/snapshots/preview_1.rs:659-711 | The same for the entities from the cookie on, of any directory and any cookie |
| `Paging.DecodeRecord` | crates/wasi-common/src/snapshots/preview_1.rs:1499-1537 | A whole record decodes to its entity, and what follows it decodes as if it stood alone |
| `Paging.DecodeCut` | crates/wasi-common/src/snapshots/preview_1.rs:681-708 | Decoding any prefix of a run of records shows exactly the entities whose records are whole, in order |
| `Paging.DecodePage` | crates/wasi-common/src/snapshots/preview_1.rs:667-711 | One page shows exactly the entities whose records fit into the buffer together |
| `Paging.HostIsFaithful` | crates/wasi-common/src/snapshots/preview_1.rs:659-711 | A reply shows a stretch of the directory that starts at the cookie; a reply that does not fill the buffer shows all that is left |
| `Paging.HostMakesProgress` | crates/wasi-common/src/snapshots/preview_1.rs:681-705 | A full reply shows nothing exactly when the next record does not fit, or the buffer is empty at the end; an error is that of the first entity that cannot be encoded, and the records between the cookie and it fit into the buffer |
| `Paging.NothingBehindTheEnd` | crates/wasi-common/src/snapshots/preview_1.rs:667-680 | A cookie at or behind the end of the directory gets an empty reply |
| `Paging.ServedIsReply` | crates/wasi-common/src/snapshots/preview_1.rs:659-711 | What a guest decodes from its buffer after a call is the reply that the listings are made of, and the buffer is full exactly when the call reports its whole length |
| `Paging.WalkShowsVisible` | crates/wasi-common/src/snapshots/preview_1.rs:659-711 | A guest that resumes from the last complete record's cookie sees each entry once, in order, without gaps |
| `Paging.WalkEnds` | crates/wasi-common/src/snapshots/preview_1.rs:659-711 | A listing that does not complete ended at a reply that refused or brought the guest no further |
| `Paging.ListThroughMemory` | crates/wasi-common/src/snapshots/preview_1.rs:659-711 | The loop of a guest that calls `fd_readdir` on its own memory, decodes its buffer and resumes is the listing that the following lemmas speak of |
| `Paging.ListingIsExact` | crates/wasi-common/src/snapshots/preview_1.rs:659-711 | For every directory and every buffer size in every round: the guest sees a prefix of the directory, each entry once, and takes it for complete only when it saw all entries; otherwise a record did not fit or an entity could not be encoded |
| `Paging.ListingShowsDirectory` | crates/wasi-common/src/sync/dir.rs:148-228 | In terms of the directory: the guest sees `.`, `..` and the items in order, each once, with their own inodes, wire numbers of their types, and names, and takes that for complete only when it saw all; otherwise the next record is larger than the last buffer, or an item cannot be listed and the records in front of it fit that buffer together |
| `Paging.ListingCompletes` | crates/wasi-common/src/sync/dir.rs:148-228 | With buffers that hold each single record, a directory whose items can all be listed is listed completely: entry `i + 2` that the guest sees has cookie `i + 3` and the inode, type and name of item `i` |
| `Paging.ListingShowsOnlySmall` | crates/wasi-common/src/snapshots/preview_1.rs:681-705 | No listing shows an entry whose record is larger than every buffer |
| `Paging.ListingCompletesIff` | crates/wasi-common/src/snapshots/preview_1.rs:659-711 | With one buffer size, a listing completes if and only if the buffer has at least 26 bytes, every item can be listed, and none has a name that is too long for it |
| `Tables.LiveProbes` | crates/wasi-common/src/table.rs:42-47 | Pigeonhole: as many consecutive probes as hit live keys, wrapping around, so many keys are live |
| `Tables.ProbingEndsIff` | crates/wasi-common/src/table.rs:37-50 | Probing from any counter value finds a free key if and only if fewer than 2^32 keys are live |
| `Tables.PushTakesFreeKey` | crates/wasi-common/src/table.rs:35-51 | A push is refused exactly when 2^32 - 1 keys are live, and then changes nothing; otherwise it returns a key that was not live, and every other binding is untouched |
| `Tables.Table.Push` | crates/wasi-common/src/table.rs:35-51 | The retry loop ends within one probe more than there are live keys, also when the counter wraps, at the first free key from the counter on |
| `Tables.Table.constructor` | crates/wasi-common/src/table.rs:22-27 | A new table is empty and hands out keys from 3 on |
| `Tables.Table.InsertAt` | crates/wasi-common/src/table.rs:30-32 | Only the given key is bound; the counter stays |
| `Tables.Table.Delete` | crates/wasi-common/src/table.rs:97-104 | The entry is returned if there was one, and only its key is freed |
| `Tables.Table.Renumber` | crates/wasi-common/src/table.rs:108-113 | The table becomes the one of `AfterRenumber`; a missing source is refused without a change |
| `Tables.RenumberMoves` | crates/wasi-common/src/table.rs:108-113 | A missing source is refused without a change; renumbering a key to itself is the identity; otherwise the source is gone, the target holds its entry, and the rest is untouched; the counter stays |
| `Tables.InsertThenDelete` | crates/wasi-common/src/table.rs:30-32 | Binding or deleting a key leaves the other keys and the counter as they are, and deleting undoes binding a new key |
| `Descriptors.DoPathOpen` | crates/wasi-common/src/snapshots/preview_1.rs:809-870 | `path_open` makes the step the state machine prescribes: its checks in their order, and the entry it adds |
| `Descriptors.DoSockAccept` | crates/wasi-common/src/snapshots/preview_1.rs:1231-1242 | `sock_accept` makes the step the state machine prescribes |
| `Descriptors.DoFdRenumber` | crates/wasi-common/src/snapshots/preview_1.rs:601-614 | `fd_renumber` makes the step the state machine prescribes |
| `Descriptors.DoFdClose` | crates/wasi-common/src/snapshots/preview_1.rs:156-178 | `fd_close` makes the step the state machine prescribes; it closes files and directories only |
| `Descriptors.StepKeepsRoom` | crates/wasi-common/src/table.rs:39-41 | No call ever makes all 2^32 keys live |
| `Descriptors.StepFrame` | crates/wasi-common/src/snapshots/preview_1.rs:809-870 | A refused call changes nothing, and no call changes a live descriptor that it does not name |
| `Descriptors.StepBinds` | crates/wasi-common/src/snapshots/preview_1.rs:833-868 | A returned descriptor was not live, and holds an entry with the access mode asked for; below a directory with a path nothing is opened against the permission check, and a file opened there stays subject to it |
| `Descriptors.OpenSucceedsIff` | crates/wasi-common/src/snapshots/preview_1.rs:818-868 | An open succeeds if and only if its descriptor is a directory, this has no path or the check consents, the host opens the file, and fewer than 2^32 - 1 descriptors are live; each refusal has the error of what failed first |
| `Descriptors.AcceptSucceedsIff` | crates/wasi-common/src/snapshots/preview_1.rs:1231-1242 | An accept succeeds if and only if its descriptor is a file, the host accepts a connection, and a descriptor is free; each refusal has its error |
| `Descriptors.CloseSucceedsIff` | crates/wasi-common/src/snapshots/preview_1.rs:156-178 | Exactly files and directories can be closed; then only that descriptor is gone, and otherwise nothing changes |
| `Descriptors.RenumberSucceedsIff` | crates/wasi-common/src/snapshots/preview_1.rs:601-614 | Exactly live descriptors can be renumbered; the target then holds the entry, and the source is gone unless it is the target |
| `Descriptors.OpenedName` | crates/wasi-common/src/snapshots/preview_1.rs:833-864 | An opened file has no name below a directory without a path; an absolute argument is its name; otherwise the name is the directory's path and the argument, with one `/` in between unless the path is empty or ends in one |
| `Descriptors.ReadAllowedIff` | crates/wasi-common/src/snapshots/preview_1.rs:338-353 | `fd_read` reaches a file if and only if its mode has the read right and it has no name or the check consents; a refusal by the check comes first |
| `Descriptors.WriteAllowedIff` | crates/wasi-common/src/snapshots/preview_1.rs:487-502 | The same for `fd_write` and the write right |
| `Descriptors.OpenThenClose` | crates/wasi-common/src/snapshots/preview_1.rs:156-178 | Closing the descriptor that `path_open` or `sock_accept` returned restores all entries; the counter alone has moved, behind that descriptor |
| `Descriptors.RenumberBack` | crates/wasi-common/src/snapshots/preview_1.rs:601-614 | Renumbering to a free descriptor and back is the identity |
| `Descriptors.StepOrigin` | crates/wasi-common/src/snapshots/preview_1.rs:844-869 | Every entry after a call was there before it, or the call succeeded and the descriptor it returned, which was not live, holds it |
| `Descriptors.RunOrigin` | crates/wasi-common/src/snapshots/preview_1.rs:844-869 | Over every run, an entry is an initial one, or one of the calls succeeded in adding it, with the access mode that call asked for, under a descriptor that was not live |
| `Descriptors.AccessIsGranted` | crates/wasi-common/src/snapshots/preview_1.rs:338-353 | After any run, an `fd_read` that is let through reads a file readable from the start, or one that a successful call opened with the read right or accepted; and likewise `fd_write` |
| `Descriptors.ModeNeverChanges` | crates/wasi-common/src/snapshots/preview_1.rs:487-502 | When the host gives out each of its files once, a host file has the same access mode at any two points of a run, however often it is renumbered |
| `Descriptors.ForbiddenOpenIff` | crates/wasi-common/src/snapshots/preview_1.rs:833-868 | An open that the permission check forbids succeeds if and only if its directory has no path, the host opens it and fewer than 2^32 - 1 descriptors are live |
| `Descriptors.AddedPathIff` | crates/wasi-common/src/snapshots/preview_1.rs:861-868 | What an open adds has a path if and only if it is a file below a directory with one |
| `Descriptors.ForbiddenFileIsRead` | crates/wasi-common/src/snapshots/preview_1.rs:833-868 | Through a subdirectory that was opened below a preopened directory, a forbidden file is opened and read |
| `Descriptors.PathsStayIff` | crates/wasi-common/src/snapshots/preview_1.rs:861-868 | From a table whose directories have paths, they have them throughout a run if and only if no call adds a directory |
| `Descriptors.ChecksDecide` | crates/wasi-common/src/snapshots/preview_1.rs:338-349 | As long as no directory is added, no forbidden open succeeds, and a file that is read or written although it is forbidden was there from the start or was accepted from a socket |
| `StartUp.PushAppends` | crates/wasi-common/src/table.rs:42-50 | On a table without gaps a push takes the next number, unless 2^32 - 1 keys are live |
| `StartUp.PushPreopenedDir` | crates/wasi-common/src/ctx.rs:157-165 | The directory comes right behind the ones pushed before it |
| `StartUp.PreopenDirs` | blockless/src/lib.rs:158-169 | The preopened directories occupy 3, 4, ... in configuration order with `/` last, and `max_fd` equals the table's next key; otherwise the first directory that cannot be opened is reported |
| `StartUp.BindListeners` | blockless/src/lib.rs:170-185 | The listeners are put in one after the other at the numbers they ask for or that follow; the first that is not acceptable or cannot be bound is reported |
| `StartUp.ImplicitCounts` | blockless/src/lib.rs:171-181 | A listener that asks for no number gets the first one plus how many such listeners are in front of it |
| `StartUp.NumbersInARow` | blockless/src/lib.rs:171-181 | When no listener asks for a number, they get consecutive ones in order |
| `StartUp.BindKeeps` | blockless/src/lib.rs:171-185 | A number no listener gets keeps what it held |
| `StartUp.BindHolds` | blockless/src/lib.rs:171-185 | A number holds the last listener that got it |
| `StartUp.NumbersDifferIff` | blockless/src/lib.rs:172-181 | Accepted listeners get different numbers if and only if the requested numbers keep apart from all others |
| `StartUp.ListenersSurviveIff` | blockless/src/lib.rs:171-185 | Every listener can be reached at its own number if and only if the requested numbers keep apart from all others |
| `StartUp.ListenerLost` | blockless/src/lib.rs:171-181 | A listener that asked for descriptor 3 is accepted, and shares it with the next one that asks for none |
| `StartUp.ListenersKeepRest` | blockless/src/lib.rs:172-176 | No accepted listener replaces stdio or a preopened directory |
| `StartUp.PushKeepsLive` | crates/wasi-common/src/table.rs:42-50 | No later push takes the descriptor of a listener, or of anything else that is live |
| `StartUp.NewContext` | crates/wasi-common/src/ctx.rs:38-59 | Descriptors 0, 1 and 2 hold the pipes, or the configured files in their place, with read and write access as stdio needs it |
| `StartUp.ModuleFinds` | blockless/src/lib.rs:142-187 | Of the table a module starts with, entry by entry: input at 0 to read, output at 1 and errors at 2 to write, directory `i` at `3 + i` under its guest path, then the root under `/`, and each listener at its number with both rights if the requests keep apart |
| `StartUp.BuildDescriptors` | blockless/src/lib.rs:142-187 | The table of a new module is stdio, the preopened directories, and over these the listeners; the first error is reported otherwise |
| `ByteSource.ServesIsExact` | crates/blockless-drivers/src/http_driver/reqwest_driver.rs:138-191 | The contract of a read into a non-empty buffer leaves no choice: how much, which bytes, and what stays |
| `ByteSource.OutServes` | crates/blockless-drivers/src/http_driver/reqwest_driver.rs:138-191 | That contract can always be met |
| `ByteSource.ServesConserves` | crates/blockless-drivers/src/http_driver/reqwest_driver.rs:138-191 | The delivered bytes and those still pending are the bytes that were pending, errors or not |
| `ByteSource.EmptyReadIff` | crates/blockless-drivers/src/http_driver/reqwest_driver.rs:168-175 | A read into a non-empty buffer returns nothing if and only if the source is at its end or at an error |
| `ByteSource.SessionDelivers` | crates/blockless-drivers/src/read_ext.rs:13-32 | Read-size independence: whatever the buffer sizes, the reads deliver the content from its start, as much as their sizes add up to |
| `ByteSource.SessionConserves` | crates/blockless-drivers/src/http_driver/reqwest_driver.rs:138-191 | Over any schedule of reads of a source with errors, nothing is lost, repeated or put out of order |
| `ByteSource.ChainIsSession` | crates/blockless-drivers/src/http_driver/reqwest_driver.rs:193-213 | Whatever reader serves a chain of reads, the buffer sizes alone settle what is delivered and what is left |
| `ByteSource.ChainDeliversPrefix` | crates/blockless-drivers/src/cgi_driver/mod.rs:43-60 | Without errors, the reads of a chain deliver a prefix of the content; once a read returns nothing, all of it was delivered |
| `Sessions.RunConserves` | crates/blockless-drivers/src/cgi_driver/mod.rs:43-60 | Over every such run, what the reads of a handle delivered and what is pending behind it are together what was pending at first, errors or not |
| `Sessions.HandleDeliversOwnContent` | crates/blockless-drivers/src/http_driver/reqwest_driver.rs:193-213 | Over every run of opening, reading and closing handles in any order, what a handle delivers is a prefix of its own content, and all of it once a read of a source without errors returns nothing |
| `HttpBody.ReadCall` | crates/blockless-drivers/src/http_driver/reqwest_driver.rs:139-151 | As much of the buffer as fits is appended to what was delivered; the rest stays, and so does the rest of the destination |
| `HttpBody.SymbolsOfParts` | crates/blockless-drivers/src/http_driver/reqwest_driver.rs:167-188 | What a stream of items comes to is put together from its parts in order |
| `HttpBody.SymbolsOfOne` | crates/blockless-drivers/src/http_driver/reqwest_driver.rs:167-188 | A chunk comes to its bytes, each once and in order, an error to one break |
| `HttpBody.ReadLeftOver` | crates/blockless-drivers/src/http_driver/reqwest_driver.rs:155-166 | The left-over buffer is served first; delivered and pending bytes stay in balance, and a full destination completes the read |
| `HttpBody.ReadNextChunk` | crates/blockless-drivers/src/http_driver/reqwest_driver.rs:167-188 | The next chunk is served and its rest left over; the end of the stream or an error completes the read |
| `HttpBody.StreamRead` | crates/blockless-drivers/src/http_driver/reqwest_driver.rs:138-191 | On every finite stream of chunks, empty ones included, and errors, a read ends and refines the byte source: short only at the end or at an error |
| `HttpHandles.HttpDriver.IncreaseFd` | crates/blockless-drivers/src/http_driver/reqwest_driver.rs:34-40 | Each of the first 2^32 handles is new |
| `HttpHandles.HttpDriver.Register` | crates/blockless-drivers/src/http_driver/reqwest_driver.rs:113-117 | A response gets the next handle and is pending as a whole, and what the other handles deliver is unchanged; the first 2^32 handles replace none, the one after them is 1 again |
| `HttpHandles.HttpDriver.ReadOpen` | crates/blockless-drivers/src/http_driver/reqwest_driver.rs:195-210 | The same for an open handle, with no two handles sharing a stream |
| `HttpHandles.HttpDriver.ReadBody` | crates/blockless-drivers/src/http_driver/reqwest_driver.rs:193-213 | A read through a handle is a read of the source behind it, keeps the handle, and leaves what every other handle delivers unchanged; an unknown handle changes nothing |
| `HttpHandles.HttpDriver.Close` | crates/blockless-drivers/src/http_driver/reqwest_driver.rs:216-222 | Only the closed handle is gone, and the others deliver what they did |
| `Cursors.RemainReader.CopyRemain` | crates/blockless-drivers/src/read_ext.rs:13-32 | `copy_remain` refines the byte source behind the read point and writes nothing else |
| `Cursors.CgiDriver.IncreaseHandle` | crates/blockless-drivers/src/cgi_driver/mod.rs:26-32 | Each of the first 2^32 handles is new, so that no listing or process is replaced |
| `Cursors.CgiDriver.ListExec` | crates/blockless-drivers/src/cgi_driver/mod.rs:34-41 | A listing gets the next handle, new up to 2^32 of them, and is pending as a whole |
| `Cursors.CgiDriver.CommandExec` | crates/blockless-drivers/src/cgi_driver/mod.rs:62-71 | A started program gets the next handle; one that cannot be started uses up a handle and changes nothing else |
| `Cursors.CgiDriver.ListRead` | crates/blockless-drivers/src/cgi_driver/mod.rs:43-60 | A read of a listing is a read of the source behind its cursor, and leaves the other handles unchanged; a handle that is no listing is refused, and dropped |
| `Cursors.CgiDriver.Close` | crates/blockless-drivers/src/cgi_driver/mod.rs:73-79 | Only the closed handle is gone |
| `MultiAddr.Parse` | crates/blockless-multiaddr/src/parse.rs:42-87 | The two-state scanner computes exactly the declarative grammar |
| `MultiAddr.RunsExact` | crates/blockless-multiaddr/src/parse.rs:55-85 | The runs of a text are exactly its maximal non-empty stretches without `/` |
| `MultiAddr.SegmentsInOrder` | crates/blockless-multiaddr/src/parse.rs:55-85 | The segments lie in increasing, disjoint ranges |
| `MultiAddr.SegmentsAreMaximalRuns` | crates/blockless-multiaddr/src/parse.rs:55-85 | A successful parse gives the scheme, if there is one, and exactly the maximal runs behind it |
| `MultiAddr.SchemeColonIff` | crates/blockless-multiaddr/src/parse.rs:55-72 | The scheme ends at the first `:` behind the first byte, if no `/` is in front of it |
| `MultiAddr.RejectedIff` | crates/blockless-multiaddr/src/parse.rs:48-82 | An address is rejected if and only if it has a byte up to 32, from 127 on, or 60 or 62, a leading `/`, or a first `:` behind the first byte of the first segment without `//` behind it |
| `MultiAddrText.ToUrlString` | crates/blockless-multiaddr/src/lib.rs:68-81 | The printer writes the first segment, `://`, and the others with a `/` between them |
| `MultiAddrText.NoSegmentsIff` | crates/blockless-multiaddr/src/lib.rs:68-71 | A parsed address has no segments, so that the printer's index arithmetic underflows, if and only if it is empty |
| `MultiAddrText.ValuesOfRuns` | crates/blockless-multiaddr/src/parse.rs:55-85 | The runs of an address hold the parts of its text |
| `MultiAddrText.SplitJoin` | crates/blockless-multiaddr/src/lib.rs:71-80 | Splitting joined segments gives them back |
| `MultiAddrText.JoinSplit` | crates/blockless-multiaddr/src/lib.rs:71-80 | Joining the parts of a tidy text gives it back |
| `MultiAddrText.ParsedSegments` | crates/blockless-multiaddr/src/parse.rs:55-85 | What a parse gives can be printed: each value is a segment, and the first can be a scheme |
| `MultiAddrText.PrintThenParse` | crates/blockless-multiaddr/src/lib.rs:68-81 | Parsing what is printed for any list of segments succeeds and gives the list back |
| `MultiAddrText.ParseThenPrint` | crates/blockless-multiaddr/src/lib.rs:68-81 | Parsing, printing and parsing again succeeds with the same values, and printing these changes nothing more |
| `MultiAddrText.PrintIsIdentityIff` | crates/blockless-multiaddr/src/lib.rs:68-81 | The printer gives an address back unchanged if and only if it has a scheme and a path without double, leading or trailing `/` |
| `Sched.Host.Poll` | crates/wasi-common/src/sync/sched/unix.rs:46-50 | What is assumed of the host's `poll`: a time-out only when the time is up, one report per descriptor, interruptions finitely often; each question and its time are recorded |
| `Sched.Earliest` | crates/wasi-common/src/sched.rs:76-84 | The clock that is found has the earliest deadline of all, and none is found only if there is none |
| `Sched.TimeoutRoundsUp` | crates/wasi-common/src/sync/sched/unix.rs:33-38 | The time-out in whole milliseconds exceeds the time left, by at most one millisecond |
| `Sched.CollectPollFds` | crates/wasi-common/src/sync/sched/unix.rs:10-30 | The descriptors of the read and write subscriptions, one each and in order, for reading or for writing as they ask, unless one of them cannot be polled |
| `Sched.AssignResults` | crates/wasi-common/src/sync/sched/unix.rs:53-72 | The loop stays aligned: each read or write is completed with the report of its own descriptor, and nothing else changes |
| `Sched.PollLoop` | crates/wasi-common/src/sync/sched/unix.rs:32-51 | Every question to the host, over any number of interruptions, is for the collected descriptors, and with a clock for a time longer than what is left until the earliest deadline, by a millisecond at most, or 2^31 - 1 milliseconds without one; a time-out finds the earliest deadline past, and an overflow means that all deadlines were too far away |
| `Sched.PollOneoff` | crates/wasi-common/src/sync/sched/unix.rs:6-81 | The host's last answer settles the outcome: readiness completes every read and write, or reports a read that fails to say how many bytes it has; a time-out finds a deadline past, and panics exactly when there is no clock; its failure is passed on; and no answer is had exactly when a file cannot be polled or all deadlines are too far away; every question has the descriptors and the time-out that `PollLoop` says |
| `PollOneoff.ArrangedIsPermutation` | crates/wasi-common/src/snapshots/preview_1.rs:1001-1096 | Putting clocks before reads before writes neither loses nor repeats a subscription |
| `PollOneoff.ArrangedInOrder` | crates/wasi-common/src/snapshots/preview_1.rs:1001-1096 | Clocks come before reads before writes, and those of the same kind stay in the order of the guest |
| `PollOneoff.Deadline` | crates/wasi-common/src/snapshots/preview_1.rs:1013-1066 | The deadline of a clock subscription, by clock and flag, or why it is refused |
| `PollOneoff.Subscribe` | crates/wasi-common/src/snapshots/preview_1.rs:1001-1096 | The poll set stands for the guest's subscriptions one by one, in that order; an error is the reason of one of them |
| `PollOneoff.NoClockIff` | crates/wasi-common/src/snapshots/preview_1.rs:1001-1096 | The poll set has no clock exactly when the guest asked for none |
| `PollOneoff.Results` | crates/wasi-common/src/sched.rs:67-72 | The events are those of exactly the subscriptions that have a result, in poll-set order |
| `PollOneoff.ReportsAnswer` | crates/wasi-common/src/snapshots/preview_1.rs:1098-1173 | The results of a wait are between one and as many as the subscriptions, and answer them in order |
| `PollOneoff.WhoGetsAnEvent` | crates/wasi-common/src/sync/sched/unix.rs:52-80 | Reads and writes get events if and only if the host reported any readiness; clocks when their deadline was past |
| `PollOneoff.EventSaysReport` | crates/wasi-common/src/sync/sched/unix.rs:53-71 | A read or write event carries the error and hang-up of its own descriptor's report, and of a read without error exactly the bytes the file has, or 1 if it has none |
| `PollOneoff.DoPollOneoff` | crates/wasi-common/src/snapshots/preview_1.rs:962-1174 | Every successful call reports at least one and at most `nsubscriptions` events, an order-preserving selection of clocks, reads, writes with their user data, no clock event before its deadline and none with an error or bytes; a single relative timer asks the host to sleep for exactly its time, and every other wait asks what `PollLoop` says; every error is that of a refused subscription or the outcome of the wait; it panics exactly when a wait without a clock times out |
| `CgiDb.InsertView` | crates/blockless-drivers/src/cgi_driver/db.rs:147-164 | Inserting a file that has no row adds what the table says about it, and keeps files unique |
| `CgiDb.UpdateView` | crates/blockless-drivers/src/cgi_driver/db.rs:134-145 | Updating by file name changes what the table says about that file, if it has a row, and keeps files unique |
| `CgiDb.DeleteView` | crates/blockless-drivers/src/cgi_driver/db.rs:124-132 | Deleting by id and file name removes the file if both agree, and keeps files unique |
| `CgiDb.DoubleUpdateFails` | crates/blockless-drivers/src/cgi_driver/db.rs:134-145 | Updating a file that has two rows violates the unique alias |
| `CgiDb.UniqueParts` | crates/blockless-drivers/src/cgi_driver/db.rs:45-59 | Files are unique in a table exactly when they are in each of two parts of it, and the parts share none |
| `CgiDb.Db.NextId` | crates/blockless-drivers/src/cgi_driver/db.rs:45-59 | The next id is larger than all in use |
| `CgiDb.Db.ListExtensions` | crates/blockless-drivers/src/cgi_driver/db.rs:87-111 | Exactly the rows that can be read are listed; the others are passed over without an error |
| `CgiDb.Db.InsertExtensionMeta` | crates/blockless-drivers/src/cgi_driver/db.rs:147-164 | A row under a new id, or no change; it fails exactly when the statement has a fault or a row has the alias |
| `CgiDb.Db.UpdateExtensionMeta` | crates/blockless-drivers/src/cgi_driver/db.rs:134-145 | All rows of the file are updated, or there is no change; it fails exactly when the statement has a fault or two rows would get the same alias |
| `CgiDb.Db.DeleteExtensionMeta` | crates/blockless-drivers/src/cgi_driver/db.rs:124-132 | The row with that id and file name is gone, or there is no change; it fails exactly when the statement has a fault |
| `CgiIndex.ListExtensionsFromDb` | crates/blockless-drivers/src/cgi_driver/process.rs:193-212 | One row of each file that the query gives is recalled as invalid for now; a failed query recalls none |
| `CgiIndex.AllRecalledIff` | crates/blockless-drivers/src/cgi_driver/process.rs:193-212 | The whole table is recalled if and only if no row is missing from the query and no file has two rows |
| `CgiIndex.ListCgiDirectory` | crates/blockless-drivers/src/cgi_driver/process.rs:269-311 | The known programs that are still there are marked and get their current digest, and the new ones that verify are returned in order; it fails exactly when an entry cannot be examined |
| `CgiIndex.BlocksIff` | crates/blockless-drivers/src/cgi_driver/process.rs:276-303 | An entry stops the listing only by an answer that is asked for: its metadata, unless it is the database; the digest of an executable regular file; the verification of a new one |
| `CgiIndex.SaveExtensions` | crates/blockless-drivers/src/cgi_driver/db.rs:113-122 | Whatever statement fails: the rows that were recalled are exactly what the plan makes of them up to there, each file once, and the others are as they were; it succeeds exactly when no statement has a fault or meets a clash |
| `CgiIndex.UpdateClashIff` | crates/blockless-drivers/src/cgi_driver/db.rs:134-145 | Updating a recalled program violates the unique alias if and only if a row of its file was not recalled |
| `CgiIndex.SucceedsIff` | crates/blockless-drivers/src/cgi_driver/db.rs:113-122 | No statement of a save fails if and only if the aliases of the new programs differ and are not taken, the recalled programs that are still there have one row each, and no statement has a fault |
| `CgiIndex.SavedAt` | crates/blockless-drivers/src/cgi_driver/db.rs:113-122 | After saving, each planned file has the row its own entry says, or none if that was invalid |
| `CgiIndex.PlanCanBeSaved` | crates/blockless-drivers/src/cgi_driver/process.rs:313-323 | What the directory walk plans names each file once, with the status that fits the table |
| `CgiIndex.PlanReconciles` | crates/blockless-drivers/src/cgi_driver/process.rs:313-334 | After saving, the table holds exactly the executable regular files that were known or verify: a known one with its alias and description and its current digest, a new one with the alias and description it says, and the digest it says or else that of the file |
| `CgiIndex.LiveListsTable` | crates/blockless-drivers/src/cgi_driver/process.rs:335-340 | The returned list names each file of the table once, with the alias, digest, description and file name that the table has |
| `CgiIndex.UniqueIff` | crates/blockless-drivers/src/cgi_driver/process.rs:313-334 | After any part of a save, the files of the table are unique if and only if no program that was newly stored has a row that was not recalled |
| `CgiIndex.UniqueUnlessLost` | crates/blockless-drivers/src/cgi_driver/process.rs:313-334 | When no new program has a row that was not recalled, the files stay unique in every outcome; after a completed save they are only then |
| `CgiIndex.ListsAllIff` | crates/blockless-drivers/src/cgi_driver/process.rs:335-340 | The returned list lists a table of unique files if and only if all its rows were recalled |
| `CgiIndex.DoubleAfterLostRow` | crates/blockless-drivers/src/cgi_driver/process.rs:200-203 | A program that changed its alias gets a second row when the query fails or its row cannot be read, which the schema allows |
| `CgiIndex.RenamedFileDoesNotFit` | crates/blockless-drivers/src/cgi_driver/process.rs:321-334 | A file that was renamed under the same alias makes a save fail even when everything is recalled |
| `CgiIndex.DirectoryListExtensions` | crates/blockless-drivers/src/cgi_driver/process.rs:313-340 | For every table, query and outcome: the rows not recalled stay as they are and the recalled ones stay unique, so that the files stay unique exactly when no newly stored program has a row not recalled; a run that succeeds reconciles the recalled rows, the directory and the returned list field by field, as in `PlanReconciles` and `LiveListsTable`, which is the whole promise exactly when all rows were recalled; it succeeds exactly when everything can be examined, what is to be stored fits and no statement has a fault, and so fails when a program that is still there has two rows, one of which is read |
| `Mcall.CallInstance` | blockless/src/modules.rs:132-201 | The imperative call has the outcome, the callee, the caller's memory and the log of guest calls that `CallEffect` describes |
| `Mcall.ReleaseBoth` | blockless/src/modules.rs:179-200 | Both buffers are taken back whatever happens, and the first error is the one reported |
| `Mcall.CodeSaysWhatFailed` | blockless/src/modules.rs:132-201 | A call that returns asks for both buffers, calls, and gives both back, in that order; it returns 0 if and only if both were granted, the function did not trap and both went back, 2 if and only if one was refused, 4 if and only if the function trapped, and 3 if and only if all but giving back went well |
| `Mcall.Balanced` | blockless/src/modules.rs:132-201 | On every path that returns, and on no other, the buffers granted are exactly those the callee was asked to take back, with the same lengths |
| `Mcall.PanicsIff` | blockless/src/modules.rs:104-127 | A call panics if and only if, with both buffers granted, the first does not lie in the callee's memory, or its function does not trap and then its result buffer or the caller's does not lie in memory |
| `Mcall.BalancedIff` | blockless/src/modules.rs:132-201 | The buffers granted are exactly those taken back if and only if the call meets no such range |
| `Mcall.BuffersLeftBehind` | blockless/src/modules.rs:120-127 | Any request with text, for a result that does not lie in the caller's memory, makes a call to a callee that grants both buffers panic with neither taken back |
| `Mcall.ResultIsDelivered` | blockless/src/modules.rs:104-127 | The callee finds the parameters behind its pointer; after it ran, the caller's result range equals the callee's result buffer and the rest of the caller's memory is unchanged, or a range is out of bounds and the call panics |
| `Mcall.CallerIsKept` | blockless/src/modules.rs:145-178 | Every call that delivers no result leaves the caller's memory unchanged |
| `HandleMap.HandlesAreFreshIff` | crates/blockless-drivers/src/llm_driver/handle.rs:26-28 | In every interleaving the handles given out are distinct and not zero if and only if there are fewer than 2^32 |
| `HandleMap.RunKeeps` | crates/blockless-drivers/src/llm_driver/handle.rs:31-60 | Over every interleaving no two handles share an instance, and as long as fewer than 2^32 handles are given out, stored, removed and not yet stored ones are kept apart |
| `HandleMap.InsertNeverOverwrites` | crates/blockless-drivers/src/llm_driver/handle.rs:31-41 | As long as fewer than 2^32 handles are given out, storing an instance never replaces another one, is found under its handle, and leaves the others as they are |
| `HandleMap.RemovedStaysRemoved` | crates/blockless-drivers/src/llm_driver/handle.rs:44-69 | As long as fewer than 2^32 handles are given out, no `get` of a handle succeeds after its successful `remove` |
| `HandleMap.WrappedHandleReturns` | crates/blockless-drivers/src/llm_driver/handle.rs:26-41 | The bound is sharp: after 2^32 insertions the first handle comes again, and if it is still stored, its instance is replaced |
| `HandleMap.FirstInstanceIsReplaced` | crates/blockless-drivers/src/llm_driver/handle.rs:26-41 | A run of 2^32 insertions without a removal, after which one more replaces the instance under handle 1 |
| `HandleMap.StepsDoNotInterfere` | crates/blockless-drivers/src/llm_driver/handle.rs:63-93 | As long as fewer than 2^32 handles are given out, only removing a handle or updating its own instance changes what is found under it |
| `HandleMap.UpdateTouchesOneHandle` | crates/blockless-drivers/src/llm_driver/handle.rs:84-93 | An update through one handle is seen under it and under no other |
| `HandleMap.HandleMap.GenerateHandle` | crates/blockless-drivers/src/llm_driver/handle.rs:26-28 | Taking a handle is the first step of an insertion |
| `HandleMap.HandleMap.StoreInstance` | crates/blockless-drivers/src/llm_driver/handle.rs:34-40 | Storing under the lock is its second step |
| `HandleMap.HandleMap.RemoveInstance` | crates/blockless-drivers/src/llm_driver/handle.rs:44-60 | Removing is one step, and returns the instance as it is then |
| `HandleMap.HandleMap.WithInstanceMut` | crates/blockless-drivers/src/llm_driver/handle.rs:84-93 | Updating a cell is one step, also when its handle is gone |
| `StringArray.StringArray.Push` | crates/wasi-common/src/string_array.rs:23-35 | A string is accepted exactly when number, length and total size stay below 2^32; otherwise nothing changes and the limit that is broken is named |
| `StringArray.StringArray.CumulativeSize` | crates/wasi-common/src/string_array.rs:41-46 | The cumulative size is the length of the block, and always fits 32 bits |
| `StringArray.OffsetCounts` | crates/wasi-common/src/string_array.rs:41-46 | A string starts behind the bytes of those in front of it and one zero for each, and so does the end of the block |
| `StringArray.StringArray.WriteToGuest` | crates/wasi-common/src/string_array.rs:48-74 | With the buffers the guest was told to provide it succeeds, the cursor ends at the cumulative size, block and heads are written, and the rest of memory is unchanged |
| `StringArray.HeadPointsAtString` | crates/wasi-common/src/string_array.rs:57-72 | Head `i`, read back, points at the bytes of string `i`, which are followed by a zero |
| `StringArray.GuestReadsStringsIff` | crates/wasi-common/src/snapshots/preview_1.rs:46-76 | The guest reads all strings back as C strings if and only if none contains a zero byte |
| `StringArray.GuestGetsStrings` | crates/wasi-common/src/snapshots/preview_1.rs:46-76 | A guest that asks for its arguments with the buffers it was told to provide, and reads them, gets each as it is exactly when that contains no zero byte |
| `StringArray.ZeroByteCutsOff` | crates/wasi-common/src/string_array.rs:57-72 | The argument of the bytes 97, 0, 98 is read back as the single byte 97 |
| `EnvVars.SortSorts` | bls-runtime/src/cli_clap.rs:513-514 | The result of the sort is sorted by key |
| `EnvVars.LessIff` | bls-runtime/src/cli_clap.rs:513-514 | The order of keys is the lexicographic one |
| `EnvVars.SortIsStable` | bls-runtime/src/cli_clap.rs:513-514 | The sort is a stable permutation |
| `EnvVars.OverrideKeeps` | bls-runtime/src/cli_clap.rs:505-511 | Overriding leaves a key with as many entries as it had, but at least one, and the new value comes last |
| `EnvVars.MergedKeeps` | bls-runtime/src/cli_clap.rs:505-511 | After any number of overrides, a key has its file entries, or one if only explicit variables name it, and its last value is the expected one |
| `EnvVars.LoadEnvironmentVars` | bls-runtime/src/cli_clap.rs:488-517 | The variables of the file, if there is one, overridden from left to right by the explicit ones, and sorted |
| `EnvVars.LastWins` | bls-runtime/src/cli_clap.rs:488-517 | For every key the last entry has the value of the last explicit variable, or else of the file's last |
| `EnvVars.StrictlySortedIff` | bls-runtime/src/cli_clap.rs:513-516 | The result is sorted, and strictly so if and only if the file's keys are distinct |
| `EnvVars.RepeatedKeySurvives` | bls-runtime/src/cli_clap.rs:505-511 | A key that is twice in the file is twice in the result, an explicit variable having replaced its first entry |

## Left out

- ReadDir.FdReaddir: looking up the descriptor and opening the directory on the host, which may fail before the first record, because only the listing itself is of interest; the padding bytes of a record are taken to be zero.
- ReadDir.FillBuffer: when a buffer ends exactly at the end of the 4 GiB address space the code reports an overflow after the copy, so that a page there may be refused; the model says so and claims nothing more.
- Tables.Table.Push: a table with all 2^32 keys live, on which the code would loop forever; no call leads there (`Descriptors.StepKeepsRoom`). The key counter wraps around, as the comment in the source assumes and an optimised build does.
- Descriptors.DoPathOpen: path lookup, symbolic links and flags of the host; what the host opens is an argument, and the decision of the permission check is one, too.
- StartUp.BuildDescriptors: arguments and environment strings of the builder (they are in `StringArray`), and logging.
- HttpHandles.HttpDriver.Register: sending the request; the body stream is an argument. Handles are used from one thread.
- MultiAddrText.ToUrlString: an address without segments, on which the code's index arithmetic underflows; this is the empty address only (`MultiAddrText.NoSegmentsIff`).
- Sched.Host.Poll: which descriptors are really ready, because the scheduler does not look at it; sockets and files are represented by what they report.
- PollOneoff.DoPollOneoff: reading the subscriptions from guest memory and writing the events there; the events are returned as a sequence. Files are looked up in a map, and the precision of a clock is ignored as it is by the host.
- CgiIndex.DirectoryListExtensions: computing digests, running programs and reading their JSON, and names that are not valid UTF-8 (the code turns all of them into the empty name); what they give is part of a directory entry. The code opens one database for the whole process, with the first path it is given, and gives up when it cannot; the model has one directory and its open database.
- CgiDb.Db.ListExtensions: the status column, which is always 0 in stored rows; which rows cannot be read is an argument.
- Mcall.CallInstance: a caller whose memory is the callee's own; the two memories are distinct here. The guest functions are arbitrary deterministic functions of the callee's state.
- Mcall.ResultIsDelivered: a callee that calls back into its caller, which may then change the caller's memory outside the result range; the guest functions of the model touch the callee's state only. The same holds for Mcall.CallerIsKept.
- HandleMap.HandleMap.RemoveInstance: poisoned locks, which make the code panic.
- EnvVars.LoadEnvironmentVars: reading and parsing the file; an unreadable file is an error before anything modelled here. Keys are compared as sequences of characters.
- The Windows scheduler, the tokio scheduler and `poll_oneoff` of preview 0.
- Chunked reading in the IPFS driver, the S3 and language-model clients, the permission rules, configuration parsing, v86 and dynamic-library modules, prompts and logs.
- Flag, enumeration and exit-code tables: finite case distinctions that would add easy members only.
