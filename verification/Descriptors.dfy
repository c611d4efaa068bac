/** Guest calls that create, move, close and use descriptors. */
module Descriptors {
  import opened Common
  import opened Tables

  datatype Mode = Mode(read: bool, write: bool)

  /**
   * A table entry; `file` and `dir` stand for the host resource behind it. The table may also hold
   * resources of other proposals, which are neither files nor directories.
   */
  datatype Entry =
    | FileEntry(file: nat, mode: Mode, name: Option<string>)
    | DirEntry(dir: nat, preopenPath: Option<string>)
    | Foreign(resource: nat)

  /** What the host's `open` gives when it is asked. */
  datatype Opened = OpenedFile(file: nat) | OpenedDir(dir: nat) | OpenFailed(error: Error)

  /** A guest call together with the answers of the host: `allowed` is the permission check's. */
  datatype Call =
    | PathOpen(dirfd: u32, path: string, read: bool, write: bool, allowed: bool, outcome: Opened)
    | SockAccept(fd: u32, accepted: Result<nat, Error>)
    | FdRenumber(from: u32, target: u32)
    | FdClose(fd: u32)

  /** Joining a relative path to a directory; an absolute path replaces it. */
  function Join(dir: string, path: string): string {
    if path != [] && path[0] == '/' then path
    else if dir == [] || dir[|dir| - 1] == '/' then dir + path
    else dir + "/" + path
  }

  function FullPath(e: Entry, path: string): Option<string>
    requires e.DirEntry?
  {
    if e.preopenPath.Some? then Some(Join(e.preopenPath.value, path)) else None
  }

  // ---------- the effect of one call ----------

  /** The entry a call would add to the table, or why it adds none. */
  function NewEntry(s: State<Entry>, call: Call): Result<Entry, Error>
    requires call.PathOpen? || call.SockAccept?
  {
    match call
    case PathOpen(dirfd, path, read, write, allowed, outcome) =>
      if dirfd in s.entries && s.entries[dirfd].FileEntry? then Err(NotDir)
      else if dirfd !in s.entries || !s.entries[dirfd].DirEntry? then Err(Badf)
      else if s.entries[dirfd].preopenPath.Some? && !allowed then Err(Perm)
      else (match outcome
            case OpenFailed(e) => Err(e)
            case OpenedFile(f) => Ok(FileEntry(f, Mode(read, write), FullPath(s.entries[dirfd], path)))
            case OpenedDir(d) => Ok(DirEntry(d, None)))
    case SockAccept(fd, accepted) =>
      if fd !in s.entries || !s.entries[fd].FileEntry? then Err(Badf)
      else if accepted.Err? then Err(accepted.error)
      else Ok(FileEntry(accepted.value, Mode(true, true), None))
  }

  function Step(s: State<Entry>, call: Call): (State<Entry>, Result<Option<u32>, Error>)
    requires |s.entries| < U32
  {
    match call
    case PathOpen(_, _, _, _, _, _) => AddEntry(s, NewEntry(s, call))
    case SockAccept(_, _) => AddEntry(s, NewEntry(s, call))
    case FdRenumber(from, target) =>
      var (t, r) := AfterRenumber(s, from, target);
      (t, if r.Err? then Err(r.error) else Ok(None))
    case FdClose(fd) =>
      if fd !in s.entries || s.entries[fd].Foreign? then (s, Err(Badf))
      else (AfterDelete(s, fd), Ok(None))
  }

  function AddEntry(s: State<Entry>, e: Result<Entry, Error>): (State<Entry>, Result<Option<u32>, Error>)
    requires |s.entries| < U32
  {
    if e.Err? then (s, Err(e.error))
    else
      var (t, r) := AfterPush(s, e.value);
      (t, if r.Err? then Err(r.error) else Ok(Some(r.value)))
  }

  // ---------- the calls as they change the table ----------

  method DoPathOpen(table: Table<Entry>, dirfd: u32, path: string, read: bool, write: bool,
                    allowed: bool, outcome: Opened)
    returns (r: Result<u32, Error>)
    requires |table.entries| < U32
    modifies table
    ensures var (t, o) := Step(old(table.Abs()), PathOpen(dirfd, path, read, write, allowed, outcome));
            table.Abs() == t && (if r.Ok? then o == Ok(Some(r.value)) else o == Err(r.error))
  {
    var entry := table.Get(dirfd);
    if entry.Some? && entry.value.FileEntry? {
      return Err(NotDir);
    }
    if entry.None? || !entry.value.DirEntry? {
      return Err(Badf);
    }
    var fullPath := FullPath(entry.value, path);
    if fullPath.Some? {
      if !allowed {
        return Err(Perm);
      }
    }
    var accessMode := Mode(read, write);
    ghost var probes;
    match outcome {
      case OpenFailed(e) =>
        return Err(e);
      case OpenedFile(file) =>
        r, probes := table.Push(FileEntry(file, accessMode, fullPath));
      case OpenedDir(dir) =>
        r, probes := table.Push(DirEntry(dir, None));
    }
  }

  method DoSockAccept(table: Table<Entry>, fd: u32, accepted: Result<nat, Error>) returns (r: Result<u32, Error>)
    requires |table.entries| < U32
    modifies table
    ensures var (t, o) := Step(old(table.Abs()), SockAccept(fd, accepted));
            table.Abs() == t && (if r.Ok? then o == Ok(Some(r.value)) else o == Err(r.error))
  {
    var entry := table.Get(fd);
    if entry.None? || !entry.value.FileEntry? {
      return Err(Badf);
    }
    if accepted.Err? {
      return Err(accepted.error);
    }
    ghost var probes;
    r, probes := table.Push(FileEntry(accepted.value, Mode(true, true), None));
  }

  method DoFdRenumber(table: Table<Entry>, from: u32, target: u32) returns (r: Result<(), Error>)
    requires |table.entries| < U32
    modifies table
    ensures var (t, o) := Step(old(table.Abs()), FdRenumber(from, target));
            table.Abs() == t && (if r.Ok? then o == Ok(None) else o == Err(r.error))
  {
    var present := table.ContainsKey(from);
    if !present {
      return Err(Badf);
    }
    r := table.Renumber(from, target);
  }

  method DoFdClose(table: Table<Entry>, fd: u32) returns (r: Result<(), Error>)
    requires |table.entries| < U32
    modifies table
    ensures var (t, o) := Step(old(table.Abs()), FdClose(fd));
            table.Abs() == t && (if r.Ok? then o == Ok(None) else o == Err(r.error))
  {
    var entry := table.Get(fd);
    if entry.None? {
      return Err(Badf);
    }
    if entry.value.FileEntry? || entry.value.DirEntry? {
      var _ := table.Delete(fd);
    } else {
      return Err(Badf);
    }
    return Ok(());
  }

  /** The checks `fd_read` makes before it touches the file. */
  function ReadAccess(s: State<Entry>, fd: u32, allowed: bool): Result<nat, Error> {
    if fd !in s.entries || !s.entries[fd].FileEntry? then Err(Badf)
    else if s.entries[fd].name.Some? && !allowed then Err(Perm)
    else if !s.entries[fd].mode.read then Err(Badf)
    else Ok(s.entries[fd].file)
  }

  /** The checks `fd_write` makes before it touches the file. */
  function WriteAccess(s: State<Entry>, fd: u32, allowed: bool): Result<nat, Error> {
    if fd !in s.entries || !s.entries[fd].FileEntry? then Err(Badf)
    else if s.entries[fd].name.Some? && !allowed then Err(Perm)
    else if !s.entries[fd].mode.write then Err(Badf)
    else Ok(s.entries[fd].file)
  }

  // ---------- what every step keeps ----------

  /** The descriptor numbers a call may affect. */
  ghost predicate MayAffect(s: State<Entry>, call: Call, fd: u32) {
    match call
    case PathOpen(_, _, _, _, _, _) => fd !in s.entries
    case SockAccept(_, _) => fd !in s.entries
    case FdRenumber(from, target) => fd == from || fd == target
    case FdClose(closed) => fd == closed
  }

  /** The table never fills up completely, so that every later push finds a free key. */
  lemma StepKeepsRoom(s: State<Entry>, call: Call)
    requires |s.entries| < U32
    ensures |Step(s, call).0.entries| < U32
  {
    match call
    case FdRenumber(from, target) =>
      if from in s.entries {
        RenumberSize(s.entries, from, target, s.entries[from]);
      }
    case FdClose(fd) =>
      SubsetSize((s.entries - {fd}).Keys, s.entries.Keys);
    case _ =>
  }

  /**
   * A step changes only the descriptors its call names, or one that was not live; so only a
   * renumbering can replace a live entry. A refused call changes nothing.
   */
  lemma StepFrame(s: State<Entry>, call: Call, fd: u32)
    requires |s.entries| < U32
    ensures Step(s, call).1.Err? ==> Step(s, call).0 == s
    ensures !MayAffect(s, call, fd) ==>
              (fd in s.entries <==> fd in Step(s, call).0.entries)
    ensures !MayAffect(s, call, fd) && fd in s.entries ==>
              Step(s, call).0.entries[fd] == s.entries[fd]
  {
    if (call.PathOpen? || call.SockAccept?) && NewEntry(s, call).Ok? {
      assert PushKey(s) !in s.entries;
    }
  }

  /** The call makes the entry `e`, with the access mode it asked for. */
  ghost predicate Makes(call: Call, e: Entry) {
    match call
    case PathOpen(_, _, read, write, _, OpenedFile(f)) => e.FileEntry? && e.file == f && e.mode == Mode(read, write)
    case PathOpen(_, _, _, _, _, OpenedDir(d)) => e == DirEntry(d, None)
    case SockAccept(_, Ok(f)) => e == FileEntry(f, Mode(true, true), None)
    case _ => false
  }

  /**
   * A descriptor that a call returns was not live before and now holds the entry the call makes.
   * Nothing is opened below anything but a directory, nothing below a directory with a path but
   * with the permission check's consent, and nothing is accepted but from a file. A file opened
   * below a directory with a path keeps its full path, so that its reads and writes are refused
   * once the permission check says no.
   */
  lemma StepBinds(s: State<Entry>, call: Call)
    requires |s.entries| < U32
    ensures var (t, r) := Step(s, call);
            r.Ok? && r.value.Some? ==>
              var fd := r.value.value;
              && fd !in s.entries && fd in t.entries && Makes(call, t.entries[fd])
              && (call.SockAccept? ==> call.fd in s.entries && s.entries[call.fd].FileEntry?)
              && (call.PathOpen? ==>
                    call.dirfd in s.entries && s.entries[call.dirfd].DirEntry?
                    && (s.entries[call.dirfd].preopenPath.Some? ==> call.allowed))
              && (call.PathOpen? && s.entries[call.dirfd].preopenPath.Some? && t.entries[fd].FileEntry? ==>
                    ReadAccess(t, fd, false) == Err(Perm) && WriteAccess(t, fd, false) == Err(Perm))
  {
    if (call.PathOpen? || call.SockAccept?) && NewEntry(s, call).Ok? {
      assert PushKey(s) !in s.entries;
    }
  }

  // ---------- when a call succeeds ----------

  /**
   * An open succeeds exactly below a directory that has no path or for which the permission check
   * consents, when the host opens the file and a key is free; otherwise its error says what failed
   * first.
   */
  lemma OpenSucceedsIff(s: State<Entry>, call: Call)
    requires |s.entries| < U32 && call.PathOpen?
    ensures var r := Step(s, call).1;
            && (r.Ok? ==> r.value.Some?)
            && (r.Ok? <==>
                  && call.dirfd in s.entries && s.entries[call.dirfd].DirEntry?
                  && (s.entries[call.dirfd].preopenPath.None? || call.allowed)
                  && !call.outcome.OpenFailed? && |s.entries| < 0xffff_ffff)
    ensures var r := Step(s, call).1;
            if call.dirfd !in s.entries || s.entries[call.dirfd].Foreign? then r == Err(Badf)
            else if s.entries[call.dirfd].FileEntry? then r == Err(NotDir)
            else if s.entries[call.dirfd].preopenPath.Some? && !call.allowed then r == Err(Perm)
            else if call.outcome.OpenFailed? then r == Err(call.outcome.error)
            else r.Err? ==> r == Err(NoFreeKeys)
  {
  }

  /** A connection is accepted exactly from a file, when the host accepts one and a key is free. */
  lemma AcceptSucceedsIff(s: State<Entry>, call: Call)
    requires |s.entries| < U32 && call.SockAccept?
    ensures var r := Step(s, call).1;
            && (r.Ok? ==> r.value.Some?)
            && (r.Ok? <==>
                  && call.fd in s.entries && s.entries[call.fd].FileEntry?
                  && call.accepted.Ok? && |s.entries| < 0xffff_ffff)
    ensures var r := Step(s, call).1;
            if call.fd !in s.entries || !s.entries[call.fd].FileEntry? then r == Err(Badf)
            else if call.accepted.Err? then r == Err(call.accepted.error)
            else r.Err? ==> r == Err(NoFreeKeys)
  {
  }

  /** Exactly files and directories are closed: then the descriptor is gone, and everything else is as it was. */
  lemma CloseSucceedsIff(s: State<Entry>, fd: u32)
    requires |s.entries| < U32
    ensures var (t, r) := Step(s, FdClose(fd));
            if fd in s.entries && (s.entries[fd].FileEntry? || s.entries[fd].DirEntry?) then
              && r == Ok(None) && fd !in t.entries && t.entries[fd := s.entries[fd]] == s.entries
              && t.nextKey == s.nextKey
            else (t, r) == (s, Err(Badf))
  {
    if fd in s.entries && !s.entries[fd].Foreign? {
      assert (s.entries - {fd})[fd := s.entries[fd]] == s.entries;
    }
  }

  /** Exactly what is live is renumbered, whatever it is. */
  lemma RenumberSucceedsIff(s: State<Entry>, from: u32, target: u32)
    requires |s.entries| < U32
    ensures var (t, r) := Step(s, FdRenumber(from, target));
            if from in s.entries then
              && r == Ok(None) && t.nextKey == s.nextKey
              && target in t.entries && t.entries[target] == s.entries[from] && (from in t.entries <==> from == target)
            else (t, r) == (s, Err(Badf))
  {
  }

  /**
   * The name of an opened file: none below a directory without a path; an absolute argument as it
   * is; and otherwise the directory's path in front of the argument, with one `/` in between unless
   * the path is empty or ends in one.
   */
  lemma OpenedName(s: State<Entry>, call: Call, dir: string)
    requires |s.entries| < U32 && call.PathOpen? && call.outcome.OpenedFile? && Step(s, call).1.Ok?
    ensures var (t, r) := Step(s, call);
            var (e, path) := (s.entries[call.dirfd], call.path);
            && r.value.Some? && r.value.value in t.entries && t.entries[r.value.value].FileEntry?
            && var name := t.entries[r.value.value].name;
            && (e.preopenPath.None? ==> name.None?)
            && (e.preopenPath == Some(dir) ==>
                  && name.Some? && |name.value| >= |path| && name.value[|name.value| - |path|..] == path
                  && (path != "" && path[0] == '/' ==> |name.value| == |path|)
                  && (path == "" || path[0] != '/' ==>
                        && dir <= name.value
                        && |name.value| - |path| - |dir| == (if dir == "" || dir[|dir| - 1] == '/' then 0 else 1)
                        && (dir != "" ==> name.value[|name.value| - |path| - 1] == '/')))
  {
    StepBinds(s, call);
  }

  /**
   * A read is let through exactly on a file opened for reading, one without a name or for which the
   * permission check consents; the check comes before the access mode.
   */
  lemma ReadAllowedIff(s: State<Entry>, fd: u32, allowed: bool)
    ensures var r := ReadAccess(s, fd, allowed);
            if fd in s.entries && s.entries[fd].FileEntry? then
              var e := s.entries[fd];
              && (r.Ok? <==> e.mode.read && (e.name.None? || allowed))
              && (r.Ok? ==> r.value == e.file)
              && (r.Err? ==> r.error == if e.name.Some? && !allowed then Perm else Badf)
            else r == Err(Badf)
  {
  }

  /** The same for writing. */
  lemma WriteAllowedIff(s: State<Entry>, fd: u32, allowed: bool)
    ensures var r := WriteAccess(s, fd, allowed);
            if fd in s.entries && s.entries[fd].FileEntry? then
              var e := s.entries[fd];
              && (r.Ok? <==> e.mode.write && (e.name.None? || allowed))
              && (r.Ok? ==> r.value == e.file)
              && (r.Err? ==> r.error == if e.name.Some? && !allowed then Perm else Badf)
            else r == Err(Badf)
  {
  }

  /** Closing the descriptor that a call returned takes the entries back to where they were; only the counter moved. */
  lemma OpenThenClose(s: State<Entry>, call: Call, fd: u32)
    requires |s.entries| < U32 && Step(s, call).1 == Ok(Some(fd))
    ensures |Step(s, call).0.entries| < U32
    ensures var (t, r) := Step(Step(s, call).0, FdClose(fd));
            r == Ok(None) && t.entries == s.entries && t.nextKey == Step(s, call).0.nextKey
            && t.nextKey == (fd + 1) % 0x1_0000_0000
  {
    StepKeepsRoom(s, call);
    PushTakesFreeKey(s, NewEntry(s, call).value);
  }

  /** Renumbering to a free descriptor and back changes nothing. */
  lemma RenumberBack(s: State<Entry>, from: u32, target: u32)
    requires |s.entries| < U32 && from in s.entries && target !in s.entries
    ensures |Step(s, FdRenumber(from, target)).0.entries| < U32
    ensures Step(Step(s, FdRenumber(from, target)).0, FdRenumber(target, from)) == (s, Ok(None))
  {
    StepKeepsRoom(s, FdRenumber(from, target));
    var there := Step(s, FdRenumber(from, target)).0;
    assert (there.entries - {target})[from := s.entries[from]] == s.entries;
  }

  /** The call succeeds and its descriptor, which was not live, now holds the entry `e` that it made. */
  ghost predicate Adds(s: State<Entry>, call: Call, e: Entry)
    requires |s.entries| < U32
  {
    var (t, r) := Step(s, call);
    && r.Ok? && r.value.Some? && r.value.value !in s.entries
    && r.value.value in t.entries && t.entries[r.value.value] == e && Makes(call, e)
  }

  /** Every entry after a step was there before it, or is the one its call adds. */
  lemma StepOrigin(s: State<Entry>, call: Call, fd: u32)
    requires |s.entries| < U32 && fd in Step(s, call).0.entries
    ensures var e := Step(s, call).0.entries[fd];
            (exists fd0: u32 :: fd0 in s.entries && s.entries[fd0] == e) || Adds(s, call, e)
  {
    var e := Step(s, call).0.entries[fd];
    StepBinds(s, call);
    if fd in s.entries && s.entries[fd] == e {
    } else if call.FdRenumber? {
      assert s.entries[call.from] == e;
    }
  }

  // ---------- runs ----------

  /** The table after the first `n` calls. */
  function Run(s: State<Entry>, calls: seq<Call>, n: nat): (t: State<Entry>)
    requires |s.entries| < U32 && n <= |calls|
    ensures |t.entries| < U32
    decreases n
  {
    if n == 0 then s
    else
      var before := Run(s, calls, n - 1);
      StepKeepsRoom(before, calls[n - 1]);
      Step(before, calls[n - 1]).0
  }

  ghost predicate Present(s: State<Entry>, e: Entry) {
    exists fd: u32 :: fd in s.entries && s.entries[fd] == e
  }

  lemma StepPresent(s: State<Entry>, call: Call, e: Entry)
    requires |s.entries| < U32 && Present(Step(s, call).0, e)
    ensures Present(s, e) || Adds(s, call, e)
  {
    var fd: u32 :| fd in Step(s, call).0.entries && Step(s, call).0.entries[fd] == e;
    StepOrigin(s, call, fd);
  }

  /** The call at position `i` of the run succeeds and adds `e`. */
  ghost predicate AddsAt(s: State<Entry>, calls: seq<Call>, i: nat, e: Entry)
    requires |s.entries| < U32
  {
    i < |calls| && Adds(Run(s, calls, i), calls[i], e)
  }

  /**
   * Over every run, an entry is one of the initial ones, or was added by one of the calls, which
   * succeeded, with the access mode that call asked for: entries move or vanish, and never change.
   * The call is the one at position `maker`; no call is named for an initial entry.
   */
  lemma {:induction false} RunOrigin(s: State<Entry>, calls: seq<Call>, n: nat, e: Entry) returns (maker: Option<nat>)
    requires |s.entries| < U32 && n <= |calls| && Present(Run(s, calls, n), e)
    ensures match maker
            case None => Present(s, e)
            case Some(i) => i < n && AddsAt(s, calls, i, e)
    decreases n
  {
    if n == 0 {
      return None;
    }
    StepPresent(Run(s, calls, n - 1), calls[n - 1], e);
    if Present(Run(s, calls, n - 1), e) {
      maker := RunOrigin(s, calls, n - 1, e);
    } else {
      maker := Some(n - 1);
    }
  }

  /** The call asked for the given rights on what it opens; an accepted socket has both. */
  predicate AsksFor(call: Call, read: bool, write: bool) {
    match call
    case PathOpen(_, _, r, w, _, _) => (read ==> r) && (write ==> w)
    case SockAccept(_, _) => true
    case _ => false
  }

  /** A call of the run asked for the given rights, succeeded, and put `file` behind a descriptor that was not live. */
  ghost predicate Granted(s: State<Entry>, calls: seq<Call>, i: nat, file: nat, read: bool, write: bool)
    requires |s.entries| < U32
  {
    && i < |calls| && AsksFor(calls[i], read, write)
    && exists e :: AddsAt(s, calls, i, e) && e.FileEntry? && e.file == file
  }

  ghost predicate GrantedAtStart(s: State<Entry>, file: nat, read: bool, write: bool) {
    exists e :: Present(s, e) && e.FileEntry? && e.file == file && (read ==> e.mode.read) && (write ==> e.mode.write)
  }

  lemma MakerGranted(s: State<Entry>, calls: seq<Call>, i: nat, e: Entry)
    requires |s.entries| < U32 && AddsAt(s, calls, i, e) && e.FileEntry?
    ensures e.mode.read ==> Granted(s, calls, i, e.file, true, false)
    ensures e.mode.write ==> Granted(s, calls, i, e.file, false, true)
  {
  }

  /**
   * After any run, an `fd_read` that is let through reads a file that was readable from the start,
   * or that a call of the run opened with the read right, or accepted from a socket; and likewise
   * for `fd_write`.
   */
  lemma AccessIsGranted(s: State<Entry>, calls: seq<Call>, fd: u32, allowed: bool)
    requires |s.entries| < U32
    ensures var r := ReadAccess(Run(s, calls, |calls|), fd, allowed);
            r.Ok? ==> GrantedAtStart(s, r.value, true, false) || exists i :: Granted(s, calls, i, r.value, true, false)
    ensures var w := WriteAccess(Run(s, calls, |calls|), fd, allowed);
            w.Ok? ==> GrantedAtStart(s, w.value, false, true) || exists i :: Granted(s, calls, i, w.value, false, true)
  {
    var t := Run(s, calls, |calls|);
    if ReadAccess(t, fd, allowed).Ok? || WriteAccess(t, fd, allowed).Ok? {
      var e := t.entries[fd];
      var maker := RunOrigin(s, calls, |calls|, e);
      if maker.Some? {
        MakerGranted(s, calls, maker.value, e);
      }
    }
  }

  /** The call at position `i` succeeds and brings the host file `file` into the table. */
  ghost predicate Brings(s: State<Entry>, calls: seq<Call>, i: nat, file: nat)
    requires |s.entries| < U32
  {
    exists e :: AddsAt(s, calls, i, e) && e.FileEntry? && e.file == file
  }

  ghost predicate HasFile(s: State<Entry>, file: nat) {
    exists e :: Present(s, e) && e.FileEntry? && e.file == file
  }

  /** The host gives out each of its files once: none that a call brings is there from the start, or comes twice. */
  ghost predicate HostFilesFresh(s: State<Entry>, calls: seq<Call>)
    requires |s.entries| < U32
  {
    && (forall i, file | Brings(s, calls, i, file) :: !HasFile(s, file))
    && (forall i, j, file | Brings(s, calls, i, file) && Brings(s, calls, j, file) :: i == j)
  }

  ghost predicate OneModePerFile(s: State<Entry>) {
    forall a, b | Present(s, a) && Present(s, b) && a.FileEntry? && b.FileEntry? && a.file == b.file :: a.mode == b.mode
  }

  /**
   * The access mode of a host file never changes over a run: however often it is renumbered,
   * whatever descriptor it is seen at, after `n` calls and after `m`, it has the same mode.
   */
  lemma ModeNeverChanges(s: State<Entry>, calls: seq<Call>, n: nat, m: nat, before: Entry, after: Entry)
    requires |s.entries| < U32 && n <= |calls| && m <= |calls|
    requires OneModePerFile(s) && HostFilesFresh(s, calls)
    requires Present(Run(s, calls, n), before) && Present(Run(s, calls, m), after)
    requires before.FileEntry? && after.FileEntry? && before.file == after.file
    ensures before.mode == after.mode
  {
    var i := RunOrigin(s, calls, n, before);
    var j := RunOrigin(s, calls, m, after);
    assert i.Some? ==> Brings(s, calls, i.value, before.file);
    assert j.Some? ==> Brings(s, calls, j.value, before.file);
    assert i.None? ==> HasFile(s, before.file);
    assert j.None? ==> HasFile(s, before.file);
  }

  // ---------- which opens and reads the permission check decides ----------

  /**
   * An open that the permission check forbids succeeds all the same exactly when its directory has
   * no path, the host opens it and there is a free descriptor.
   */
  lemma ForbiddenOpenIff(s: State<Entry>, call: Call)
    requires |s.entries| < U32 && call.PathOpen? && !call.allowed
    ensures Step(s, call).1.Ok? <==>
              && call.dirfd in s.entries && s.entries[call.dirfd].DirEntry? && s.entries[call.dirfd].preopenPath.None?
              && !call.outcome.OpenFailed? && |s.entries| < U32 - 1
  {
  }

  /**
   * What an open adds has a path, by which the permission check goes, exactly when it is a file
   * below a directory with one.
   */
  lemma AddedPathIff(s: State<Entry>, call: Call, e: Entry)
    requires |s.entries| < U32 && call.PathOpen? && Adds(s, call, e)
    ensures HasPath(e) <==> e.FileEntry? && s.entries[call.dirfd].preopenPath.Some?
  {
    StepBinds(s, call);
  }

  /** The permission check knows the entry by a path. */
  predicate HasPath(e: Entry) {
    (e.FileEntry? && e.name.Some?) || (e.DirEntry? && e.preopenPath.Some?)
  }

  /** Below a preopened directory, a subdirectory is opened, and through it a file that the permission check forbids. */
  lemma ForbiddenFileIsRead(dir: nat, subdir: nat, file: nat)
    ensures var s := State(map[3 := DirEntry(dir, Some("/data"))], 4);
            var calls := [PathOpen(3, "sub", true, false, true, OpenedDir(subdir)),
                          PathOpen(4, "file", true, false, false, OpenedFile(file))];
            && |s.entries| < U32
            && Step(s, calls[0]).1 == Ok(Some(4)) && |Step(s, calls[0]).0.entries| < U32
            && Step(Step(s, calls[0]).0, calls[1]).1 == Ok(Some(5))
            && ReadAccess(Step(Step(s, calls[0]).0, calls[1]).0, 5, false) == Ok(file)
  {
    var s := State(map[3 := DirEntry(dir, Some("/data"))], 4);
    var first := PathOpen(3, "sub", true, false, true, OpenedDir(subdir));
    assert |s.entries| == 1;
    FirstKey(s);
    var t := Step(s, first).0;
    assert t == State(s.entries[4 := DirEntry(subdir, None)], 5);
    assert |t.entries| == 2;
    FirstKey(t);
  }

  lemma FirstKey(s: State<Entry>)
    requires |s.entries| < U32 && s.nextKey !in s.entries
    ensures PushKey(s) == s.nextKey
  {
    assert Probe(s.nextKey, 0) == s.nextKey;
  }

  /** Every directory in the table has a path, as the preopened ones have. */
  ghost predicate DirsHavePaths(s: State<Entry>) {
    forall fd: u32 | fd in s.entries && s.entries[fd].DirEntry? :: s.entries[fd].preopenPath.Some?
  }

  /** The call opens a directory and adds it. */
  ghost predicate AddsDirectory(s: State<Entry>, call: Call)
    requires |s.entries| < U32
  {
    exists e :: Adds(s, call, e) && e.DirEntry?
  }

  lemma StepKeepsPaths(s: State<Entry>, call: Call)
    requires |s.entries| < U32 && DirsHavePaths(s)
    ensures DirsHavePaths(Step(s, call).0) <==> !AddsDirectory(s, call)
  {
    var t := Step(s, call).0;
    forall fd: u32 | fd in t.entries && t.entries[fd].DirEntry?
      ensures t.entries[fd].preopenPath.Some? || Adds(s, call, t.entries[fd])
    {
      StepOrigin(s, call, fd);
    }
  }

  /** One of the first `n` calls of the run adds a directory. */
  ghost predicate OpensDirectory(s: State<Entry>, calls: seq<Call>, n: nat)
    requires |s.entries| < U32 && n <= |calls|
    decreases n
  {
    n > 0 && (OpensDirectory(s, calls, n - 1) || AddsDirectory(Run(s, calls, n - 1), calls[n - 1]))
  }

  /** The directories have paths at the start and after each of the first `n` calls. */
  ghost predicate PathsStay(s: State<Entry>, calls: seq<Call>, n: nat)
    requires |s.entries| < U32 && n <= |calls|
    decreases n
  {
    DirsHavePaths(Run(s, calls, n)) && (n > 0 ==> PathsStay(s, calls, n - 1))
  }

  lemma PathsNow(s: State<Entry>, calls: seq<Call>, n: nat)
    requires |s.entries| < U32 && n <= |calls| && PathsStay(s, calls, n)
    ensures DirsHavePaths(Run(s, calls, n)) && (n > 0 ==> PathsStay(s, calls, n - 1))
  {
  }

  lemma {:induction false} PathsAt(s: State<Entry>, calls: seq<Call>, n: nat, m: nat)
    requires |s.entries| < U32 && m <= n <= |calls| && PathsStay(s, calls, n)
    ensures DirsHavePaths(Run(s, calls, m))
  {
    PathsNow(s, calls, n);
    if m < n {
      PathsAt(s, calls, n - 1, m);
    }
  }

  lemma PathsAfter(s: State<Entry>, calls: seq<Call>, n: nat)
    requires |s.entries| < U32 && n < |calls| && DirsHavePaths(Run(s, calls, n))
    ensures DirsHavePaths(Run(s, calls, n + 1)) <==> !AddsDirectory(Run(s, calls, n), calls[n])
  {
    StepKeepsPaths(Run(s, calls, n), calls[n]);
  }

  /** The directories have paths throughout a run exactly when none of its calls adds a directory. */
  lemma {:induction false} PathsStayIff(s: State<Entry>, calls: seq<Call>, n: nat)
    requires |s.entries| < U32 && n <= |calls| && DirsHavePaths(s)
    ensures PathsStay(s, calls, n) <==> !OpensDirectory(s, calls, n)
  {
    if n > 0 {
      PathsStayIff(s, calls, n - 1);
      if PathsStay(s, calls, n - 1) {
        PathsAfter(s, calls, n - 1);
      }
    }
  }

  /**
   * As long as no directory is added, no call opens a file that the permission check forbids, and
   * a file that is read or written although the check forbids it was there from the start or was
   * accepted from a socket.
   */
  lemma ChecksDecide(s: State<Entry>, calls: seq<Call>, fd: u32)
    requires |s.entries| < U32 && DirsHavePaths(s) && !OpensDirectory(s, calls, |calls|)
    ensures forall i | 0 <= i < |calls| && calls[i].PathOpen? && Step(Run(s, calls, i), calls[i]).1.Ok? ::
              calls[i].allowed
    ensures var t := Run(s, calls, |calls|);
            ReadAccess(t, fd, false).Ok? || WriteAccess(t, fd, false).Ok? ==>
              || Present(s, t.entries[fd])
              || exists i: nat :: AddsAt(s, calls, i, t.entries[fd]) && calls[i].SockAccept?
  {
    PathsStayIff(s, calls, |calls|);
    forall i | 0 <= i < |calls| && calls[i].PathOpen? && Step(Run(s, calls, i), calls[i]).1.Ok?
      ensures calls[i].allowed
    {
      PathsAt(s, calls, |calls|, i);
    }
    var t := Run(s, calls, |calls|);
    if ReadAccess(t, fd, false).Ok? || WriteAccess(t, fd, false).Ok? {
      var maker := RunOrigin(s, calls, |calls|, t.entries[fd]);
      if maker.Some? && calls[maker.value].PathOpen? {
        PathsAt(s, calls, |calls|, maker.value);
        AddedPathIff(Run(s, calls, maker.value), calls[maker.value], t.entries[fd]);
        StepBinds(Run(s, calls, maker.value), calls[maker.value]);
      }
    }
  }
}
