/** The descriptors a module starts with: stdio, preopened directories and listening sockets. */
module StartUp {
  import opened Common
  import opened Tables
  import opened Descriptors

  /** A directory to preopen; `opening` is what opening it on the host gives. */
  datatype Preopen = Preopen(guest: string, opening: Result<nat, Error>)

  /** A listener with the descriptor number asked for, if any; `binding` is what binding it gives. */
  datatype Listen = Listen(fd: Option<u32>, binding: Result<nat, Error>)

  /** The files put at descriptors 0, 1 and 2. */
  datatype Stdio = Stdio(input: nat, output: nat, errors: nat)

  datatype StartError = HostError(error: Error) | InvalidListenFd(fd: u32)

  // ---------- the preopened directories ----------

  ghost predicate Openable(dirs: seq<Preopen>, n: nat) {
    n <= |dirs| && forall i | 0 <= i < n :: dirs[i].opening.Ok?
  }

  function DirectoryOf(d: Preopen): Entry
    requires d.opening.Ok?
  {
    DirEntry(d.opening.value, Some(d.guest))
  }

  /** The first `n` directories, in configuration order. */
  function Preopened(dirs: seq<Preopen>, n: nat): (r: seq<Entry>)
    requires Openable(dirs, n)
    ensures |r| == n && forall i | 0 <= i < n :: r[i] == DirectoryOf(dirs[i])
  {
    if n == 0 then [] else Preopened(dirs, n - 1) + [DirectoryOf(dirs[n - 1])]
  }

  /** The directories in configuration order, the root last. */
  function Preopens(dirs: seq<Preopen>, root: Option<nat>): seq<Entry>
    requires Openable(dirs, |dirs|)
  {
    Preopened(dirs, |dirs|) + (if root.Some? then [DirEntry(root.value, Some("/"))] else [])
  }

  function StdioEntries(stdio: Stdio): map<u32, Entry> {
    map[0 := FileEntry(stdio.input, Mode(true, false), None),
        1 := FileEntry(stdio.output, Mode(false, true), None),
        2 := FileEntry(stdio.errors, Mode(false, true), None)]
  }

  /** Stdio, then `entries` from descriptor 3 on, and nothing else. */
  function Layout(stdio: Stdio, entries: seq<Entry>): (m: map<u32, Entry>)
    requires 3 + |entries| <= U32
    ensures forall fd: u32 :: fd in m <==> fd < 3 + |entries|
  {
    map fd: u32 | 0 <= fd < 3 + |entries| :: if fd < 3 then StdioEntries(stdio)[fd] else entries[fd - 3]
  }

  /** The table holds exactly this layout, and the next key follows it. */
  ghost predicate LaidOut(s: State<Entry>, stdio: Stdio, entries: seq<Entry>) {
    3 + |entries| < U32 && s == State(Layout(stdio, entries), 3 + |entries|)
  }

  lemma {:induction false} IntervalSize(keys: set<u32>, n: nat)
    requires n <= U32 && forall k: u32 :: k in keys <==> k < n
    ensures |keys| == n
  {
    if n == 0 {
      assert keys == {};
    } else {
      IntervalSize(keys - {n - 1}, n - 1);
    }
  }

  /** A push onto a table without gaps appends. */
  lemma PushAppends(s: State<Entry>, stdio: Stdio, entries: seq<Entry>, e: Entry)
    requires LaidOut(s, stdio, entries)
    ensures |s.entries| == 3 + |entries|
    ensures if |s.entries| == U32 - 1 then AfterPush(s, e) == (s, Err(NoFreeKeys))
            else AfterPush(s, e).1.Ok? && LaidOut(AfterPush(s, e).0, stdio, entries + [e])
  {
    IntervalSize(s.entries.Keys, 3 + |entries|);
    assert Probe(s.nextKey, 0) == s.nextKey;
    if |s.entries| < U32 - 1 {
      assert s.entries[3 + |entries| := e] == Layout(stdio, entries + [e]);
    }
  }

  /** The error of the first directory that cannot be opened. */
  ghost predicate FirstPreopenError(dirs: seq<Preopen>, i: nat, e: StartError) {
    && i < |dirs| && Openable(dirs, i)
    && dirs[i].opening.Err? && e == HostError(dirs[i].opening.error)
  }

  /** `push_preopened_dir`: a push, which on a table without gaps appends. */
  method PushPreopenedDir(table: Table<Entry>, dir: nat, path: string, ghost stdio: Stdio, ghost entries: seq<Entry>)
    returns (r: Result<(), Error>)
    requires LaidOut(table.Abs(), stdio, entries)
    modifies table
    ensures r.Ok? <==> 3 + |entries| < U32 - 1
    ensures r.Ok? ==> LaidOut(table.Abs(), stdio, entries + [DirEntry(dir, Some(path))])
  {
    PushAppends(table.Abs(), stdio, entries, DirEntry(dir, Some(path)));
    var pushed, probes := table.Push(DirEntry(dir, Some(path)));
    return if pushed.Ok? then Ok(()) else Err(pushed.error);
  }

  /** The loops of the builder that preopen the directories and then the root. */
  method PreopenDirs(table: Table<Entry>, dirs: seq<Preopen>, root: Option<nat>, ghost stdio: Stdio)
    returns (r: Result<u32, StartError>, ghost failed: nat)
    requires LaidOut(table.Abs(), stdio, [])
    modifies table
    ensures r.Ok? ==>
              && Openable(dirs, |dirs|)
              && LaidOut(table.Abs(), stdio, Preopens(dirs, root))
              && r.value == table.nextKey
    ensures 4 + |dirs| < U32 && r.Err? ==> FirstPreopenError(dirs, failed, r.error)
  {
    failed := 0;
    var maxFd := 3;
    for i := 0 to |dirs|
      invariant maxFd == 3 + i < U32
      invariant Openable(dirs, i)
      invariant LaidOut(table.Abs(), stdio, Preopened(dirs, i))
    {
      if dirs[i].opening.Err? {
        return Err(HostError(dirs[i].opening.error)), i;
      }
      var pushed := PushPreopenedDir(table, dirs[i].opening.value, dirs[i].guest, stdio, Preopened(dirs, i));
      if pushed.Err? {
        return Err(HostError(pushed.error)), failed;
      }
      maxFd := maxFd + 1;
    }
    if root.Some? {
      var pushed := PushPreopenedDir(table, root.value, "/", stdio, Preopened(dirs, |dirs|));
      if pushed.Err? {
        return Err(HostError(pushed.error)), failed;
      }
      maxFd := maxFd + 1;
    } else {
      assert Preopens(dirs, root) == Preopened(dirs, |dirs|);
    }
    return Ok(maxFd), failed;
  }

  // ---------- the listening sockets ----------

  /** How many of the first `n` listeners ask for no particular descriptor. */
  function Implicit(listens: seq<Listen>, n: nat): nat
    requires n <= |listens|
  {
    if n == 0 then 0 else Implicit(listens, n - 1) + (if listens[n - 1].fd.None? then 1 else 0)
  }

  /** The descriptor number of listener `i`; only listeners without a number of their own use up numbers. */
  function Number(listens: seq<Listen>, first: nat, i: nat): nat
    requires i < |listens|
  {
    if listens[i].fd.Some? then listens[i].fd.value else first + Implicit(listens, i)
  }

  /** A requested number may not lie below the numbers used up so far. */
  predicate Acceptable(listens: seq<Listen>, first: nat, i: nat)
    requires i < |listens|
  {
    listens[i].fd.Some? ==> listens[i].fd.value >= first + Implicit(listens, i)
  }

  function Socket(l: Listen): Entry
    requires l.binding.Ok?
  {
    FileEntry(l.binding.value, Mode(true, true), None)
  }

  /** The listener can be set up: its number is acceptable and the host binds it. */
  ghost predicate Bound(listens: seq<Listen>, first: nat, i: nat)
    requires i < |listens|
  {
    Acceptable(listens, first, i) && listens[i].binding.Ok? && Number(listens, first, i) < U32
  }

  ghost predicate AllBound(listens: seq<Listen>, first: nat, n: nat)
    requires n <= |listens|
  {
    forall i | 0 <= i < n :: Bound(listens, first, i)
  }

  /** The entries after the first `n` listeners, put in one after the other. */
  function Bind(before: map<u32, Entry>, listens: seq<Listen>, first: nat, n: nat): map<u32, Entry>
    requires n <= |listens| && AllBound(listens, first, n)
  {
    if n == 0 then before
    else
      assert Bound(listens, first, n - 1);
      Bind(before, listens, first, n - 1)[Number(listens, first, n - 1) := Socket(listens[n - 1])]
  }

  /** A number no listener gets keeps what it held. */
  lemma {:induction false} BindKeeps(before: map<u32, Entry>, listens: seq<Listen>, first: nat, n: nat, fd: u32)
    requires n <= |listens| && AllBound(listens, first, n)
    requires forall i | 0 <= i < n :: Number(listens, first, i) != fd
    ensures fd in Bind(before, listens, first, n) <==> fd in before
    ensures fd in before ==> Bind(before, listens, first, n)[fd] == before[fd]
  {
    if n > 0 {
      BindKeeps(before, listens, first, n - 1, fd);
    }
  }

  /** A number holds the last listener that got it. */
  lemma {:induction false} BindHolds(before: map<u32, Entry>, listens: seq<Listen>, first: nat, n: nat, i: nat)
    requires i < n <= |listens| && AllBound(listens, first, n) && Bound(listens, first, i)
    requires forall j | i < j < n :: Number(listens, first, j) != Number(listens, first, i)
    ensures var after := Bind(before, listens, first, n);
            Number(listens, first, i) in after && after[Number(listens, first, i)] == Socket(listens[i])
  {
    if i < n - 1 {
      BindHolds(before, listens, first, n - 1, i);
    }
  }

  /** The error of the first listener that cannot be set up. */
  ghost predicate FirstListenError(listens: seq<Listen>, first: nat, i: nat, e: StartError) {
    && i < |listens| && AllBound(listens, first, i)
    && if !Acceptable(listens, first, i) then e == InvalidListenFd(listens[i].fd.value)
       else listens[i].binding.Err? && e == HostError(listens[i].binding.error)
  }

  method BindListeners(table: Table<Entry>, listens: seq<Listen>, first: u32)
    returns (r: Result<(), StartError>, ghost failed: nat)
    requires first + |listens| < U32
    modifies table
    ensures r.Ok? ==>
              && AllBound(listens, first, |listens|)
              && table.Abs() == State(Bind(old(table.entries), listens, first, |listens|), old(table.nextKey))
    ensures r.Err? ==> FirstListenError(listens, first, failed, r.error)
  {
    failed := 0;
    var maxFd: u32 := first;
    for i := 0 to |listens|
      invariant maxFd == first + Implicit(listens, i) <= first + i
      invariant AllBound(listens, first, i)
      invariant table.Abs() == State(Bind(old(table.entries), listens, first, i), old(table.nextKey))
    {
      failed := i;
      var fd: u32;
      if listens[i].fd.Some? {
        if listens[i].fd.value < maxFd {
          return Err(InvalidListenFd(listens[i].fd.value)), failed;
        }
        fd := listens[i].fd.value;
      } else {
        fd := maxFd;
        maxFd := maxFd + 1;
      }
      if listens[i].binding.Err? {
        return Err(HostError(listens[i].binding.error)), failed;
      }
      table.InsertAt(fd, FileEntry(listens[i].binding.value, Mode(true, true), None));
    }
    return Ok(()), failed;
  }

  // ---------- which listeners survive ----------

  lemma {:induction false} ImplicitGrows(listens: seq<Listen>, m: nat, n: nat)
    requires m <= n <= |listens|
    ensures Implicit(listens, m) <= Implicit(listens, n)
    ensures m < n && listens[m].fd.None? ==> Implicit(listens, m) < Implicit(listens, n)
  {
    if m < n {
      ImplicitGrows(listens, m, n - 1);
    }
  }

  /** Every number below the count of implicit listeners is used up by one of them. */
  lemma {:induction false} ImplicitTakes(listens: seq<Listen>, n: nat, k: nat) returns (i: nat)
    requires n <= |listens| && k < Implicit(listens, n)
    ensures i < n && listens[i].fd.None? && Implicit(listens, i) == k
  {
    if k < Implicit(listens, n - 1) {
      i := ImplicitTakes(listens, n - 1, k);
    } else {
      i := n - 1;
    }
  }

  /** The listeners before `n` that ask for no particular descriptor. */
  ghost function Unnumbered(listens: seq<Listen>, n: nat): set<nat>
    requires n <= |listens|
  {
    set k: nat | k < n && listens[k].fd.None?
  }

  lemma {:induction false} ImplicitCounts(listens: seq<Listen>, n: nat)
    requires n <= |listens|
    ensures Implicit(listens, n) == |Unnumbered(listens, n)|
  {
    if n > 0 {
      ImplicitCounts(listens, n - 1);
      if listens[n - 1].fd.None? {
        assert Unnumbered(listens, n) == Unnumbered(listens, n - 1) + {n - 1};
      } else {
        assert Unnumbered(listens, n) == Unnumbered(listens, n - 1);
      }
    } else {
      assert Unnumbered(listens, 0) == {};
    }
  }

  /** When none asks for a particular descriptor, the listeners get those from `first` on, in order. */
  lemma {:induction false} NumbersInARow(listens: seq<Listen>, first: nat, i: nat)
    requires i < |listens| && forall k | 0 <= k <= i :: listens[k].fd.None?
    ensures Number(listens, first, i) == first + i
  {
    if i > 0 {
      NumbersInARow(listens, first, i - 1);
    }
  }

  ghost predicate NumbersDiffer(listens: seq<Listen>, first: nat) {
    forall i, j | 0 <= i < j < |listens| :: Number(listens, first, i) != Number(listens, first, j)
  }

  /** The requested numbers differ, and lie above all the numbers the other listeners use up. */
  ghost predicate RequestsApart(listens: seq<Listen>, first: nat) {
    && (forall i, j | 0 <= i < j < |listens| && listens[i].fd.Some? && listens[j].fd.Some? ::
          listens[i].fd.value != listens[j].fd.value)
    && (forall i | 0 <= i < |listens| && listens[i].fd.Some? ::
          listens[i].fd.value >= first + Implicit(listens, |listens|))
  }

  lemma LowRequestCollides(listens: seq<Listen>, first: nat, i: nat)
    requires i < |listens| && listens[i].fd.Some? && Acceptable(listens, first, i)
    requires listens[i].fd.value < first + Implicit(listens, |listens|)
    ensures !NumbersDiffer(listens, first)
  {
    var j := ImplicitTakes(listens, |listens|, listens[i].fd.value - first);
    var low, high := if i < j then i else j, if i < j then j else i;
    assert Number(listens, first, low) == Number(listens, first, high);
  }

  /** Accepted listeners get different numbers exactly when the requested numbers keep apart from all others. */
  lemma NumbersDifferIff(listens: seq<Listen>, first: nat)
    requires AllBound(listens, first, |listens|)
    ensures NumbersDiffer(listens, first) <==> RequestsApart(listens, first)
  {
    if RequestsApart(listens, first) {
      forall i, j | 0 <= i < j < |listens| ensures Number(listens, first, i) != Number(listens, first, j) {
        ImplicitGrows(listens, i, j);
        ImplicitGrows(listens, i, |listens|);
        ImplicitGrows(listens, j, |listens|);
      }
    }
    if NumbersDiffer(listens, first) {
      forall i, j | 0 <= i < j < |listens| && listens[i].fd.Some? && listens[j].fd.Some?
        ensures listens[i].fd.value != listens[j].fd.value
      {
        assert Number(listens, first, i) != Number(listens, first, j);
      }
      forall i | 0 <= i < |listens| && listens[i].fd.Some?
        ensures listens[i].fd.value >= first + Implicit(listens, |listens|)
      {
        assert Bound(listens, first, i);
        if listens[i].fd.value < first + Implicit(listens, |listens|) {
          LowRequestCollides(listens, first, i);
        }
      }
    }
  }

  /** Every listener can be reached at its own number. */
  ghost predicate AllReachable(after: map<u32, Entry>, listens: seq<Listen>, first: nat)
  {
    forall i | 0 <= i < |listens| && Bound(listens, first, i) ::
      Number(listens, first, i) in after && after[Number(listens, first, i)] == Socket(listens[i])
  }

  /** No listener is lost exactly when the requested numbers keep apart from all others. */
  lemma ListenersSurviveIff(before: map<u32, Entry>, listens: seq<Listen>, first: nat)
    requires AllBound(listens, first, |listens|)
    requires forall i, j | 0 <= i < j < |listens| :: listens[i].binding != listens[j].binding
    ensures AllReachable(Bind(before, listens, first, |listens|), listens, first) <==> RequestsApart(listens, first)
  {
    var after := Bind(before, listens, first, |listens|);
    NumbersDifferIff(listens, first);
    if NumbersDiffer(listens, first) {
      forall i | 0 <= i < |listens| && Bound(listens, first, i)
        ensures Number(listens, first, i) in after && after[Number(listens, first, i)] == Socket(listens[i])
      {
        BindHolds(before, listens, first, |listens|, i);
      }
    }
    if AllReachable(after, listens, first) {
      forall i, j | 0 <= i < j < |listens| ensures Number(listens, first, i) != Number(listens, first, j) {
        assert Bound(listens, first, i) && Bound(listens, first, j);
        assert Socket(listens[i]) != Socket(listens[j]);
      }
    }
  }

  /** A listener that asked for descriptor 3 is lost when the next one asks for none. */
  lemma ListenerLost(a: nat, b: nat)
    requires a != b
    ensures var listens := [Listen(Some(3), Ok(a)), Listen(None, Ok(b))];
            && (forall i | 0 <= i < 2 :: Acceptable(listens, 3, i))
            && Number(listens, 3, 0) == Number(listens, 3, 1)
            && !RequestsApart(listens, 3)
  {
    var listens := [Listen(Some(3), Ok(a)), Listen(None, Ok(b))];
    assert Implicit(listens, 0) == 0 && Implicit(listens, 1) == 0 && Implicit(listens, 2) == 1;
    assert listens[0].fd.Some?;
  }

  /** No accepted listener replaces stdio or a preopened directory. */
  lemma ListenersKeepRest(stdio: Stdio, entries: seq<Entry>, listens: seq<Listen>, fd: u32)
    requires 3 + |entries| < U32 && AllBound(listens, 3 + |entries|, |listens|)
    ensures var after := Bind(Layout(stdio, entries), listens, 3 + |entries|, |listens|);
            && (fd < 3 ==> fd in after && after[fd] == StdioEntries(stdio)[fd])
            && (3 <= fd < 3 + |entries| ==> fd in after && after[fd] == entries[fd - 3])
  {
    var first := 3 + |entries|;
    if fd < first {
      forall i | 0 <= i < |listens| ensures Number(listens, first, i) != fd {
        assert Bound(listens, first, i);
      }
      BindKeeps(Layout(stdio, entries), listens, first, |listens|, fd);
    }
  }

  /** No later push takes the descriptor of a listener, or of anything else that is live. */
  lemma PushKeepsLive(s: State<Entry>, e: Entry, fd: u32)
    requires |s.entries| < U32 && fd in s.entries
    ensures var (t, r) := AfterPush(s, e);
            r != Ok(fd) && fd in t.entries && t.entries[fd] == s.entries[fd]
  {
    assert PushKey(s) !in s.entries;
  }

  // ---------- the builder ----------

  /** The configured file, or the pipe a new context starts with. */
  function Configured(pipe: nat, chosen: Option<nat>): nat {
    if chosen.Some? then chosen.value else pipe
  }

  function ConfiguredStdio(pipes: Stdio, input: Option<nat>, output: Option<nat>, errors: Option<nat>): Stdio {
    Stdio(Configured(pipes.input, input), Configured(pipes.output, output), Configured(pipes.errors, errors))
  }

  lemma StdioLayout(stdio: Stdio)
    ensures Layout(stdio, []) == StdioEntries(stdio)
  {
  }

  lemma StdioUpdates(stdio: Stdio, file: nat)
    ensures StdioEntries(stdio)[0 := FileEntry(file, Mode(true, false), None)] == StdioEntries(stdio.(input := file))
    ensures StdioEntries(stdio)[1 := FileEntry(file, Mode(false, true), None)] == StdioEntries(stdio.(output := file))
    ensures StdioEntries(stdio)[2 := FileEntry(file, Mode(false, true), None)] == StdioEntries(stdio.(errors := file))
  {
  }

  /** A new context, whose stdio pipes are replaced by the configured files. */
  method NewContext(pipes: Stdio, input: Option<nat>, output: Option<nat>, errors: Option<nat>)
    returns (table: Table<Entry>)
    ensures fresh(table) && LaidOut(table.Abs(), ConfiguredStdio(pipes, input, output, errors), [])
  {
    table := new Table<Entry>();
    table.InsertAt(0, FileEntry(pipes.input, Mode(true, false), None));
    table.InsertAt(1, FileEntry(pipes.output, Mode(false, true), None));
    table.InsertAt(2, FileEntry(pipes.errors, Mode(false, true), None));
    ghost var stdio := pipes;
    assert table.entries == StdioEntries(stdio);
    if output.Some? {
      StdioUpdates(stdio, output.value);
      stdio := stdio.(output := output.value);
      table.InsertAt(1, FileEntry(output.value, Mode(false, true), None));
    }
    if errors.Some? {
      StdioUpdates(stdio, errors.value);
      stdio := stdio.(errors := errors.value);
      table.InsertAt(2, FileEntry(errors.value, Mode(false, true), None));
    }
    if input.Some? {
      StdioUpdates(stdio, input.value);
      stdio := stdio.(input := input.value);
      table.InsertAt(0, FileEntry(input.value, Mode(true, false), None));
    }
    StdioLayout(stdio);
  }

  /**
   * What the module finds behind its descriptors: its input, which it may read, its output and its
   * errors, which it may write; then the directories under their guest paths, in order, and the
   * root; and the listeners, if their requests keep apart, at their numbers.
   */
  lemma ModuleFinds(pipes: Stdio, input: Option<nat>, output: Option<nat>, errors: Option<nat>,
                    dirs: seq<Preopen>, root: Option<nat>, listens: seq<Listen>, first: nat)
    returns (t: map<u32, Entry>)
    requires Openable(dirs, |dirs|) && 4 + |dirs| < U32
    requires first == 3 + |dirs| + (if root.Some? then 1 else 0) && AllBound(listens, first, |listens|)
    ensures 3 + |Preopens(dirs, root)| == first
    ensures t == Bind(Layout(ConfiguredStdio(pipes, input, output, errors), Preopens(dirs, root)), listens, first,
                      |listens|)
    ensures 0 in t && t[0] == FileEntry(if input.Some? then input.value else pipes.input, Mode(true, false), None)
    ensures 1 in t && t[1] == FileEntry(if output.Some? then output.value else pipes.output, Mode(false, true), None)
    ensures 2 in t && t[2] == FileEntry(if errors.Some? then errors.value else pipes.errors, Mode(false, true), None)
    ensures forall i | 0 <= i < |dirs| ::
              3 + i in t && dirs[i].opening.Ok? && t[3 + i] == DirEntry(dirs[i].opening.value, Some(dirs[i].guest))
    ensures root.Some? ==> 3 + |dirs| in t && t[3 + |dirs|] == DirEntry(root.value, Some("/"))
    ensures RequestsApart(listens, first) ==>
              forall i | 0 <= i < |listens| ::
                Bound(listens, first, i) && Number(listens, first, i) in t
                && t[Number(listens, first, i)] == FileEntry(listens[i].binding.value, Mode(true, true), None)
  {
    var entries := Preopens(dirs, root);
    var stdio := ConfiguredStdio(pipes, input, output, errors);
    t := Bind(Layout(stdio, entries), listens, first, |listens|);
    forall fd: u32 | fd < first ensures fd in t && t[fd] == Layout(stdio, entries)[fd] {
      ListenersKeepRest(stdio, entries, listens, fd);
    }
    StdioFound(t, stdio, entries);
    DirectoriesFound(t, stdio, dirs, root);
    if RequestsApart(listens, first) {
      ListenersFound(Layout(stdio, entries), listens, first);
    }
  }

  lemma StdioFound(t: map<u32, Entry>, stdio: Stdio, entries: seq<Entry>)
    requires 3 + |entries| < U32
    requires forall fd: u32 | fd < 3 + |entries| :: fd in t && t[fd] == Layout(stdio, entries)[fd]
    ensures 0 in t && t[0] == FileEntry(stdio.input, Mode(true, false), None)
    ensures 1 in t && t[1] == FileEntry(stdio.output, Mode(false, true), None)
    ensures 2 in t && t[2] == FileEntry(stdio.errors, Mode(false, true), None)
  {
  }

  lemma DirectoriesFound(t: map<u32, Entry>, stdio: Stdio, dirs: seq<Preopen>, root: Option<nat>)
    requires Openable(dirs, |dirs|) && 4 + |dirs| < U32 && |Preopens(dirs, root)| <= |dirs| + 1
    requires forall fd: u32 | fd < 3 + |Preopens(dirs, root)| ::
               fd in t && t[fd] == Layout(stdio, Preopens(dirs, root))[fd]
    ensures forall i | 0 <= i < |dirs| ::
              3 + i in t && dirs[i].opening.Ok? && t[3 + i] == DirEntry(dirs[i].opening.value, Some(dirs[i].guest))
    ensures root.Some? ==> 3 + |dirs| in t && t[3 + |dirs|] == DirEntry(root.value, Some("/"))
  {
    forall i | 0 <= i < |dirs|
      ensures 3 + i in t && dirs[i].opening.Ok? && t[3 + i] == DirEntry(dirs[i].opening.value, Some(dirs[i].guest))
    {
      assert Preopens(dirs, root)[i] == Preopened(dirs, |dirs|)[i] == DirectoryOf(dirs[i]);
    }
  }

  lemma ListenersFound(before: map<u32, Entry>, listens: seq<Listen>, first: nat)
    requires AllBound(listens, first, |listens|) && RequestsApart(listens, first)
    ensures var t := Bind(before, listens, first, |listens|);
            forall i | 0 <= i < |listens| ::
              Bound(listens, first, i) && Number(listens, first, i) in t
              && t[Number(listens, first, i)] == FileEntry(listens[i].binding.value, Mode(true, true), None)
  {
    NumbersDifferIff(listens, first);
    forall i | 0 <= i < |listens|
      ensures Bound(listens, first, i) && Number(listens, first, i) in Bind(before, listens, first, |listens|)
              && Bind(before, listens, first, |listens|)[Number(listens, first, i)] == Socket(listens[i])
    {
      BindHolds(before, listens, first, |listens|, i);
    }
  }

  /** The part of `preview1_builder` that numbers descriptors. */
  method BuildDescriptors(pipes: Stdio, input: Option<nat>, output: Option<nat>, errors: Option<nat>,
                          dirs: seq<Preopen>, root: Option<nat>, listens: seq<Listen>)
    returns (table: Table<Entry>, r: Result<(), StartError>, ghost failed: nat)
    requires 4 + |dirs| + |listens| < U32
    ensures r.Ok? ==>
              && Openable(dirs, |dirs|)
              && var entries := Preopens(dirs, root);
              var before := Layout(ConfiguredStdio(pipes, input, output, errors), entries);
              && AllBound(listens, 3 + |entries|, |listens|)
              && table.Abs() == State(Bind(before, listens, 3 + |entries|, |listens|), 3 + |entries|)
    ensures r.Err? ==>
              || FirstPreopenError(dirs, failed, r.error)
              || (Openable(dirs, |dirs|)
                  && FirstListenError(listens, 3 + |Preopens(dirs, root)|, failed, r.error))
  {
    failed := 0;
    table := NewContext(pipes, input, output, errors);
    ghost var stdio := ConfiguredStdio(pipes, input, output, errors);
    var maxFd;
    maxFd, failed := PreopenDirs(table, dirs, root, stdio);
    if maxFd.Err? {
      return table, Err(maxFd.error), failed;
    }
    r, failed := BindListeners(table, listens, maxFd.value);
  }
}
