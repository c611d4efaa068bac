/** The handle map shared by concurrent threads, as a state machine over its atomic steps. */
module HandleMap {
  import opened Common

  /** A thread that has taken a handle and not stored its instance yet. */
  datatype Insertion<T> = Insertion(handle: u32, instance: T)

  /**
   * The shared state. `contexts` maps handles to cells, as the table of reference-counted
   * instances does; a thread may keep a cell it got after the handle is gone. `issued` lists the
   * handles given out so far and `removed` those that were removed, for the record.
   */
  datatype State<T> = State(
    next: u32,
    contexts: map<u32, nat>,
    cells: seq<T>,
    inserting: map<nat, Insertion<T>>,
    issued: seq<u32>,
    removed: set<u32>)

  /** The atomic steps of the threads; an insertion takes two. */
  datatype Action<T> =
    | FetchAdd(thread: nat, instance: T)
    | LockedInsert(thread: nat)
    | Update(cell: nat, value: T)
    | Remove(handle: u32)

  /** The counter starts at 1. */
  function Init<T>(): State<T> {
    State(1, map[], [], map[], [], {})
  }

  /** A step that the thread cannot take now changes nothing. */
  function Step<T>(s: State<T>, a: Action<T>): State<T> {
    match a
    case FetchAdd(t, instance) =>
      if t in s.inserting then s
      else s.(next := (s.next + 1) % U32,
              inserting := s.inserting[t := Insertion(s.next, instance)],
              issued := s.issued + [s.next])
    case LockedInsert(t) =>
      if t !in s.inserting then s
      else s.(contexts := s.contexts[s.inserting[t].handle := |s.cells|], cells := s.cells + [s.inserting[t].instance],
              inserting := s.inserting - {t})
    case Update(cell, value) =>
      if cell < |s.cells| then s.(cells := s.cells[cell := value]) else s
    case Remove(handle) =>
      if handle in s.contexts then s.(contexts := s.contexts - {handle}, removed := s.removed + {handle}) else s
  }

  /** The instance that `get` finds under a handle, and that `remove` returns. */
  function Get<T>(s: State<T>, handle: u32): Option<T> {
    if handle in s.contexts && s.contexts[handle] < |s.cells| then Some(s.cells[s.contexts[handle]]) else None
  }

  /** The state after the first `n` steps of an interleaving. */
  function Run<T>(trace: seq<Action<T>>, n: nat): State<T>
    requires n <= |trace|
  {
    if n == 0 then Init() else Step(Run(trace, n - 1), trace[n - 1])
  }

  // ---------- the handles ----------

  ghost predicate Distinct(handles: seq<u32>) {
    forall i, j | 0 <= i < j < |handles| :: handles[i] != handles[j]
  }

  ghost predicate NonZero(handles: seq<u32>) {
    forall i | 0 <= i < |handles| :: handles[i] != 0
  }

  ghost predicate Counted<T>(s: State<T>) {
    s.next == (1 + |s.issued|) % U32 && forall i | 0 <= i < |s.issued| :: s.issued[i] == (1 + i) % U32
  }

  lemma NextInRing(n: nat)
    ensures ((1 + n) % U32 + 1) % U32 == (2 + n) % U32
  {
  }

  lemma StepCounts<T>(s: State<T>, a: Action<T>)
    requires Counted(s)
    ensures Counted(Step(s, a))
  {
    NextInRing(|s.issued|);
  }

  lemma {:induction false} RunCounts<T>(trace: seq<Action<T>>, n: nat)
    requires n <= |trace|
    ensures Counted(Run(trace, n))
  {
    if n > 0 {
      RunCounts(trace, n - 1);
      StepCounts(Run(trace, n - 1), trace[n - 1]);
    }
  }

  /** The handles given out are distinct and not zero exactly when there are fewer than 2^32 of them. */
  lemma HandlesAreFreshIff<T>(trace: seq<Action<T>>, n: nat)
    requires n <= |trace|
    ensures var issued := Run(trace, n).issued;
            Distinct(issued) && NonZero(issued) <==> |issued| < U32
  {
    RunCounts(trace, n);
    var issued := Run(trace, n).issued;
    if |issued| >= U32 {
      assert issued[U32 - 1] == (1 + (U32 - 1)) % U32 == 0;
    }
  }

  // ---------- what every step keeps ----------

  /** Handles on their way in, stored ones and removed ones were issued, and are kept apart. */
  ghost predicate Apart<T>(s: State<T>) {
    && (forall t | t in s.inserting ::
          var h := s.inserting[t].handle; h in s.issued && h !in s.contexts && h !in s.removed)
    && (forall t, u | t in s.inserting && u in s.inserting && t != u :: s.inserting[t].handle != s.inserting[u].handle)
    && (forall h | h in s.contexts :: h in s.issued && h !in s.removed)
    && (forall h | h in s.removed :: h in s.issued)
  }

  /** No two handles share a cell. */
  ghost predicate OwnCells<T>(s: State<T>) {
    && (forall h | h in s.contexts :: s.contexts[h] < |s.cells|)
    && (forall g, h | g in s.contexts && h in s.contexts && g != h :: s.contexts[g] != s.contexts[h])
  }

  lemma NextIsNew<T>(s: State<T>)
    requires Counted(s) && |s.issued| + 1 < U32
    ensures s.next !in s.issued
  {
  }

  lemma StepKeepsApart<T>(s: State<T>, a: Action<T>)
    requires Counted(s) && Apart(s) && |Step(s, a).issued| < U32
    ensures Apart(Step(s, a))
  {
    match a
    case FetchAdd(t, instance) =>
      if t !in s.inserting {
        NextIsNew(s);
      }
    case LockedInsert(t) =>
    case Update(cell, value) =>
    case Remove(h) =>
  }

  lemma StepKeepsOwnCells<T>(s: State<T>, a: Action<T>)
    requires OwnCells(s)
    ensures OwnCells(Step(s, a))
  {
  }

  lemma IssuedGrows<T>(s: State<T>, a: Action<T>)
    ensures |s.issued| <= |Step(s, a).issued| && s.removed <= Step(s, a).removed
  {
  }

  lemma {:induction false} RunKeeps<T>(trace: seq<Action<T>>, n: nat)
    requires n <= |trace|
    ensures OwnCells(Run(trace, n))
    ensures |Run(trace, n).issued| < U32 ==> Apart(Run(trace, n))
  {
    if n > 0 {
      RunKeeps(trace, n - 1);
      RunCounts(trace, n - 1);
      var s := Run(trace, n - 1);
      IssuedGrows(s, trace[n - 1]);
      StepKeepsOwnCells(s, trace[n - 1]);
      if |Run(trace, n).issued| < U32 {
        StepKeepsApart(s, trace[n - 1]);
      }
    }
  }

  lemma {:induction false} RunGrows<T>(trace: seq<Action<T>>, m: nat, n: nat)
    requires m <= n <= |trace|
    ensures |Run(trace, m).issued| <= |Run(trace, n).issued| && Run(trace, m).removed <= Run(trace, n).removed
  {
    if m < n {
      RunGrows(trace, m, n - 1);
      IssuedGrows(Run(trace, n - 1), trace[n - 1]);
    }
  }

  lemma RemoveRecords<T>(s: State<T>, h: u32)
    requires h in s.contexts
    ensures h in Step(s, Remove(h)).removed
  {
  }

  lemma RemovedIsAbsent<T>(s: State<T>, h: u32)
    requires Apart(s) && h in s.removed
    ensures Get(s, h).None?
  {
  }

  // ---------- safety over every interleaving ----------

  /** With fewer than 2^32 handles, storing an instance never replaces another one, and `get` finds it. */
  lemma InsertNeverOverwrites<T>(trace: seq<Action<T>>, n: nat)
    requires n < |trace| && trace[n].LockedInsert? && trace[n].thread in Run(trace, n).inserting
    requires |Run(trace, n).issued| < U32
    ensures var s, t := Run(trace, n), Run(trace, n + 1);
            var h := s.inserting[trace[n].thread].handle;
            && h !in s.contexts && h !in s.removed
            && Get(t, h) == Some(s.inserting[trace[n].thread].instance)
            && forall g | g in s.contexts :: Get(s, g).Some? && Get(t, g) == Get(s, g)
  {
    RunKeeps(trace, n);
  }

  /** With fewer than 2^32 handles, a handle that was removed is never found again. */
  lemma RemovedStaysRemoved<T>(trace: seq<Action<T>>, m: nat, n: nat)
    requires m < n <= |trace| && trace[m].Remove? && Get(Run(trace, m), trace[m].handle).Some?
    requires |Run(trace, n).issued| < U32
    ensures Get(Run(trace, n), trace[m].handle).None?
  {
    var h := trace[m].handle;
    RemoveRecords(Run(trace, m), h);
    assert Run(trace, m + 1) == Step(Run(trace, m), Remove(h));
    RunGrows(trace, m + 1, n);
    RunKeeps(trace, n);
    RemovedIsAbsent(Run(trace, n), h);
  }

  /**
   * The bound is sharp: after 2^32 insertions the counter is back at the first handle, and if that
   * one is still stored, the next insertion replaces its instance.
   */
  lemma WrappedHandleReturns<T>(trace: seq<Action<T>>, n: nat, thread: nat, instance: T)
    requires n <= |trace| && |Run(trace, n).issued| == U32 && thread !in Run(trace, n).inserting
    ensures var s := Run(trace, n);
            var t := Step(Step(s, FetchAdd(thread, instance)), LockedInsert(thread));
            && s.next == s.issued[0] == 1
            && (1 in s.contexts ==> t.contexts.Keys == s.contexts.Keys && Get(t, 1) == Some(instance))
  {
    RunCounts(trace, n);
  }

  /** One thread that inserts `count` instances, `last` as the last one and `first` before it. */
  function Insertions<T>(first: T, last: T, count: nat): (trace: seq<Action<T>>)
    ensures |trace| == 2 * count
  {
    seq(2 * count, i =>
          if i % 2 == 1 then LockedInsert(0) else FetchAdd(0, if i == 2 * count - 2 then last else first))
  }

  /** `first` is stored under handle 1, and `n` handles were given out. */
  ghost predicate FirstIsStored<T>(s: State<T>, n: nat, first: T) {
    && |s.issued| == n && s.inserting == map[]
    && (n > 0 ==> 1 in s.contexts && s.contexts[1] == 0 && s.cells != [] && s.cells[0] == first)
  }

  lemma OneMoreInsertion<T>(s: State<T>, n: nat, first: T)
    requires Counted(s) && FirstIsStored(s, n, first) && n < U32
    requires n == 0 ==> s.cells == []
    ensures FirstIsStored(Step(Step(s, FetchAdd(0, first)), LockedInsert(0)), n + 1, first)
  {
    assert s.next == (1 + n) % U32;
  }

  /** The instance under the first handle is still there after `n` of no more than 2^32 insertions. */
  lemma {:induction false} InsertionsRun<T>(first: T, last: T, count: nat, n: nat)
    requires n < count <= U32 + 1
    ensures FirstIsStored(Run(Insertions(first, last, count), 2 * n), n, first)
  {
    if n > 0 {
      var trace := Insertions(first, last, count);
      InsertionsRun(first, last, count, n - 1);
      RunCounts(trace, 2 * n - 2);
      OneMoreInsertion(Run(trace, 2 * n - 2), n - 1, first);
      assert trace[2 * n - 2] == FetchAdd(0, first) && trace[2 * n - 1] == LockedInsert(0);
      assert Run(trace, 2 * n - 1) == Step(Run(trace, 2 * n - 2), trace[2 * n - 2]);
      assert Run(trace, 2 * n) == Step(Run(trace, 2 * n - 1), trace[2 * n - 1]);
    }
  }

  /** A run in which 2^32 instances are inserted and none is removed; the next one replaces the first. */
  lemma FirstInstanceIsReplaced<T>(first: T, last: T)
    ensures var trace := Insertions(first, last, U32 + 1);
            && |Run(trace, 2 * U32).issued| == U32
            && Get(Run(trace, 2 * U32), 1) == Some(first) && Get(Run(trace, 2 * U32 + 2), 1) == Some(last)
  {
    var trace := Insertions(first, last, U32 + 1);
    InsertionsRun(first, last, U32 + 1, U32);
    RunCounts(trace, 2 * U32);
    var s := Run(trace, 2 * U32);
    assert trace[2 * U32] == FetchAdd(0, last) && trace[2 * U32 + 1] == LockedInsert(0);
    assert Run(trace, 2 * U32 + 1) == Step(s, FetchAdd(0, last));
    assert Run(trace, 2 * U32 + 2) == Step(Run(trace, 2 * U32 + 1), LockedInsert(0));
  }

  /** A step changes what is stored under a handle only if it stores it, updates its cell or removes it. */
  lemma StepsDoNotInterfere<T>(trace: seq<Action<T>>, n: nat, h: u32)
    requires n < |trace| && h in Run(trace, n).contexts && |Run(trace, n).issued| < U32
    requires trace[n] != Remove(h)
    requires forall v :: trace[n] != Update(Run(trace, n).contexts[h], v)
    ensures Get(Run(trace, n), h).Some? && Get(Run(trace, n + 1), h) == Get(Run(trace, n), h)
  {
    RunKeeps(trace, n);
    if trace[n].Update? {
      assert trace[n] == Update(trace[n].cell, trace[n].value);
    }
  }

  /** Updating through one handle leaves what is stored under every other handle. */
  lemma UpdateTouchesOneHandle<T>(trace: seq<Action<T>>, n: nat, g: u32, h: u32)
    requires n < |trace| && g in Run(trace, n).contexts && h in Run(trace, n).contexts && g != h
    requires trace[n].Update? && trace[n].cell == Run(trace, n).contexts[g]
    ensures var s, t := Run(trace, n), Run(trace, n + 1);
            Get(t, g) == Some(trace[n].value) && Get(t, h) == Get(s, h)
  {
    RunKeeps(trace, n);
  }

  // ---------- the map itself ----------

  /** The handle map; each method is one atomic step, as the counter and the lock make it. */
  class HandleMap<T> {
    var nextHandle: u32
    var contexts: map<u32, nat>
    var cells: seq<T>
    ghost var inserting: map<nat, Insertion<T>>
    ghost var issued: seq<u32>
    ghost var removed: set<u32>

    ghost function Abs(): State<T>
      reads this
    {
      State(nextHandle, contexts, cells, inserting, issued, removed)
    }

    constructor ()
      ensures Abs() == Init()
    {
      nextHandle, contexts, cells := 1, map[], [];
      inserting, issued, removed := map[], [], {};
    }

    /** `generate_handle`, at the start of an insertion by `thread` */
    method GenerateHandle(ghost thread: nat, instance: T) returns (handle: u32)
      requires thread !in inserting
      modifies this
      ensures Abs() == Step(old(Abs()), FetchAdd(thread, instance)) && inserting[thread] == Insertion(handle, instance)
    {
      handle := nextHandle;
      nextHandle := (nextHandle + 1) % U32;
      inserting := inserting[thread := Insertion(handle, instance)];
      issued := issued + [handle];
    }

    /** The rest of `insert`, under the lock */
    method StoreInstance(ghost thread: nat, handle: u32, instance: T)
      requires thread in inserting && inserting[thread] == Insertion(handle, instance)
      modifies this
      ensures Abs() == Step(old(Abs()), LockedInsert(thread))
    {
      contexts := contexts[handle := |cells|];
      cells := cells + [instance];
      inserting := inserting - {thread};
    }

    /** `remove` returns the instance as it is now, even if other threads still hold it */
    method RemoveInstance(handle: u32) returns (r: Option<T>)
      requires OwnCells(Abs())
      modifies this
      ensures Abs() == Step(old(Abs()), Remove(handle)) && r == Get(old(Abs()), handle)
    {
      if handle !in contexts {
        return None;
      }
      r := Some(cells[contexts[handle]]);
      contexts := contexts - {handle};
      removed := removed + {handle};
    }

    /** `with_instance_mut` on a cell that `get` returned */
    method WithInstanceMut(cell: nat, f: T -> T)
      requires cell < |cells|
      modifies this
      ensures Abs() == Step(old(Abs()), Update(cell, f(old(cells)[cell])))
    {
      cells := cells[cell := f(cells[cell])];
    }
  }
}
