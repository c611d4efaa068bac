/** Calls between modules: bytes move between two linear memories through the callee's allocator. */
module Mcall {
  import opened Common

  type i32 = n: int | -0x8000_0000 <= n < 0x8000_0000

  datatype McallError = NoFailure | AllocError | DeallocError | MCallError

  function Code(e: McallError): u32 {
    match e
    case NoFailure => 0
    case AllocError => 2
    case DeallocError => 3
    case MCallError => 4
  }

  /** A pointer as an unsigned address. */
  function Address(p: i32): (at: u32)
    ensures (at - p) % 0x1_0000_0000 == 0
  {
    if p < 0 then p + U32 else p
  }

  /** The callee: its linear memory, which it may also grow, and whatever else it remembers. */
  datatype Callee<G> = Callee(memory: seq<byte>, globals: G)

  /** The callee's exported functions; each may do anything to the callee, and may trap. */
  datatype Exports<!G> = Exports(
    alloc: (Callee<G>, u32) -> (Callee<G>, Option<i32>),
    dealloc: (Callee<G>, i32, u32) -> (Callee<G>, bool),
    call: (Callee<G>, i32, u32, i32, u32) -> (Callee<G>, bool))

  /** What the callee is asked to do, and whether it did not trap. */
  datatype Event =
    | Allocated(len: u32, granted: Option<i32>)
    | Called(ptr: i32, len: u32, resultPtr: i32, resultLen: u32, ok: bool)
    | Deallocated(ptr: i32, len: u32, ok: bool)

  datatype Outcome = Returned(code: u32) | Panicked

  /** The range lies in the memory. */
  predicate InMemory(memory: seq<byte>, at: nat, len: nat) {
    at + len <= |memory|
  }

  // ---------- one call ----------

  datatype Effect<G> = Effect(outcome: Outcome, callee: Callee<G>, caller: seq<byte>, log: seq<Event>)

  /** The two deallocations at the end; the first error is the one that is reported. */
  function Release<G>(x: Exports<G>, s: Callee<G>, caller: seq<byte>, log: seq<Event>, e: McallError,
                      ptr: i32, len: u32, resultPtr: i32, resultLen: u32): Effect<G>
  {
    var (s1, ok1) := x.dealloc(s, ptr, len);
    var (s2, ok2) := x.dealloc(s1, resultPtr, resultLen);
    var code := if e == NoFailure && (!ok1 || !ok2) then DeallocError else e;
    Effect(Returned(Code(code)), s2, caller,
           log + [Deallocated(ptr, len, ok1)] + [Deallocated(resultPtr, resultLen, ok2)])
  }

  /** The call once both buffers are allocated. */
  function Exchange<G>(x: Exports<G>, s: Callee<G>, caller: seq<byte>, log: seq<Event>, param: seq<byte>, ptr: i32,
                       resultPtr: i32, buf: u32, bufLen: u32): Effect<G>
    requires |param| < U32
  {
    if !InMemory(s.memory, Address(ptr), |param|) then Effect(Panicked, s, caller, log)
    else
      var given := s.(memory := Overlay(s.memory, Address(ptr), param));
      var (after, ok) := x.call(given, ptr, |param|, resultPtr, bufLen);
      var log1 := log + [Called(ptr, |param|, resultPtr, bufLen, ok)];
      if !ok then Release(x, after, caller, log1, MCallError, ptr, |param|, resultPtr, bufLen)
      else if !InMemory(after.memory, Address(resultPtr), bufLen) || !InMemory(caller, buf, bufLen) then
        Effect(Panicked, after, caller, log1)
      else
        var result := after.memory[Address(resultPtr)..Address(resultPtr) + bufLen];
        Release(x, after, Overlay(caller, buf, result), log1, NoFailure, ptr, |param|, resultPtr, bufLen)
  }

  /** The whole call, on a caller whose memory is `caller` and whose result buffer is `buf`. */
  function CallEffect<G>(x: Exports<G>, s: Callee<G>, caller: seq<byte>, log: seq<Event>, param: seq<byte>,
                         buf: u32, bufLen: u32): Effect<G>
    requires |param| < U32
  {
    var (s1, ptr) := x.alloc(s, |param|);
    var log1 := log + [Allocated(|param|, ptr)];
    if ptr.None? then Effect(Returned(Code(AllocError)), s1, caller, log1)
    else
      var (s2, resultPtr) := x.alloc(s1, bufLen);
      var log2 := log1 + [Allocated(bufLen, resultPtr)];
      if resultPtr.None? then
        var (s3, ok) := x.dealloc(s2, ptr.value, |param|);
        Effect(Returned(Code(AllocError)), s3, caller, log2 + [Deallocated(ptr.value, |param|, ok)])
      else Exchange(x, s2, caller, log2, param, ptr.value, resultPtr.value, buf, bufLen)
  }

  // ---------- the imperative form ----------

  /** The store: the callee's state, and the calls made to it so far. */
  class Store<G> {
    var callee: Callee<G>
    ghost var log: seq<Event>

    constructor (callee: Callee<G>)
      ensures this.callee == callee && log == []
    {
      this.callee, log := callee, [];
    }

    method Alloc(x: Exports<G>, len: u32) returns (ptr: Option<i32>)
      modifies this
      ensures (callee, ptr) == x.alloc(old(callee), len) && log == old(log) + [Allocated(len, ptr)]
    {
      var r := x.alloc(callee, len);
      callee, ptr := r.0, r.1;
      log := log + [Allocated(len, ptr)];
    }

    method Dealloc(x: Exports<G>, ptr: i32, len: u32) returns (ok: bool)
      modifies this
      ensures (callee, ok) == x.dealloc(old(callee), ptr, len) && log == old(log) + [Deallocated(ptr, len, ok)]
    {
      var r := x.dealloc(callee, ptr, len);
      callee, ok := r.0, r.1;
      log := log + [Deallocated(ptr, len, ok)];
    }

    method Call(x: Exports<G>, ptr: i32, len: u32, resultPtr: i32, resultLen: u32) returns (ok: bool)
      modifies this
      ensures (callee, ok) == x.call(old(callee), ptr, len, resultPtr, resultLen)
      ensures log == old(log) + [Called(ptr, len, resultPtr, resultLen, ok)]
    {
      var r := x.call(callee, ptr, len, resultPtr, resultLen);
      callee, ok := r.0, r.1;
      log := log + [Called(ptr, len, resultPtr, resultLen, ok)];
    }

    /** Copies `from` into the callee's memory; false when the range does not lie in it. */
    method CopyIn(at: u32, from: seq<byte>) returns (ok: bool)
      modifies this`callee
      ensures ok <==> InMemory(old(callee).memory, at, |from|)
      ensures callee == if ok then old(callee).(memory := Overlay(old(callee).memory, at, from)) else old(callee)
    {
      ok := InMemory(callee.memory, at, |from|);
      if ok {
        callee := callee.(memory := Overlay(callee.memory, at, from));
      }
    }
  }

  /** The two deallocations at the end of a call. */
  method ReleaseBoth<G>(x: Exports<G>, store: Store<G>, e: McallError, ptr: i32, len: u32,
                        resultPtr: i32, resultLen: u32, ghost caller: seq<byte>)
    returns (code: u32)
    modifies store
    ensures Effect(Returned(code), store.callee, caller, store.log) ==
              Release(x, old(store.callee), caller, old(store.log), e, ptr, len, resultPtr, resultLen)
  {
    var result := e;
    var ok := store.Dealloc(x, ptr, len);
    if !ok && result == NoFailure {
      result := DeallocError;
    }
    ok := store.Dealloc(x, resultPtr, resultLen);
    if !ok && result == NoFailure {
      result := DeallocError;
    }
    return Code(result);
  }

  /** `InstanceCaller::call` */
  method CallInstance<G>(x: Exports<G>, store: Store<G>, caller: array<byte>, param: seq<byte>, buf: u32, bufLen: u32)
    returns (r: Outcome)
    requires |param| < U32
    modifies store, caller
    ensures Effect(r, store.callee, caller[..], store.log) ==
        CallEffect(x, old(store.callee), old(caller[..]), old(store.log), param, buf, bufLen)
  {
    var result := NoFailure;
    var paramsLen: u32 := |param|;
    var ptr := store.Alloc(x, paramsLen);
    if ptr.None? {
      return Returned(Code(AllocError));
    }
    var resultPtr := store.Alloc(x, bufLen);
    if resultPtr.None? {
      var _ := store.Dealloc(x, ptr.value, paramsLen);
      return Returned(Code(AllocError));
    }
    var copied := store.CopyIn(Address(ptr.value), param);
    if !copied {
      return Panicked;
    }
    var ok := store.Call(x, ptr.value, paramsLen, resultPtr.value, bufLen);
    if !ok {
      result := MCallError;
    } else {
      var from := Address(resultPtr.value);
      if !InMemory(store.callee.memory, from, bufLen) {
        return Panicked;
      }
      var temp := store.callee.memory[from..from + bufLen];
      copied := CopyToGuest(caller, buf, temp);
      if !copied {
        return Panicked;
      }
    }
    var code := ReleaseBoth(x, store, result, ptr.value, paramsLen, resultPtr.value, bufLen, caller[..]);
    return Returned(code);
  }

  // ---------- which code a call returns ----------

  /** The callee did not grant a buffer. */
  ghost predicate Refuses(log: seq<Event>) {
    exists e :: e in log && e.Allocated? && e.granted.None?
  }

  /** The callee's function trapped. */
  ghost predicate Traps(log: seq<Event>) {
    exists e :: e in log && e.Called? && !e.ok
  }

  /** A buffer could not be given back. */
  ghost predicate FailsToRelease(log: seq<Event>) {
    exists e :: e in log && e.Deallocated? && !e.ok
  }

  /** The order in which a call that comes to an end asks the callee. */
  ghost predicate IsLogOfCall(log: seq<Event>, paramsLen: u32, bufLen: u32) {
    || log == [Allocated(paramsLen, None)]
    || (exists p: i32, a: bool ::
          log == [Allocated(paramsLen, Some(p)), Allocated(bufLen, None), Deallocated(p, paramsLen, a)])
    || (exists p: i32, q: i32, ok: bool, a: bool, b: bool ::
          log == [Allocated(paramsLen, Some(p)), Allocated(bufLen, Some(q)), Called(p, paramsLen, q, bufLen, ok),
                  Deallocated(p, paramsLen, a), Deallocated(q, bufLen, b)])
  }

  /** What the log says about the code. */
  ghost predicate CodeFits(code: u32, log: seq<Event>) {
    && (code == 0 <==> !Refuses(log) && !Traps(log) && !FailsToRelease(log))
    && (code == 2 <==> Refuses(log))
    && (code == 3 <==> !Refuses(log) && !Traps(log) && FailsToRelease(log))
    && (code == 4 <==> Traps(log))
  }

  /** The log once the callee's function was called. */
  function CalledLog(paramsLen: u32, bufLen: u32, ptr: i32, resultPtr: i32, ok: bool): seq<Event> {
    [Allocated(paramsLen, Some(ptr)), Allocated(bufLen, Some(resultPtr))]
    + [Called(ptr, paramsLen, resultPtr, bufLen, ok)]
  }

  lemma CodeOfRelease<G>(x: Exports<G>, s: Callee<G>, caller: seq<byte>, ptr: i32, len: u32, resultPtr: i32,
                         resultLen: u32, ok: bool)
    ensures var e := if ok then NoFailure else MCallError;
            var r := Release(x, s, caller, CalledLog(len, resultLen, ptr, resultPtr, ok), e, ptr, len, resultPtr,
                             resultLen);
            r.outcome.Returned? && IsLogOfCall(r.log, len, resultLen) && CodeFits(r.outcome.code, r.log)
  {
    var (s1, a) := x.dealloc(s, ptr, len);
    var (s2, b) := x.dealloc(s1, resultPtr, resultLen);
    var granted := [Allocated(len, Some(ptr)), Allocated(resultLen, Some(resultPtr))];
    var log := CalledLog(len, resultLen, ptr, resultPtr, ok) + [Deallocated(ptr, len, a)]
               + [Deallocated(resultPtr, resultLen, b)];
    LastEventsDecide(granted, log, Called(ptr, len, resultPtr, resultLen, ok), Deallocated(ptr, len, a),
                     Deallocated(resultPtr, resultLen, b));
    assert log == [Allocated(len, Some(ptr)), Allocated(resultLen, Some(resultPtr)),
                   Called(ptr, len, resultPtr, resultLen, ok),
                   Deallocated(ptr, len, a), Deallocated(resultPtr, resultLen, b)];
  }

  lemma CodeOfExchange<G>(x: Exports<G>, s: Callee<G>, caller: seq<byte>, param: seq<byte>, ptr: i32, resultPtr: i32,
                          buf: u32, bufLen: u32)
    requires |param| < U32
    ensures var log := [Allocated(|param|, Some(ptr)), Allocated(bufLen, Some(resultPtr))];
            var r := Exchange(x, s, caller, log, param, ptr, resultPtr, buf, bufLen);
            r.outcome.Returned? ==> IsLogOfCall(r.log, |param|, bufLen) && CodeFits(r.outcome.code, r.log)
  {
    if InMemory(s.memory, Address(ptr), |param|) {
      var given := s.(memory := Overlay(s.memory, Address(ptr), param));
      var (after, ok) := x.call(given, ptr, |param|, resultPtr, bufLen);
      if !ok {
        CodeOfRelease(x, after, caller, ptr, |param|, resultPtr, bufLen, ok);
      } else if InMemory(after.memory, Address(resultPtr), bufLen) && InMemory(caller, buf, bufLen) {
        var result := after.memory[Address(resultPtr)..Address(resultPtr) + bufLen];
        CodeOfRelease(x, after, Overlay(caller, buf, result), ptr, |param|, resultPtr, bufLen, ok);
      }
    }
  }

  lemma LastEventsDecide(granted: seq<Event>, log: seq<Event>, called: Event, first: Event, second: Event)
    requires forall e | e in granted :: e.Allocated? && e.granted.Some?
    requires called.Called? && first.Deallocated? && second.Deallocated?
    requires log == granted + [called] + [first] + [second]
    ensures !Refuses(log) && (Traps(log) <==> !called.ok) && (FailsToRelease(log) <==> !first.ok || !second.ok)
  {
    assert called in log && first in log && second in log;
  }

  /** The code of a call that comes to an end, by what it asked the callee and what came of it. */
  lemma CodeSaysWhatFailed<G>(x: Exports<G>, s: Callee<G>, caller: seq<byte>, param: seq<byte>, buf: u32, bufLen: u32)
    requires |param| < U32
    ensures var r := CallEffect(x, s, caller, [], param, buf, bufLen);
            r.outcome.Returned? ==> IsLogOfCall(r.log, |param|, bufLen) && CodeFits(r.outcome.code, r.log)
  {
    var (s1, ptr) := x.alloc(s, |param|);
    var log1 := [] + [Allocated(|param|, ptr)];
    if ptr.None? {
      assert Allocated(|param|, None) in log1;
    } else {
      var (s2, resultPtr) := x.alloc(s1, bufLen);
      if resultPtr.None? {
        var log2 := log1 + [Allocated(bufLen, None)];
        assert Allocated(bufLen, None) in log2;
        var (s3, a) := x.dealloc(s2, ptr.value, |param|);
        var log3 := log2 + [Deallocated(ptr.value, |param|, a)];
        assert log3 == [Allocated(|param|, Some(ptr.value)), Allocated(bufLen, None),
                        Deallocated(ptr.value, |param|, a)];
      } else {
        CodeOfExchange(x, s2, caller, param, ptr.value, resultPtr.value, buf, bufLen);
        assert log1 + [Allocated(bufLen, resultPtr)] ==
               [Allocated(|param|, Some(ptr.value)), Allocated(bufLen, Some(resultPtr.value))];
      }
    }
  }

  // ---------- what a call keeps ----------

  /** The buffers the callee gave out. */
  function Granted(log: seq<Event>): multiset<(i32, u32)> {
    if log == [] then multiset{}
    else
      Granted(log[..|log| - 1])
      + (match log[|log| - 1]
         case Allocated(len, Some(p)) => multiset{(p, len)}
         case _ => multiset{})
  }

  /** The buffers the callee was asked to take back. */
  function TakenBack(log: seq<Event>): multiset<(i32, u32)> {
    if log == [] then multiset{}
    else
      TakenBack(log[..|log| - 1])
      + (match log[|log| - 1]
         case Deallocated(p, len, _) => multiset{(p, len)}
         case _ => multiset{})
  }

  lemma LogStep(log: seq<Event>, e: Event)
    ensures e.Allocated? && e.granted.Some? ==> Granted(log + [e]) == Granted(log) + multiset{(e.granted.value, e.len)}
    ensures !(e.Allocated? && e.granted.Some?) ==> Granted(log + [e]) == Granted(log)
    ensures e.Deallocated? ==> TakenBack(log + [e]) == TakenBack(log) + multiset{(e.ptr, e.len)}
    ensures !e.Deallocated? ==> TakenBack(log + [e]) == TakenBack(log)
  {
    assert (log + [e])[..|log|] == log;
  }

  lemma ReleaseTakesBack<G>(x: Exports<G>, s: Callee<G>, caller: seq<byte>, log: seq<Event>, e: McallError,
                            ptr: i32, len: u32, resultPtr: i32, resultLen: u32)
    ensures var r := Release(x, s, caller, log, e, ptr, len, resultPtr, resultLen);
            && Granted(r.log) == Granted(log)
            && TakenBack(r.log) == TakenBack(log) + multiset{(ptr, len)} + multiset{(resultPtr, resultLen)}
  {
    var (s1, ok1) := x.dealloc(s, ptr, len);
    var (s2, ok2) := x.dealloc(s1, resultPtr, resultLen);
    LogStep(log, Deallocated(ptr, len, ok1));
    LogStep(log + [Deallocated(ptr, len, ok1)], Deallocated(resultPtr, resultLen, ok2));
  }

  lemma ExchangeTakesBack<G>(x: Exports<G>, s: Callee<G>, caller: seq<byte>, log: seq<Event>, param: seq<byte>,
                             ptr: i32, resultPtr: i32, buf: u32, bufLen: u32)
    requires |param| < U32
    ensures var r := Exchange(x, s, caller, log, param, ptr, resultPtr, buf, bufLen);
            && Granted(r.log) == Granted(log)
            && (r.outcome.Panicked? ==> TakenBack(r.log) == TakenBack(log))
            && (r.outcome.Returned? ==>
                  TakenBack(r.log) == TakenBack(log) + multiset{(ptr, |param|)} + multiset{(resultPtr, bufLen)})
  {
    if InMemory(s.memory, Address(ptr), |param|) {
      var given := s.(memory := Overlay(s.memory, Address(ptr), param));
      var (after, ok) := x.call(given, ptr, |param|, resultPtr, bufLen);
      var called := Called(ptr, |param|, resultPtr, bufLen, ok);
      LogStep(log, called);
      if !ok {
        ReleaseTakesBack(x, after, caller, log + [called], MCallError, ptr, |param|, resultPtr, bufLen);
      } else if InMemory(after.memory, Address(resultPtr), bufLen) && InMemory(caller, buf, bufLen) {
        var result := after.memory[Address(resultPtr)..Address(resultPtr) + bufLen];
        ReleaseTakesBack(x, after, Overlay(caller, buf, result), log + [called], NoFailure,
                         ptr, |param|, resultPtr, bufLen);
      }
    }
  }

  /**
   * Balance: on every path that returns, each buffer the callee gave out is taken back exactly
   * once, with the same length. A panic, and nothing else, leaves the two buffers behind.
   */
  lemma Balanced<G>(x: Exports<G>, s: Callee<G>, caller: seq<byte>, param: seq<byte>, buf: u32, bufLen: u32)
    requires |param| < U32
    ensures var r := CallEffect(x, s, caller, [], param, buf, bufLen);
            Granted(r.log) == TakenBack(r.log) <==> r.outcome.Returned?
  {
    var (s1, ptr) := x.alloc(s, |param|);
    var log1 := [] + [Allocated(|param|, ptr)];
    LogStep([], Allocated(|param|, ptr));
    if ptr.Some? {
      var (s2, resultPtr) := x.alloc(s1, bufLen);
      var log2 := log1 + [Allocated(bufLen, resultPtr)];
      LogStep(log1, Allocated(bufLen, resultPtr));
      if resultPtr.None? {
        var (s3, ok) := x.dealloc(s2, ptr.value, |param|);
        LogStep(log2, Deallocated(ptr.value, |param|, ok));
      } else {
        ExchangeTakesBack(x, s2, caller, log2, param, ptr.value, resultPtr.value, buf, bufLen);
        assert |Granted(log2)| == 2;
      }
    }
  }

  /**
   * With both buffers granted: the first one does not lie in the callee's memory, or the callee's
   * function does not trap and then its result buffer, or the caller's, does not lie in memory.
   */
  predicate RangeFails<G>(x: Exports<G>, s: Callee<G>, caller: seq<byte>, param: seq<byte>, ptr: i32, resultPtr: i32,
                          buf: u32, bufLen: u32)
    requires |param| < U32
  {
    if !InMemory(s.memory, Address(ptr), |param|) then true
    else
      var given := s.(memory := Overlay(s.memory, Address(ptr), param));
      var (after, ok) := x.call(given, ptr, |param|, resultPtr, bufLen);
      ok && !(InMemory(after.memory, Address(resultPtr), bufLen) && InMemory(caller, buf, bufLen))
  }

  predicate MeetsBadRange<G>(x: Exports<G>, s: Callee<G>, caller: seq<byte>, param: seq<byte>, buf: u32, bufLen: u32)
    requires |param| < U32
  {
    var (s1, ptr) := x.alloc(s, |param|);
    var (s2, resultPtr) := x.alloc(s1, bufLen);
    ptr.Some? && resultPtr.Some? && RangeFails(x, s2, caller, param, ptr.value, resultPtr.value, buf, bufLen)
  }

  lemma ExchangePanicsIff<G>(x: Exports<G>, s: Callee<G>, caller: seq<byte>, log: seq<Event>, param: seq<byte>,
                             ptr: i32, resultPtr: i32, buf: u32, bufLen: u32)
    requires |param| < U32
    ensures Exchange(x, s, caller, log, param, ptr, resultPtr, buf, bufLen).outcome.Panicked? <==>
              RangeFails(x, s, caller, param, ptr, resultPtr, buf, bufLen)
  {
  }

  /** A call panics exactly when it meets a bad range. */
  lemma PanicsIff<G>(x: Exports<G>, s: Callee<G>, caller: seq<byte>, param: seq<byte>, buf: u32, bufLen: u32)
    requires |param| < U32
    ensures CallEffect(x, s, caller, [], param, buf, bufLen).outcome.Panicked? <==>
              MeetsBadRange(x, s, caller, param, buf, bufLen)
  {
    var (s1, ptr) := x.alloc(s, |param|);
    var log1 := [] + [Allocated(|param|, ptr)];
    var (s2, resultPtr) := x.alloc(s1, bufLen);
    var log2 := log1 + [Allocated(bufLen, resultPtr)];
    if ptr.Some? && resultPtr.Some? {
      ExchangePanicsIff(x, s2, caller, log2, param, ptr.value, resultPtr.value, buf, bufLen);
    }
  }

  /** The buffers granted are exactly those the callee was asked to take back, unless the call meets a bad range. */
  lemma BalancedIff<G>(x: Exports<G>, s: Callee<G>, caller: seq<byte>, param: seq<byte>, buf: u32, bufLen: u32)
    requires |param| < U32
    ensures var r := CallEffect(x, s, caller, [], param, buf, bufLen);
            Granted(r.log) == TakenBack(r.log) <==> !MeetsBadRange(x, s, caller, param, buf, bufLen)
  {
    Balanced(x, s, caller, param, buf, bufLen);
    PanicsIff(x, s, caller, param, buf, bufLen);
  }

  /** A callee that grants every request at address 0 and never traps. */
  function Willing(): Exports<()> {
    Exports((c, n) => (c, Some(0)), (c, p, n) => (c, true), (c, p, n, q, m) => (c, true))
  }

  /**
   * A request with some text, from a caller with some memory, for a result that does not lie in the
   * caller's memory: with a callee that grants every buffer, which has room for the text, both
   * buffers stay allocated.
   */
  lemma BuffersLeftBehind(memory: seq<byte>, caller: seq<byte>, param: seq<byte>, buf: u32, bufLen: u32)
    requires 0 < |param| <= |memory| && |param| < U32
    requires caller != [] && !InMemory(caller, buf, bufLen)
    ensures var r := CallEffect(Willing(), Callee(memory, ()), caller, [], param, buf, bufLen);
            && r.outcome.Panicked? && Granted(r.log) == multiset{(0, |param|), (0, bufLen)}
            && TakenBack(r.log) == multiset{} && r.caller == caller
  {
    var x, s := Willing(), Callee(memory, ());
    PanicsIff(x, s, caller, param, buf, bufLen);
    var log := [] + [Allocated(|param|, Some(0))];
    LogStep([], Allocated(|param|, Some(0)));
    LogStep(log, Allocated(bufLen, Some(0)));
    ExchangeTakesBack(x, s, caller, log + [Allocated(bufLen, Some(0))], param, 0, 0, buf, bufLen);
    CallerIsKept(x, s, caller, param, buf, bufLen);
  }

  /** The call reached the callee's function, which was given the state `given` and left `after`. */
  ghost predicate Reached<G>(x: Exports<G>, s: Callee<G>, param: seq<byte>, bufLen: u32, ptr: i32, resultPtr: i32,
                             given: Callee<G>, after: Callee<G>, ok: bool)
    requires |param| < U32
  {
    var (s1, p) := x.alloc(s, |param|);
    var (s2, q) := x.alloc(s1, bufLen);
    && p == Some(ptr) && q == Some(resultPtr) && InMemory(s2.memory, Address(ptr), |param|)
    && given == s2.(memory := Overlay(s2.memory, Address(ptr), param))
    && (after, ok) == x.call(given, ptr, |param|, resultPtr, bufLen)
  }

  /**
   * When the callee's function has run without a trap, and did not leave its buffer out of range:
   * it found the parameters behind the pointer it was given, and the caller's result range equals
   * the callee's result buffer, while the rest of the caller's memory is unchanged.
   */
  lemma ResultIsDelivered<G>(x: Exports<G>, s: Callee<G>, caller: seq<byte>, param: seq<byte>, buf: u32, bufLen: u32,
                             ptr: i32, resultPtr: i32, given: Callee<G>, after: Callee<G>)
    requires |param| < U32 && Reached(x, s, param, bufLen, ptr, resultPtr, given, after, true)
    ensures given.memory[Address(ptr)..Address(ptr) + |param|] == param
    ensures var r := CallEffect(x, s, caller, [], param, buf, bufLen);
            if InMemory(after.memory, Address(resultPtr), bufLen) && InMemory(caller, buf, bufLen) then
              && r.outcome in {Returned(0), Returned(3)}
              && r.caller[buf..buf + bufLen] == after.memory[Address(resultPtr)..Address(resultPtr) + bufLen]
              && r.caller[..buf] == caller[..buf] && r.caller[buf + bufLen..] == caller[buf + bufLen..]
            else r.outcome == Panicked && r.caller == caller
  {
  }

  /** Every other path leaves the caller's memory alone. */
  lemma CallerIsKept<G>(x: Exports<G>, s: Callee<G>, caller: seq<byte>, param: seq<byte>, buf: u32, bufLen: u32)
    requires |param| < U32
    ensures var r := CallEffect(x, s, caller, [], param, buf, bufLen);
            r.outcome !in {Returned(0), Returned(3)} ==> r.caller == caller
  {
  }
}
