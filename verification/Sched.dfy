/** Waiting for subscriptions: the poll set and the Unix scheduler. Times are in nanoseconds. */
module Sched {
  import opened Common

  const NANOS_PER_MILLI: nat := 1_000_000
  const C_INT_MAX: nat := 0x7fff_ffff

  // ---------- the host ----------

  /** What the host reports for one polled descriptor. */
  datatype Revents = Revents(nval: bool, err: bool, hup: bool)

  datatype PollReturn = Ready(revents: seq<Revents>) | TimedOut | Interrupted | Failed(error: Error)

  /** A descriptor to poll, for reading or for writing. */
  datatype PollFd = PollFd(fd: nat, forReading: bool)

  /** What the host was asked to wait for, and when. */
  datatype Ask = AskedToSleep(duration: nat) | AskedToPoll(time: nat, fds: seq<PollFd>, timeoutMillis: nat)

  /**
   * A host with a monotone clock. It may let any amount of time pass, and answer a poll in any way,
   * with two exceptions: it reports a time-out only when the time is up, and readiness only of
   * descriptors it was given. It interrupts a poll finitely often. It keeps a record of what it
   * was asked to wait for.
   */
  class Host {
    var time: nat
    var signals: nat
    ghost var asked: seq<Ask>

    method Now() returns (t: nat)
      modifies this
      ensures old(time) <= time == t && signals == old(signals) && asked == old(asked)
    {
      t :| t >= time;
      time := t;
    }

    method Sleep(duration: nat)
      modifies this
      ensures time >= old(time) + duration && signals == old(signals)
      ensures asked == old(asked) + [AskedToSleep(duration)]
    {
      asked := asked + [AskedToSleep(duration)];
      var t :| t >= time + duration;
      time := t;
    }

    method Poll(fds: seq<PollFd>, timeoutMillis: nat) returns (r: PollReturn)
      modifies this
      ensures time >= old(time)
      ensures asked == old(asked) + [AskedToPoll(old(time), fds, timeoutMillis)]
      ensures r.Ready? ==> |r.revents| == |fds| > 0
      ensures r.TimedOut? ==> time >= old(time) + timeoutMillis * NANOS_PER_MILLI
      ensures if r.Interrupted? then signals < old(signals) else signals == old(signals)
    {
      asked := asked + [AskedToPoll(time, fds, timeoutMillis)];
      var answer: nat :| answer < 4;
      if answer == 0 && |fds| > 0 {
        var t :| t >= time;
        var some: Revents :| true;
        time := t;
        return Ready(seq(|fds|, i => some));
      } else if answer == 1 && signals > 0 {
        signals := signals - 1;
        return Interrupted;
      } else if answer == 2 {
        var t :| t >= time + timeoutMillis * NANOS_PER_MILLI;
        time := t;
        return TimedOut;
      } else {
        return Failed(Io(0));
      }
    }
  }

  // ---------- subscriptions ----------

  /** A file as the scheduler uses it: the descriptor it can be polled by, and how many bytes can be read from it. */
  datatype File = File(pollable: Option<nat>, readyBytes: Result<nat, Error>)

  /** How a read or write subscription was completed. */
  datatype Completion = Done(nbytes: nat, hangup: bool) | Broken(error: Error)

  datatype Sub =
    | ClockSub(deadline: nat)
    | ReadSub(file: File, status: Option<Completion>)
    | WriteSub(file: File, status: Option<Completion>)

  datatype Subscription = Subscription(sub: Sub, userdata: u64)

  predicate IsRw(s: Subscription) {
    !s.sub.ClockSub?
  }

  /** How many of the first `n` subscriptions are for reading or writing. */
  function RwCount(subs: seq<Subscription>, n: nat): (c: nat)
    requires n <= |subs|
    ensures c <= n
  {
    if n == 0 then 0 else RwCount(subs, n - 1) + (if IsRw(subs[n - 1]) then 1 else 0)
  }

  /** The completion of a subscription whose descriptor reported `e`. */
  function Complete(s: Sub, e: Revents): Result<Sub, Error>
    requires !s.ClockSub?
  {
    if s.ReadSub? && s.file.readyBytes.Err? then Err(s.file.readyBytes.error)
    else
      var nbytes := if s.ReadSub? then Max(s.file.readyBytes.value, 1) else 0;
      var status :=
        if e.nval then Broken(Badf)
        else if e.err then Broken(Io(5))
        else Done(nbytes, e.hup);
      Ok(s.(status := Some(status)))
  }

  function Max(a: nat, b: nat): nat {
    if a >= b then a else b
  }

  class Poll {
    var subs: seq<Subscription>

    constructor ()
      ensures subs == []
    {
      subs := [];
    }

    method SubscribeMonotonicClock(deadline: nat, ud: u64)
      modifies this
      ensures subs == old(subs) + [Subscription(ClockSub(deadline), ud)]
    {
      subs := subs + [Subscription(ClockSub(deadline), ud)];
    }

    method SubscribeRead(file: File, ud: u64)
      modifies this
      ensures subs == old(subs) + [Subscription(ReadSub(file, None), ud)]
    {
      subs := subs + [Subscription(ReadSub(file, None), ud)];
    }

    method SubscribeWrite(file: File, ud: u64)
      modifies this
      ensures subs == old(subs) + [Subscription(WriteSub(file, None), ud)]
    {
      subs := subs + [Subscription(WriteSub(file, None), ud)];
    }
  }

  /** The position of the first clock subscription with the earliest deadline among the first `n`. */
  function Earliest(subs: seq<Subscription>, n: nat): (i: Option<nat>)
    requires n <= |subs|
    ensures i.Some? ==> i.value < n && !IsRw(subs[i.value])
    ensures i.Some? ==> forall k | 0 <= k < n && !IsRw(subs[k]) :: subs[i.value].sub.deadline <= subs[k].sub.deadline
    ensures i.None? ==> forall k | 0 <= k < n :: IsRw(subs[k])
  {
    if n == 0 then None
    else
      var i := Earliest(subs, n - 1);
      if IsRw(subs[n - 1]) then i
      else if i.None? || subs[n - 1].sub.deadline < subs[i.value].sub.deadline then Some(n - 1)
      else i
  }

  // ---------- the time-out ----------

  /** The time left until a deadline. */
  function Remaining(deadline: nat, now: nat): nat {
    if now <= deadline then deadline - now else 0
  }

  /** Whole milliseconds of the time left, and one more. */
  function PollTimeout(remaining: nat): nat {
    remaining / NANOS_PER_MILLI + 1
  }

  /** The time-out is longer than the time left, by no more than a millisecond. */
  lemma TimeoutRoundsUp(remaining: nat)
    ensures remaining < PollTimeout(remaining) * NANOS_PER_MILLI <= remaining + NANOS_PER_MILLI
  {
  }

  // ---------- the scheduler ----------

  datatype Outcome = Waited | Refused(error: Error) | Panicked

  lemma {:induction false} RwCountGrows(subs: seq<Subscription>, m: nat, n: nat)
    requires m <= n <= |subs|
    ensures RwCount(subs, m) <= RwCount(subs, n)
    ensures m < n && IsRw(subs[m]) ==> RwCount(subs, m) < RwCount(subs, n)
  {
    if m < n {
      RwCountGrows(subs, m, n - 1);
    }
  }

  /** The descriptors the host was given, and its reports, go with the reads and writes in order. */
  ghost predicate Aligned(subs: seq<Subscription>, revents: seq<Revents>) {
    |revents| == RwCount(subs, |subs|)
  }

  /** `done` is the subscription at position `i` of `subs` after its descriptor's report was taken in. */
  ghost predicate Completes(subs: seq<Subscription>, revents: seq<Revents>, i: nat, done: Subscription)
    requires i < |subs|
  {
    if !IsRw(subs[i]) then done == subs[i]
    else RwCount(subs, i) < |revents|
         && done.userdata == subs[i].userdata && Complete(subs[i].sub, revents[RwCount(subs, i)]) == Ok(done.sub)
  }

  ghost predicate CompletedUpTo(before: seq<Subscription>, after: seq<Subscription>, revents: seq<Revents>, n: nat) {
    && |after| == |before| && n <= |before|
    && (forall i | 0 <= i < n :: Completes(before, revents, i, after[i]))
    && (forall i | n <= i < |before| :: after[i] == before[i])
  }

  predicate AllPollable(subs: seq<Subscription>, n: nat)
    requires n <= |subs|
  {
    forall i | 0 <= i < n && IsRw(subs[i]) :: subs[i].sub.file.pollable.Some?
  }

  /** The loop that gives each read and write the report of its descriptor. */
  method AssignResults(poll: Poll, revents: seq<Revents>) returns (r: Result<(), Error>)
    requires Aligned(poll.subs, revents)
    modifies poll
    ensures |poll.subs| == |old(poll.subs)|
    ensures r.Ok? ==> CompletedUpTo(old(poll.subs), poll.subs, revents, |old(poll.subs)|)
    ensures r.Err? ==> exists i :: FailsToSay(old(poll.subs), i, r.error)
  {
    ghost var before := poll.subs;
    var next := 0;
    for i := 0 to |poll.subs|
      invariant |poll.subs| == |before| && CompletedUpTo(before, poll.subs, revents, i)
      invariant next == RwCount(before, i)
    {
      if IsRw(poll.subs[i]) {
        RwCountGrows(before, i, |before|);
        var completed := Complete(poll.subs[i].sub, revents[next]);
        if completed.Err? {
          assert FailsToSay(before, i, completed.error);
          return Err(completed.error);
        }
        poll.subs := poll.subs[i := Subscription(completed.value, poll.subs[i].userdata)];
        next := next + 1;
      }
    }
    return Ok(());
  }

  /** The descriptors go with the first `n` subscriptions: one for each read and write, in order. */
  ghost predicate GoWith(fds: seq<PollFd>, subs: seq<Subscription>, n: nat) {
    && n <= |subs| && |fds| == RwCount(subs, n)
    && forall i | 0 <= i < n && IsRw(subs[i]) ::
         RwCount(subs, i) < |fds| && var fd := fds[RwCount(subs, i)];
         subs[i].sub.file.pollable == Some(fd.fd) && (fd.forReading <==> subs[i].sub.ReadSub?)
  }

  /** Checks that every file can be polled, and collects the descriptors to poll. */
  method CollectPollFds(poll: Poll) returns (fds: Option<seq<PollFd>>)
    ensures fds.Some? <==> AllPollable(poll.subs, |poll.subs|)
    ensures fds.Some? ==> GoWith(fds.value, poll.subs, |poll.subs|)
  {
    var pollfds: seq<PollFd> := [];
    for i := 0 to |poll.subs|
      invariant AllPollable(poll.subs, i) && GoWith(pollfds, poll.subs, i)
    {
      if IsRw(poll.subs[i]) {
        var fd := poll.subs[i].sub.file.pollable;
        if fd.None? {
          return None;
        }
        pollfds := pollfds + [PollFd(fd.value, poll.subs[i].sub.ReadSub?)];
      }
    }
    return Some(pollfds);
  }

  /** A clock among the subscriptions whose deadline is past. */
  ghost predicate SomeDeadlinePast(subs: seq<Subscription>, now: nat) {
    exists i :: 0 <= i < |subs| && !IsRw(subs[i]) && subs[i].sub.deadline <= now
  }

  /** There is a clock, and the deadlines of all clocks are further away than the longest time-out. */
  ghost predicate AllDeadlinesFar(subs: seq<Subscription>, now: nat) {
    Earliest(subs, |subs|).Some? && forall i | 0 <= i < |subs| && !IsRw(subs[i]) ::
      subs[i].sub.deadline >= now + C_INT_MAX * NANOS_PER_MILLI
  }

  /**
   * What the host may be asked: to poll the descriptors of all reads and writes, and to wait for
   * longer than until the earliest deadline, but by no more than a millisecond; without a clock,
   * for 2^31 - 1 milliseconds.
   */
  ghost predicate WellAsked(subs: seq<Subscription>, a: Ask) {
    && a.AskedToPoll? && GoWith(a.fds, subs, |subs|) && a.timeoutMillis <= 0x7fff_ffff
    && match Earliest(subs, |subs|)
       case Some(i) =>
         var deadline := subs[i].sub.deadline;
         var left := if a.time < deadline then deadline - a.time else 0;
         left < a.timeoutMillis * 1_000_000 <= left + 1_000_000
       case None => a.timeoutMillis == 0x7fff_ffff
  }

  /** The questions that came after `before` are of this kind. */
  ghost predicate AskedWell(before: seq<Ask>, after: seq<Ask>, subs: seq<Subscription>) {
    before <= after && forall k | |before| <= k < |after| :: WellAsked(subs, after[k])
  }

  /**
   * Polls until the host answers with something else than an interruption. The time-out is
   * computed anew from the clock before every attempt.
   */
  method PollLoop(host: Host, subs: seq<Subscription>, fds: seq<PollFd>) returns (answer: Result<PollReturn, Error>)
    requires GoWith(fds, subs, |subs|)
    modifies host
    ensures host.time >= old(host.time)
    ensures AskedWell(old(host.asked), host.asked, subs) && (answer.Ok? ==> |host.asked| > |old(host.asked)|)
    ensures answer.Err? ==>
              && answer.error == Overflow
              && exists now :: old(host.time) <= now <= host.time && AllDeadlinesFar(subs, now)
    ensures answer.Ok? ==> !answer.value.Interrupted?
    ensures answer.Ok? && answer.value.Ready? ==> |answer.value.revents| == |fds| > 0
    ensures answer.Ok? && answer.value.TimedOut? && Earliest(subs, |subs|).Some? ==>
              host.time > subs[Earliest(subs, |subs|).value].sub.deadline
    ensures answer.Ok? && answer.value.TimedOut? && Earliest(subs, |subs|).None? ==>
              host.time >= old(host.time) + C_INT_MAX * NANOS_PER_MILLI
  {
    while true
      invariant host.time >= old(host.time) && AskedWell(old(host.asked), host.asked, subs)
      decreases host.signals
    {
      var pollTimeout := C_INT_MAX;
      var t := Earliest(subs, |subs|);
      if t.Some? {
        var now := host.Now();
        var duration := Remaining(subs[t.value].sub.deadline, now);
        TimeoutRoundsUp(duration);
        pollTimeout := PollTimeout(duration);
        if pollTimeout > C_INT_MAX {
          assert AllDeadlinesFar(subs, now);
          return Err(Overflow);
        }
      }
      var r := host.Poll(fds, pollTimeout);
      if !r.Interrupted? {
        return Ok(r);
      }
    }
  }

  /** A read whose file fails to say how many bytes it has; `e` is the failure. */
  ghost predicate FailsToSay(subs: seq<Subscription>, i: nat, e: Error) {
    i < |subs| && subs[i].sub.ReadSub? && subs[i].sub.file.readyBytes == Err(e)
  }

  /**
   * What the wait comes to is settled by the host's last answer; there is none when the host was
   * not asked. `start` and `now` are the times before and after the wait.
   */
  ghost predicate Settled(before: seq<Subscription>, after: seq<Subscription>, out: Outcome, answer: Option<PollReturn>,
                          start: nat, now: nat) {
    && |after| == |before| && (answer.Some? ==> AllPollable(before, |before|))
    && match answer
       case None =>
         && out.Refused?
         && if !AllPollable(before, |before|) then out.error == InvalidArgument
            else out.error == Overflow && exists t :: start <= t <= now && AllDeadlinesFar(before, t)
       case Some(Failed(e)) => out == Refused(e)
       case Some(Interrupted) => false
       case Some(Ready(revents)) =>
         && Aligned(before, revents) && revents != []
         && if exists i, e :: FailsToSay(before, i, e) then out.Refused? && exists i :: FailsToSay(before, i, out.error)
            else out == Waited && CompletedUpTo(before, after, revents, |after|)
       case Some(TimedOut) =>
         && after == before
         && if Earliest(before, |before|).Some? then out == Waited && SomeDeadlinePast(after, now)
            else out == Panicked && now >= start + C_INT_MAX * NANOS_PER_MILLI
  }

  lemma CompletedSays(before: seq<Subscription>, after: seq<Subscription>, revents: seq<Revents>)
    requires |after| == |before| && CompletedUpTo(before, after, revents, |before|)
    ensures !exists i, e :: FailsToSay(before, i, e)
  {
    forall i: nat, e: Error ensures !FailsToSay(before, i, e) {
      assert i < |before| ==> Completes(before, revents, i, after[i]);
    }
  }

  /** The Unix scheduler's `poll_oneoff`. `answer` is what the host said last. */
  method PollOneoff(host: Host, poll: Poll) returns (out: Outcome, ghost answer: Option<PollReturn>)
    modifies host, poll
    ensures host.time >= old(host.time) && |poll.subs| == |old(poll.subs)|
    ensures old(poll.subs) == [] ==> out == Waited && poll.subs == [] && answer.None?
    ensures AskedWell(old(host.asked), host.asked, old(poll.subs))
    ensures answer.Some? ==> |host.asked| > |old(host.asked)|
    ensures old(poll.subs) != [] ==> Settled(old(poll.subs), poll.subs, out, answer, old(host.time), host.time)
    ensures out.Panicked? <==> answer == Some(TimedOut) && Earliest(old(poll.subs), |old(poll.subs)|).None?
  {
    answer := None;
    if poll.subs == [] {
      return Waited, answer;
    }
    var fds := CollectPollFds(poll);
    if fds.None? {
      return Refused(InvalidArgument), answer;
    }
    var r := PollLoop(host, poll.subs, fds.value);
    if r.Err? {
      return Refused(r.error), answer;
    }
    answer := Some(r.value);
    match r.value {
      case Failed(e) =>
        return Refused(e), answer;
      case Ready(revents) =>
        ghost var before := poll.subs;
        var results := AssignResults(poll, revents);
        if results.Err? {
          assert exists i :: FailsToSay(before, i, results.error);
          return Refused(results.error), answer;
        }
        CompletedSays(before, poll.subs, revents);
        return Waited, answer;
      case TimedOut =>
        var t := Earliest(poll.subs, |poll.subs|);
        if t.None? {
          return Panicked, answer;
        }
        var now := host.Now();
        if now < poll.subs[t.value].sub.deadline {
          return Panicked, answer;
        }
        return Waited, answer;
      case Interrupted =>
        assert false;
    }
  }
}
