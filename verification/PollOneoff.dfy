/** `poll_oneoff` of snapshot preview 1: from guest subscriptions to guest events. */
module PollOneoff {
  import opened Common
  import opened Sched

  datatype ClockId = Realtime | Monotonic | ProcessCpu | ThreadCpu

  datatype Request =
    | ClockRequest(id: ClockId, abstime: bool, timeout: u64)
    | ReadRequest(fd: u32)
    | WriteRequest(fd: u32)

  datatype GuestSub = GuestSub(userdata: u64, request: Request)

  datatype EventType = ClockEvent | FdReadEvent | FdWriteEvent

  datatype Event = Event(userdata: u64, error: Option<Error>, kind: EventType, nbytes: nat, hangup: bool)

  /** Instants beyond this one cannot be represented. */
  const INSTANT_LIMIT: nat := 0x8000_0000_0000_0000 * 1_000_000_000

  function KindOf(r: Request): EventType {
    match r
    case ClockRequest(_, _, _) => ClockEvent
    case ReadRequest(_) => FdReadEvent
    case WriteRequest(_) => FdWriteEvent
  }

  // ---------- the order of the poll set ----------

  /** Those of the first `n` subscriptions that are of one kind, in order. */
  function Pick(subs: seq<GuestSub>, kind: EventType, n: nat): seq<GuestSub>
    requires n <= |subs|
  {
    if n == 0 then []
    else Pick(subs, kind, n - 1) + (if KindOf(subs[n - 1].request) == kind then [subs[n - 1]] else [])
  }

  /** Clocks first, then reads, then writes. */
  function Arranged(subs: seq<GuestSub>): seq<GuestSub> {
    Pick(subs, ClockEvent, |subs|) + Pick(subs, FdReadEvent, |subs|) + Pick(subs, FdWriteEvent, |subs|)
  }

  /** How often a subscription occurs among the first `n`. */
  function Occurrences(subs: seq<GuestSub>, g: GuestSub, n: nat): nat
    requires n <= |subs|
  {
    if n == 0 then 0 else Occurrences(subs, g, n - 1) + (if subs[n - 1] == g then 1 else 0)
  }

  lemma {:induction false} OccurrencesInPick(subs: seq<GuestSub>, kind: EventType, g: GuestSub, n: nat)
    requires n <= |subs|
    ensures multiset(Pick(subs, kind, n))[g] == if KindOf(g.request) == kind then Occurrences(subs, g, n) else 0
  {
    if n > 0 {
      OccurrencesInPick(subs, kind, g, n - 1);
      var before := Pick(subs, kind, n - 1);
      assert before + [] == before;
    }
  }

  lemma {:induction false} OccurrencesInAll(subs: seq<GuestSub>, g: GuestSub, n: nat)
    requires n <= |subs|
    ensures multiset(subs[..n])[g] == Occurrences(subs, g, n)
  {
    if n > 0 {
      OccurrencesInAll(subs, g, n - 1);
      assert subs[..n] == subs[..n - 1] + [subs[n - 1]];
    }
  }

  /** Arranging the subscriptions neither loses nor repeats one. */
  lemma ArrangedIsPermutation(subs: seq<GuestSub>)
    ensures multiset(Arranged(subs)) == multiset(subs) && |Arranged(subs)| == |subs|
  {
    forall g: GuestSub
      ensures multiset(Arranged(subs))[g] == multiset(subs)[g]
    {
      OccurrencesInPick(subs, ClockEvent, g, |subs|);
      OccurrencesInPick(subs, FdReadEvent, g, |subs|);
      OccurrencesInPick(subs, FdWriteEvent, g, |subs|);
      OccurrencesInAll(subs, g, |subs|);
      assert subs[..|subs|] == subs;
    }
    assert |multiset(Arranged(subs))| == |Arranged(subs)| && |multiset(subs)| == |subs|;
  }

  /** Clocks come before reads, and reads before writes. */
  function Rank(r: Request): nat {
    match r
    case ClockRequest(_, _, _) => 0
    case ReadRequest(_) => 1
    case WriteRequest(_) => 2
  }

  /** Where the subscriptions of one kind come from. */
  function PickFrom(subs: seq<GuestSub>, kind: EventType, n: nat): seq<nat>
    requires n <= |subs|
  {
    if n == 0 then []
    else PickFrom(subs, kind, n - 1) + (if KindOf(subs[n - 1].request) == kind then [n - 1] else [])
  }

  /** `from` names increasing positions below `n`, at which there are subscriptions of one rank, those in `picked`. */
  ghost predicate ComesFrom(picked: seq<GuestSub>, from: seq<nat>, subs: seq<GuestSub>, rank: nat, n: nat) {
    && |from| == |picked| && n <= |subs|
    && (forall k | 0 <= k < |from| :: from[k] < n && picked[k] == subs[from[k]] && Rank(picked[k].request) == rank)
    && (forall k, l | 0 <= k < l < |from| :: from[k] < from[l])
  }

  lemma {:induction false} PickComesFrom(subs: seq<GuestSub>, kind: EventType, rank: nat, n: nat)
    requires n <= |subs|
    requires rank == match kind case ClockEvent => 0 case FdReadEvent => 1 case FdWriteEvent => 2
    ensures ComesFrom(Pick(subs, kind, n), PickFrom(subs, kind, n), subs, rank, n)
  {
    if n > 0 {
      PickComesFrom(subs, kind, rank, n - 1);
    }
  }

  /** In the poll set, clocks come before reads before writes; those of one kind stay in the guest's order. */
  ghost predicate InPollOrder(arranged: seq<GuestSub>, from: seq<nat>, subs: seq<GuestSub>) {
    && |from| == |arranged|
    && (forall k | 0 <= k < |from| :: from[k] < |subs| && arranged[k] == subs[from[k]])
    && (forall k, l | 0 <= k < l < |from| ::
          || Rank(arranged[k].request) < Rank(arranged[l].request)
          || (Rank(arranged[k].request) == Rank(arranged[l].request) && from[k] < from[l]))
  }

  lemma JoinInOrder(a: seq<GuestSub>, b: seq<GuestSub>, c: seq<GuestSub>, x: seq<nat>, y: seq<nat>, z: seq<nat>,
                    subs: seq<GuestSub>)
    requires ComesFrom(a, x, subs, 0, |subs|) && ComesFrom(b, y, subs, 1, |subs|) && ComesFrom(c, z, subs, 2, |subs|)
    ensures InPollOrder(a + b + c, x + y + z, subs)
  {
  }

  /** The order of the poll set, by which each subscription of the guest is in it once. */
  lemma ArrangedInOrder(subs: seq<GuestSub>) returns (from: seq<nat>)
    ensures InPollOrder(Arranged(subs), from, subs) && |from| == |subs|
  {
    var n := |subs|;
    PickComesFrom(subs, ClockEvent, 0, n);
    PickComesFrom(subs, FdReadEvent, 1, n);
    PickComesFrom(subs, FdWriteEvent, 2, n);
    JoinInOrder(Pick(subs, ClockEvent, n), Pick(subs, FdReadEvent, n), Pick(subs, FdWriteEvent, n),
                PickFrom(subs, ClockEvent, n), PickFrom(subs, FdReadEvent, n), PickFrom(subs, FdWriteEvent, n), subs);
    ArrangedIsPermutation(subs);
    return PickFrom(subs, ClockEvent, n) + PickFrom(subs, FdReadEvent, n) + PickFrom(subs, FdWriteEvent, n);
  }

  // ---------- subscribing ----------

  /** What the runtime may take a clock request's deadline to be, when it is read between two times. */
  ghost predicate DeadlineOf(r: Request, creation: nat, from: nat, until: nat, deadline: nat)
    requires r.ClockRequest?
  {
    if r.abstime then deadline == creation + r.timeout
    else from + r.timeout <= deadline <= until + r.timeout
  }

  /** A subscription of the poll set stands for the guest's. */
  ghost predicate StandsFor(s: Subscription, g: GuestSub, files: map<u32, File>, creation: nat, from: nat, until: nat) {
    && s.userdata == g.userdata
    && match g.request
       case ClockRequest(_, _, _) => s.sub.ClockSub? && DeadlineOf(g.request, creation, from, until, s.sub.deadline)
       case ReadRequest(fd) => fd in files && s.sub == ReadSub(files[fd], None)
       case WriteRequest(fd) => fd in files && s.sub == WriteSub(files[fd], None)
  }

  ghost predicate AllStandFor(ss: seq<Subscription>, gs: seq<GuestSub>, files: map<u32, File>, creation: nat,
                              from: nat, until: nat) {
    |ss| == |gs| && forall i | 0 <= i < |ss| :: StandsFor(ss[i], gs[i], files, creation, from, until)
  }

  /** The request can be subscribed to, but for a deadline that cannot be represented. */
  predicate Supported(r: Request, files: map<u32, File>) {
    match r
    case ClockRequest(id, abstime, _) => id == Monotonic || (id == Realtime && !abstime)
    case ReadRequest(fd) => fd in files
    case WriteRequest(fd) => fd in files
  }

  /** Why a request is refused at time `now`; a deadline that cannot be represented is an overflow. */
  predicate RefusedWith(r: Request, files: map<u32, File>, creation: nat, now: nat, e: Error) {
    match r
    case ClockRequest(id, abstime, timeout) =>
      if id == ProcessCpu || id == ThreadCpu then e == InvalidArgument
      else if id == Realtime && abstime then e == NotSupported
      else e == Overflow && (if abstime then creation else now) + timeout >= INSTANT_LIMIT
    case ReadRequest(fd) => fd !in files && e == Badf
    case WriteRequest(fd) => fd !in files && e == Badf
  }

  /** The deadline of a clock request, or why it is refused. */
  method Deadline(host: Host, r: Request, creation: nat) returns (d: Result<nat, Error>)
    requires r.ClockRequest?
    modifies host
    ensures host.time >= old(host.time) && host.signals == old(host.signals) && host.asked == old(host.asked)
    ensures d.Ok? ==> DeadlineOf(r, creation, old(host.time), host.time, d.value)
    ensures d.Ok? ==> Supported(r, map[]) && d.value < INSTANT_LIMIT
    ensures d.Err? ==> RefusedWith(r, map[], creation, host.time, d.error)
  {
    var start := creation;
    match r.id {
      case Monotonic =>
        if !r.abstime {
          start := host.Now();
        }
      case Realtime =>
        if r.abstime {
          return Err(NotSupported);
        }
        start := host.Now();
      case _ =>
        return Err(InvalidArgument);
    }
    if start + r.timeout >= INSTANT_LIMIT {
      return Err(Overflow);
    }
    return Ok(start + r.timeout);
  }

  method SubscribeReads(poll: Poll, refs: seq<Subscription>)
    requires forall k | 0 <= k < |refs| :: refs[k].sub.ReadSub? && refs[k].sub.status.None?
    modifies poll
    ensures poll.subs == old(poll.subs) + refs
  {
    for i := 0 to |refs|
      invariant poll.subs == old(poll.subs) + refs[..i]
    {
      poll.SubscribeRead(refs[i].sub.file, refs[i].userdata);
    }
  }

  method SubscribeWrites(poll: Poll, refs: seq<Subscription>)
    requires forall k | 0 <= k < |refs| :: refs[k].sub.WriteSub? && refs[k].sub.status.None?
    modifies poll
    ensures poll.subs == old(poll.subs) + refs
  {
    for i := 0 to |refs|
      invariant poll.subs == old(poll.subs) + refs[..i]
    {
      poll.SubscribeWrite(refs[i].sub.file, refs[i].userdata);
    }
  }

  /**
   * Fills the poll set: the clocks while the guest's subscriptions are read, the reads and the
   * writes, whose files were looked up meanwhile, behind them.
   */
  method Subscribe(host: Host, poll: Poll, subs: seq<GuestSub>, files: map<u32, File>, creation: nat)
    returns (r: Result<(), Error>)
    requires poll.subs == []
    modifies host, poll
    ensures host.time >= old(host.time) && host.asked == old(host.asked)
    ensures r.Ok? ==> forall i | 0 <= i < |subs| :: Supported(subs[i].request, files)
    ensures r.Err? ==> exists i :: 0 <= i < |subs| && RefusedWith(subs[i].request, files, creation, host.time, r.error)
    ensures r.Ok? ==> AllStandFor(poll.subs, Arranged(subs), files, creation, old(host.time), host.time)
  {
    var readRefs: seq<Subscription> := [];
    var writeRefs: seq<Subscription> := [];
    ghost var from := host.time;
    for i := 0 to |subs|
      invariant host.time >= from && host.asked == old(host.asked)
      invariant forall k | 0 <= k < i :: Supported(subs[k].request, files)
      invariant AllStandFor(poll.subs, Pick(subs, ClockEvent, i), files, creation, from, host.time)
      invariant AllStandFor(readRefs, Pick(subs, FdReadEvent, i), files, creation, from, host.time)
      invariant AllStandFor(writeRefs, Pick(subs, FdWriteEvent, i), files, creation, from, host.time)
      invariant forall k | 0 <= k < |readRefs| :: readRefs[k].sub.ReadSub? && readRefs[k].sub.status.None?
      invariant forall k | 0 <= k < |writeRefs| :: writeRefs[k].sub.WriteSub? && writeRefs[k].sub.status.None?
    {
      var sub := subs[i];
      match sub.request {
        case ClockRequest(_, _, _) =>
          var deadline := Deadline(host, sub.request, creation);
          if deadline.Err? {
            assert RefusedWith(subs[i].request, files, creation, host.time, deadline.error);
            return Err(deadline.error);
          }
          poll.SubscribeMonotonicClock(deadline.value, sub.userdata);
        case ReadRequest(fd) =>
          if fd !in files {
            assert RefusedWith(subs[i].request, files, creation, host.time, Badf);
            return Err(Badf);
          }
          readRefs := readRefs + [Subscription(ReadSub(files[fd], None), sub.userdata)];
        case WriteRequest(fd) =>
          if fd !in files {
            assert RefusedWith(subs[i].request, files, creation, host.time, Badf);
            return Err(Badf);
          }
          writeRefs := writeRefs + [Subscription(WriteSub(files[fd], None), sub.userdata)];
      }
    }
    SubscribeReads(poll, readRefs);
    SubscribeWrites(poll, writeRefs);
    return Ok(());
  }

  // ---------- results ----------

  /** The subscription has a result when asked at time `now`. */
  predicate Due(s: Subscription, now: nat) {
    match s.sub
    case ClockSub(deadline) => deadline <= now
    case ReadSub(_, status) => status.Some?
    case WriteSub(_, status) => status.Some?
  }

  /** The event that reports a subscription's result. */
  function EventOf(s: Subscription): Event {
    match s.sub
    case ClockSub(_) => Event(s.userdata, None, ClockEvent, 0, false)
    case ReadSub(_, status) => RwEvent(s.userdata, FdReadEvent, status)
    case WriteSub(_, status) => RwEvent(s.userdata, FdWriteEvent, status)
  }

  function RwEvent(userdata: u64, kind: EventType, status: Option<Completion>): Event {
    match status
    case Some(Done(nbytes, hangup)) => Event(userdata, None, kind, nbytes, hangup)
    case Some(Broken(e)) => Event(userdata, Some(e), kind, 0, false)
    case None => Event(userdata, None, kind, 0, false)
  }

  /** `at` lists, in increasing order, the positions below `n` the events belong to. */
  ghost predicate Reports(subs: seq<Subscription>, events: seq<Event>, at: seq<nat>, n: nat) {
    && n <= |subs| && |at| == |events|
    && (forall k | 0 <= k < |at| :: at[k] < n && events[k] == EventOf(subs[at[k]]))
    && (forall k, l | 0 <= k < l < |at| :: at[k] < at[l])
  }

  /** Exactly those below `n` with a result are listed; the clock is read between the two times. */
  ghost predicate ListsDue(subs: seq<Subscription>, at: seq<nat>, from: nat, until: nat, n: nat)
    requires n <= |subs|
  {
    && (forall i | 0 <= i < n && Due(subs[i], from) :: i in at)
    && (forall i | i in at :: i < |subs| && Due(subs[i], until))
  }

  /** The results of the poll set, in order; every clock subscription reads the clock again. */
  method Results(host: Host, poll: Poll) returns (events: seq<Event>, ghost at: seq<nat>)
    modifies host
    ensures host.time >= old(host.time) && host.asked == old(host.asked)
    ensures Reports(poll.subs, events, at, |poll.subs|)
    ensures ListsDue(poll.subs, at, old(host.time), host.time, |poll.subs|)
  {
    events, at := [], [];
    for i := 0 to |poll.subs|
      invariant host.time >= old(host.time) && host.asked == old(host.asked)
      invariant Reports(poll.subs, events, at, i)
      invariant ListsDue(poll.subs, at, old(host.time), host.time, i)
    {
      var s := poll.subs[i];
      var due := s.sub.ClockSub? || Due(s, 0);
      if s.sub.ClockSub? {
        var now := host.Now();
        due := s.sub.deadline <= now;
      }
      if due {
        events := events + [EventOf(s)];
        at := at + [i];
      }
    }
  }

  // ---------- the whole call ----------

  datatype PollResult = Events(events: seq<Event>) | Error(error: Error) | Panic

  /** The positions are distinct and below `n`, so there are no more than `n` of them. */
  lemma {:induction false} NoMoreThan(at: seq<nat>, n: nat, k: nat)
    requires forall k, l | 0 <= k < l < |at| :: at[k] < at[l]
    requires k < |at|
    ensures at[k] >= k
  {
    if k > 0 {
      NoMoreThan(at, n, k - 1);
    }
  }

  /** The event belongs to the guest's subscription: same user data, and the type that goes with the request. */
  predicate Answers(e: Event, g: GuestSub) {
    && e.userdata == g.userdata
    && match g.request
       case ClockRequest(_, _, _) => e.kind == ClockEvent && e.error.None? && e.nbytes == 0 && !e.hangup
       case ReadRequest(_) => e.kind == FdReadEvent
       case WriteRequest(_) => e.kind == FdWriteEvent
  }

  /** The deadline of a clock request cannot be before this time. */
  ghost function NotBefore(r: Request, creation: nat, start: nat): nat
    requires r.ClockRequest?
  {
    if r.abstime then creation + r.timeout else start + r.timeout
  }

  /**
   * The events go with the guest's subscriptions in poll-set order: strictly increasing positions,
   * the user data and the type of each, and no clock event before its deadline.
   */
  ghost predicate EventsAnswer(subs: seq<GuestSub>, events: seq<Event>, at: seq<nat>, creation: nat, start: nat,
                               end: nat) {
    && |at| == |events| <= |Arranged(subs)|
    && (forall k | 0 <= k < |at| :: at[k] < |Arranged(subs)| && Answers(events[k], Arranged(subs)[at[k]]))
    && (forall k, l | 0 <= k < l < |at| :: at[k] < at[l])
    && (forall k | 0 <= k < |at| && Arranged(subs)[at[k]].request.ClockRequest? ::
          NotBefore(Arranged(subs)[at[k]].request, creation, start) <= end)
  }

  /** The poll set after the wait: completed as the host reported, or untouched when the time was up. */
  ghost predicate AfterWait(before: seq<Subscription>, after: seq<Subscription>, answer: Option<PollReturn>, now: nat) {
    match answer
    case Some(Ready(revents)) =>
      Aligned(before, revents) && revents != [] && CompletedUpTo(before, after, revents, |after|)
    case Some(TimedOut) => after == before && SomeDeadlinePast(after, now)
    case _ => false
  }

  /** After a wait, something has a result. */
  lemma SomethingDue(before: seq<Subscription>, after: seq<Subscription>, answer: Option<PollReturn>,
                     now: nat)
    returns (i: nat)
    requires AfterWait(before, after, answer, now)
    ensures i < |after| && Due(after[i], now)
  {
    match answer.value {
      case Ready(revents) =>
        i := SomeRw(before, |before|);
        assert Completes(before, revents, i, after[i]);
      case TimedOut =>
        i :| 0 <= i < |after| && !IsRw(after[i]) && after[i].sub.deadline <= now;
    }
  }

  lemma {:induction false} SomeRw(subs: seq<Subscription>, n: nat) returns (i: nat)
    requires n <= |subs| && RwCount(subs, n) > 0
    ensures i < n && IsRw(subs[i])
  {
    if IsRw(subs[n - 1]) {
      i := n - 1;
    } else {
      i := SomeRw(subs, n - 1);
    }
  }

  /** What a due subscription reports answers the guest's subscription it stands for. */
  lemma DueAnswers(before: seq<Subscription>, after: seq<Subscription>, answer: Option<PollReturn>, i: nat,
                   g: GuestSub, files: map<u32, File>, creation: nat, from: nat, until: nat, now: nat, end: nat)
    requires AfterWait(before, after, answer, now) && i < |after| && Due(after[i], end)
    requires i < |before| && StandsFor(before[i], g, files, creation, from, until)
    ensures Answers(EventOf(after[i]), g)
    ensures g.request.ClockRequest? ==> NotBefore(g.request, creation, from) <= end
  {
    if answer.value.Ready? {
      assert Completes(before, answer.value.revents, i, after[i]);
    }
  }

  /** What the results of the poll set report answers the guest's subscriptions, at least one of them. */
  lemma ReportsAnswer(subs: seq<GuestSub>, before: seq<Subscription>, after: seq<Subscription>,
                      answer: Option<PollReturn>,
                      events: seq<Event>, at: seq<nat>, files: map<u32, File>,
                      creation: nat, from: nat, until: nat, now: nat, end: nat)
    requires AllStandFor(before, Arranged(subs), files, creation, from, until) && |after| == |before|
    requires AfterWait(before, after, answer, now)
    requires Reports(after, events, at, |after|) && ListsDue(after, at, now, end, |after|)
    ensures 1 <= |events| <= |subs| && EventsAnswer(subs, events, at, creation, from, end)
  {
    ArrangedIsPermutation(subs);
    var first := SomethingDue(before, after, answer, now);
    assert first in at;
    NoMoreThan(at, |subs|, |at| - 1);
    forall k | 0 <= k < |at|
      ensures Answers(events[k], Arranged(subs)[at[k]])
      ensures Arranged(subs)[at[k]].request.ClockRequest? ==>
                NotBefore(Arranged(subs)[at[k]].request, creation, from) <= end
    {
      assert at[k] in at;
      assert StandsFor(before[at[k]], Arranged(subs)[at[k]], files, creation, from, until);
      DueAnswers(before, after, answer, at[k], Arranged(subs)[at[k]], files, creation, from, until, now, end);
    }
  }

  /** How the call waited: a plain sleep, or on a poll set, for which the host gave its last answer. */
  datatype Wait = Slept | Polled(before: seq<Subscription>, after: seq<Subscription>, answer: Option<PollReturn>,
                                   until: nat, now: nat)

  /** The poll set that was waited on stands for the guest's subscriptions. */
  ghost predicate Watched(w: Wait, subs: seq<GuestSub>, files: map<u32, File>, creation: nat, start: nat, end: nat)
    requires w.Polled?
  {
    && start <= w.until <= w.now <= end && |w.after| == |w.before|
    && AllStandFor(w.before, Arranged(subs), files, creation, start, w.until)
  }

  /** The wait on the poll set and its results, from the subscriptions to the events. */
  ghost predicate Traced(w: Wait, subs: seq<GuestSub>, files: map<u32, File>, events: seq<Event>, at: seq<nat>,
                         creation: nat, start: nat, end: nat) {
    w.Polled? ==>
      && Watched(w, subs, files, creation, start, end)
      && AfterWait(w.before, w.after, w.answer, w.now)
      && Reports(w.after, events, at, |w.after|)
      && ListsDue(w.after, at, w.now, end, |w.after|)
  }

  /**
   * When the host reports any descriptor as ready, every read and write subscription gets an event.
   * A clock whose deadline was past at the end of the wait gets one, too.
   */
  lemma WhoGetsAnEvent(w: Wait, subs: seq<GuestSub>, files: map<u32, File>, events: seq<Event>, at: seq<nat>,
                       creation: nat, start: nat, end: nat, i: nat)
    requires w.Polled? && w.answer.Some? && Traced(w, subs, files, events, at, creation, start, end) && i < |w.before|
    ensures IsRw(w.before[i]) ==> (i in at <==> w.answer.value.Ready?)
    ensures !IsRw(w.before[i]) && w.before[i].sub.deadline <= w.now ==> i in at
    ensures !IsRw(w.before[i]) && w.before[i].sub.deadline > end ==> i !in at
  {
    assert StandsFor(w.before[i], Arranged(subs)[i], files, creation, start, w.until) by {
      assert |w.before| == |Arranged(subs)|;
    }
    if w.answer.value.Ready? {
      assert Completes(w.before, w.answer.value.revents, i, w.after[i]);
    }
  }

  /**
   * What a read or write event says: the error its own descriptor reported, or else the number of
   * bytes, of which a read has at least one, and whether the other end hung up.
   */
  ghost predicate SaysReport(e: Event, s: Subscription, report: Revents)
    requires IsRw(s)
  {
    && e.userdata == s.userdata && e.kind == (if s.sub.ReadSub? then FdReadEvent else FdWriteEvent)
    && e.error == (if report.nval then Some(Badf) else if report.err then Some(Io(5)) else None)
    && (e.hangup <==> report.hup && e.error.None?)
    && (e.error.Some? || s.sub.WriteSub? ==> e.nbytes == 0)
    && (e.error.None? && s.sub.ReadSub? ==>
          && s.sub.file.readyBytes.Ok?
          && e.nbytes == if s.sub.file.readyBytes.value == 0 then 1 else s.sub.file.readyBytes.value)
  }

  /**
   * Each read or write event says what the host reported of its own descriptor, the reports
   * counted off in poll-set order.
   */
  lemma EventSaysReport(w: Wait, subs: seq<GuestSub>, files: map<u32, File>, events: seq<Event>, at: seq<nat>,
                        creation: nat, start: nat, end: nat, k: nat)
    requires w.Polled? && w.answer.Some? && Traced(w, subs, files, events, at, creation, start, end)
    requires k < |events| && at[k] < |w.before| && IsRw(w.before[at[k]])
    ensures w.answer.value.Ready? && RwCount(w.before, at[k]) < |w.answer.value.revents|
    ensures SaysReport(events[k], w.before[at[k]], w.answer.value.revents[RwCount(w.before, at[k])])
  {
    WhoGetsAnEvent(w, subs, files, events, at, creation, start, end, at[k]);
    assert at[k] in at;
    assert Completes(w.before, w.answer.value.revents, at[k], w.after[at[k]]);
  }

  /** A single relative timer, of any clock, is served by sleeping. */
  predicate JustSleeps(subs: seq<GuestSub>) {
    |subs| == 1 && subs[0].request.ClockRequest? && !subs[0].request.abstime
  }

  /** What the wait came to, when the call waited. */
  function OutcomeOf(r: PollResult): Outcome {
    match r
    case Events(_) => Waited
    case Error(e) => Refused(e)
    case Panic => Panicked
  }

  predicate NoClock(subs: seq<GuestSub>) {
    forall i | 0 <= i < |subs| :: !subs[i].request.ClockRequest?
  }

  /** `poll_oneoff`, run through the Unix scheduler. */
  method DoPollOneoff(host: Host, subs: seq<GuestSub>, files: map<u32, File>, creation: nat)
    returns (r: PollResult, ghost at: seq<nat>, ghost wait: Wait)
    modifies host
    ensures host.time >= old(host.time)
    ensures subs == [] ==> r == Error(InvalidArgument)
    ensures r.Events? ==> 1 <= |r.events| <= |subs|
    ensures r.Events? ==> EventsAnswer(subs, r.events, at, creation, old(host.time), host.time)
    ensures r.Events? ==> Traced(wait, subs, files, r.events, at, creation, old(host.time), host.time)
    ensures JustSleeps(subs) <==> r.Events? && wait.Slept?
    ensures JustSleeps(subs) ==> r == Events([Event(subs[0].userdata, None, ClockEvent, 0, false)])
    ensures !JustSleeps(subs) && (exists i :: 0 <= i < |subs| && !Supported(subs[i].request, files)) ==>
              r.Error? && wait.Slept?
    ensures r.Error? && wait.Slept? ==>
              || (subs == [] && r.error == InvalidArgument)
              || exists i :: 0 <= i < |subs| && RefusedWith(subs[i].request, files, creation, host.time, r.error)
    ensures wait.Polled? ==>
              && Watched(wait, subs, files, creation, old(host.time), host.time)
              && Settled(wait.before, wait.after, OutcomeOf(r), wait.answer, wait.until, wait.now)
    ensures if wait.Polled? then AskedWell(old(host.asked), host.asked, wait.before)
            else host.asked == old(host.asked)
                 + (if JustSleeps(subs) then [AskedToSleep(subs[0].request.timeout)] else [])
    ensures r.Panic? ==> wait.Polled?
    ensures r.Panic? <==> wait.Polled? && wait.answer == Some(TimedOut) && NoClock(subs)
    ensures r.Panic? ==> host.time >= old(host.time) + C_INT_MAX * NANOS_PER_MILLI
  {
    at, wait := [], Slept;
    if subs == [] {
      return Error(InvalidArgument), at, wait;
    }
    if JustSleeps(subs) {
      host.Sleep(subs[0].request.timeout);
      at := [0];
      ArrangedSingle(subs);
      return Events([Event(subs[0].userdata, None, ClockEvent, 0, false)]), at, wait;
    }
    var poll := new Poll();
    var subscribed := Subscribe(host, poll, subs, files, creation);
    if subscribed.Err? {
      return Error(subscribed.error), at, wait;
    }
    ghost var before, until := poll.subs, host.time;
    ArrangedIsPermutation(subs);
    var outcome, answer := Sched.PollOneoff(host, poll);
    ghost var after, now := poll.subs, host.time;
    wait := Polled(before, after, answer, until, now);
    NoClockIff(subs, before, files, creation, old(host.time), until);
    match outcome {
      case Refused(e) =>
        return Error(e), at, wait;
      case Panicked =>
        return Panic, at, wait;
      case Waited =>
    }
    assert AfterWait(before, after, answer, now);
    var events;
    events, at := Results(host, poll);
    ReportsAnswer(subs, before, after, answer, events, at, files, creation, old(host.time), until, now, host.time);
    return Events(events), at, wait;
  }

  lemma ArrangedSingle(subs: seq<GuestSub>)
    requires |subs| == 1 && subs[0].request.ClockRequest?
    ensures Arranged(subs) == subs
  {
    assert Pick(subs, ClockEvent, 0) == [] && Pick(subs, FdReadEvent, 0) == [] && Pick(subs, FdWriteEvent, 0) == [];
  }

  /** Where a subscription of the guest is in the poll set. */
  lemma InPollSet(subs: seq<GuestSub>, i: nat) returns (k: nat)
    requires i < |subs|
    ensures k < |Arranged(subs)| && Arranged(subs)[k] == subs[i]
  {
    ArrangedIsPermutation(subs);
    assert subs[i] in multiset(subs);
    assert subs[i] in multiset(Arranged(subs));
    k :| 0 <= k < |Arranged(subs)| && Arranged(subs)[k] == subs[i];
  }

  /** Which of the guest's subscriptions one of the poll set is. */
  lemma OfGuest(subs: seq<GuestSub>, k: nat) returns (i: nat)
    requires k < |Arranged(subs)|
    ensures i < |subs| && subs[i] == Arranged(subs)[k]
  {
    ArrangedIsPermutation(subs);
    assert Arranged(subs)[k] in multiset(Arranged(subs));
    assert Arranged(subs)[k] in multiset(subs);
    i :| 0 <= i < |subs| && subs[i] == Arranged(subs)[k];
  }

  /** There is no clock in the poll set exactly when the guest asked for none. */
  lemma NoClockIff(subs: seq<GuestSub>, before: seq<Subscription>, files: map<u32, File>, creation: nat,
                   from: nat, until: nat)
    requires AllStandFor(before, Arranged(subs), files, creation, from, until)
    ensures Earliest(before, |before|).None? <==> NoClock(subs)
  {
    var e := Earliest(before, |before|);
    if e.Some? {
      var i := OfGuest(subs, e.value);
      assert StandsFor(before[e.value], subs[i], files, creation, from, until);
    } else {
      forall i | 0 <= i < |subs| ensures !subs[i].request.ClockRequest? {
        var k := InPollSet(subs, i);
        assert StandsFor(before[k], subs[i], files, creation, from, until);
      }
    }
  }
}
