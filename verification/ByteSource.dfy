/** A source of bytes that is read piece by piece: the behaviour every pull reader refines. */
module ByteSource {
  import opened Common

  /** What a source still holds: bytes, and the points at which reading breaks off with an error. */
  datatype Symbol = Data(b: byte) | Fault

  function Lift(bytes: seq<byte>): (r: seq<Symbol>)
    ensures |r| == |bytes|
  {
    seq(|bytes|, i requires 0 <= i < |bytes| => Data(bytes[i]))
  }

  /** The bytes of a source, errors left out. */
  function Bytes(pending: seq<Symbol>): seq<byte> {
    if pending == [] then []
    else (if pending[0].Data? then [pending[0].b] else []) + Bytes(pending[1..])
  }

  /**
   * One read with a buffer of `room` bytes: `out` is delivered and `after` stays behind. The read
   * falls short of the buffer only at the end, or at an error, which it uses up. A read into no
   * room at all may use up an error.
   */
  ghost predicate Serves(before: seq<Symbol>, room: nat, out: seq<byte>, after: seq<Symbol>) {
    && |out| <= room
    && (|out| == room > 0 ==> before == Lift(out) + after)
    && (|out| < room ==> (before == Lift(out) + [Fault] + after) || (before == Lift(out) && after == []))
    && (room == 0 ==> before == after || before == [Fault] + after)
  }

  /** The position of the first error; the end if there is none. */
  function FirstFault(pending: seq<Symbol>, from: nat): (n: nat)
    requires from <= |pending|
    ensures from <= n <= |pending| && forall i | from <= i < n :: pending[i].Data?
    ensures n < |pending| ==> pending[n].Fault?
    decreases |pending| - from
  {
    if from == |pending| || pending[from].Fault? then from else FirstFault(pending, from + 1)
  }

  /** How many bytes a read with `room` bytes of space gets. */
  function Count(before: seq<Symbol>, room: nat): (n: nat)
    ensures n <= |before| && n <= room && forall i | 0 <= i < n :: before[i].Data?
  {
    Min(room, FirstFault(before, 0))
  }

  function Out(before: seq<Symbol>, room: nat): (out: seq<byte>)
    ensures |out| == Count(before, room)
  {
    seq(Count(before, room), i requires 0 <= i < Count(before, room) => before[i].b)
  }

  function Rest(before: seq<Symbol>, room: nat): seq<Symbol> {
    var n := Count(before, room);
    if n == room || n == |before| then before[n..] else before[n + 1..]
  }

  /** A read into a non-empty buffer leaves no choice: how much it gets, which bytes, and what stays. */
  lemma ServesIsExact(before: seq<Symbol>, room: nat, out: seq<byte>, after: seq<Symbol>)
    requires Serves(before, room, out, after) && room > 0
    ensures out == Out(before, room) && after == Rest(before, room)
  {
    var n := |out|;
    assert forall i | 0 <= i < n :: before[i] == Data(out[i]);
    var f := FirstFault(before, 0);
    if n < room {
      if before != Lift(out) {
        assert before[n] == Fault;
        assert before == Lift(out) + [Fault] + after;
        assert before[n + 1..] == after;
      }
      assert f == n;
    } else {
      assert f >= n;
      assert before[n..] == after;
    }
  }

  // ---------- sessions of reads ----------

  /** Everything delivered by reads with the given buffer sizes, one after the other. */
  function Session(pending: seq<Symbol>, rooms: seq<nat>): seq<byte> {
    if rooms == [] then [] else Out(pending, rooms[0]) + Session(Rest(pending, rooms[0]), rooms[1..])
  }

  function Sum(rooms: seq<nat>): nat {
    if rooms == [] then 0 else rooms[0] + Sum(rooms[1..])
  }

  ghost predicate FaultFree(pending: seq<Symbol>) {
    forall i | 0 <= i < |pending| :: pending[i].Data?
  }

  function Content(pending: seq<Symbol>): seq<byte>
    requires FaultFree(pending)
  {
    seq(|pending|, i requires 0 <= i < |pending| => pending[i].b)
  }

  lemma FaultFreeRead(pending: seq<Symbol>, room: nat)
    requires FaultFree(pending)
    ensures var n := Min(room, |pending|);
            && Count(pending, room) == n
            && Out(pending, room) == Content(pending)[..n]
            && Rest(pending, room) == pending[n..] && FaultFree(pending[n..])
  {
  }

  lemma PrefixGlue(a: seq<byte>, n: nat, k: nat)
    requires n + k <= |a|
    ensures a[..n] + a[n..][..k] == a[..n + k]
  {
  }

  /**
   * Read-size independence: whatever the buffer sizes, the reads deliver the content from its
   * start, as much of it as their sizes add up to.
   */
  lemma {:induction false} SessionDelivers(pending: seq<Symbol>, rooms: seq<nat>)
    requires FaultFree(pending)
    ensures Session(pending, rooms) == Content(pending)[..Min(Sum(rooms), |pending|)]
  {
    if rooms != [] {
      var n := Min(rooms[0], |pending|);
      FaultFreeRead(pending, rooms[0]);
      SessionDelivers(pending[n..], rooms[1..]);
      var k := Min(Sum(rooms[1..]), |pending[n..]|);
      assert Content(pending[n..]) == Content(pending)[n..];
      PrefixGlue(Content(pending), n, k);
    }
  }

  lemma {:induction false} BytesOfLift(bytes: seq<byte>, rest: seq<Symbol>)
    ensures Bytes(Lift(bytes) + rest) == bytes + Bytes(rest)
  {
    if bytes == [] {
      assert Lift(bytes) + rest == rest;
    } else {
      assert (Lift(bytes) + rest)[1..] == Lift(bytes[1..]) + rest;
      BytesOfLift(bytes[1..], rest);
    }
  }

  /** Conservation: a read moves bytes from the source to the buffer and loses none, errors or not. */
  lemma ServesConserves(before: seq<Symbol>, room: nat, out: seq<byte>, after: seq<Symbol>)
    requires Serves(before, room, out, after)
    ensures Bytes(before) == out + Bytes(after)
  {
    if room > 0 && before == Lift(out) + [Fault] + after {
      Associate(Lift(out), [Fault], after);
      BytesOfLift(out, [Fault] + after);
      assert ([Fault] + after)[1..] == after;
    } else if room > 0 {
      assert before == Lift(out) + after;
      BytesOfLift(out, after);
    } else {
      assert ([Fault] + after)[1..] == after;
    }
  }

  /** Out and Rest are a way to serve, so that they describe exactly what a read does. */
  lemma OutServes(before: seq<Symbol>, room: nat)
    requires room > 0
    ensures Serves(before, room, Out(before, room), Rest(before, room))
  {
    var n := Count(before, room);
    assert Lift(Out(before, room)) == before[..n];
    if n < room && n < |before| {
      assert before == before[..n] + [before[n]] + before[n + 1..];
    }
  }

  /** A read into a non-empty buffer returns nothing exactly at the end of the source or at an error. */
  lemma EmptyReadIff(before: seq<Symbol>, room: nat)
    requires room > 0
    ensures Out(before, room) == [] <==> before == [] || before[0].Fault?
  {
  }

  /** What is left after a session of reads. */
  function Remainder(pending: seq<Symbol>, rooms: seq<nat>): seq<Symbol> {
    if rooms == [] then pending else Remainder(Rest(pending, rooms[0]), rooms[1..])
  }

  /** Conservation over a session, errors or not: nothing is lost, repeated or put out of order. */
  lemma {:induction false} SessionConserves(pending: seq<Symbol>, rooms: seq<nat>)
    requires forall i | 0 <= i < |rooms| :: rooms[i] > 0
    ensures Bytes(pending) == Session(pending, rooms) + Bytes(Remainder(pending, rooms))
  {
    if rooms != [] {
      var out, rest := Out(pending, rooms[0]), Rest(pending, rooms[0]);
      OutServes(pending, rooms[0]);
      ServesConserves(pending, rooms[0], out, rest);
      SessionConserves(rest, rooms[1..]);
      Associate(out, Session(rest, rooms[1..]), Bytes(Remainder(rest, rooms[1..])));
    }
  }

  // ---------- chains of reads ----------

  /** Reads with the given buffer sizes, one after the other: what each delivered, and what was pending in between. */
  ghost predicate Chain(states: seq<seq<Symbol>>, rooms: seq<nat>, outs: seq<seq<byte>>) {
    && |states| == |rooms| + 1 && |outs| == |rooms|
    && forall i | 0 <= i < |rooms| :: rooms[i] > 0 && Serves(states[i], rooms[i], outs[i], states[i + 1])
  }

  function Concat(outs: seq<seq<byte>>): seq<byte> {
    if outs == [] then [] else outs[0] + Concat(outs[1..])
  }

  /** Whatever reader does the reads, what they deliver and what they leave is settled by the buffer sizes. */
  lemma {:induction false} ChainIsSession(states: seq<seq<Symbol>>, rooms: seq<nat>, outs: seq<seq<byte>>)
    requires Chain(states, rooms, outs)
    ensures Concat(outs) == Session(states[0], rooms) && states[|rooms|] == Remainder(states[0], rooms)
  {
    if rooms != [] {
      ServesIsExact(states[0], rooms[0], outs[0], states[1]);
      ChainIsSession(states[1..], rooms[1..], outs[1..]);
    }
  }

  lemma {:induction false} ChainStaysFaultFree(states: seq<seq<Symbol>>, rooms: seq<nat>, outs: seq<seq<byte>>, i: nat)
    requires Chain(states, rooms, outs) && FaultFree(states[0]) && i <= |rooms|
    ensures FaultFree(states[i])
  {
    if i > 0 {
      ChainStaysFaultFree(states, rooms, outs, i - 1);
      ServesIsExact(states[i - 1], rooms[i - 1], outs[i - 1], states[i]);
      FaultFreeRead(states[i - 1], rooms[i - 1]);
    }
  }

  lemma {:induction false} BytesOfContent(pending: seq<Symbol>)
    requires FaultFree(pending)
    ensures Bytes(pending) == Content(pending)
  {
    if pending != [] {
      BytesOfContent(pending[1..]);
      assert Content(pending) == [pending[0].b] + Content(pending[1..]);
    }
  }

  /** A read that returns nothing from a source without errors finds it at its end, and leaves it there. */
  lemma EmptyRead(before: seq<Symbol>, room: nat, after: seq<Symbol>)
    requires FaultFree(before) && room > 0 && Serves(before, room, [], after)
    ensures before == [] && after == []
  {
    ServesIsExact(before, room, [], after);
    EmptyReadIff(before, room);
  }

  /**
   * The reads of a source without errors deliver a prefix of its content. A read that returns
   * nothing is at the end, and by then the whole content was delivered.
   */
  lemma ChainDeliversPrefix(states: seq<seq<Symbol>>, rooms: seq<nat>, outs: seq<seq<byte>>)
    requires Chain(states, rooms, outs) && FaultFree(states[0])
    ensures Concat(outs) == Content(states[0])[..Min(Sum(rooms), |states[0]|)]
    ensures outs != [] && outs[|outs| - 1] == [] ==> Concat(outs) == Content(states[0])
  {
    ChainIsSession(states, rooms, outs);
    SessionDelivers(states[0], rooms);
    if outs != [] && outs[|outs| - 1] == [] {
      var last := |outs| - 1;
      ChainStaysFaultFree(states, rooms, outs, last);
      EmptyRead(states[last], rooms[last], states[last + 1]);
      SessionConserves(states[0], rooms);
      BytesOfContent(states[0]);
    }
  }
}
