/** Sources behind handles: runs in which handles are opened, read and closed in any order. */
module Sessions {
  import opened Common
  import opened ByteSource

  /** What is still to be read through each handle. */
  type Sources = map<u32, seq<Symbol>>

  datatype Event =
    | Opened(handle: u32, content: seq<Symbol>)
    | Read(handle: u32, room: nat, out: seq<byte>)
    | Closed(handle: u32)

  /** A step concerns its own handle only; a read is one of the source behind it. */
  ghost predicate Next(s: Sources, e: Event, t: Sources) {
    match e
    case Opened(h, content) => t == s[h := content]
    case Read(h, room, out) => h in s && h in t && t == s[h := t[h]] && Serves(s[h], room, out, t[h])
    case Closed(h) => t == s - {h}
  }

  lemma IsOpening(s: Sources, h: u32, content: seq<Symbol>, t: Sources)
    requires t.Keys == s.Keys + {h} && t[h] == content && forall g | g in s && g != h :: t[g] == s[g]
    ensures Next(s, Opened(h, content), t)
  {
  }

  lemma IsRead(s: Sources, h: u32, room: nat, out: seq<byte>, t: Sources)
    requires h in s && t.Keys == s.Keys && Serves(s[h], room, out, t[h]) && forall g | g in s && g != h :: t[g] == s[g]
    ensures Next(s, Read(h, room, out), t)
  {
  }

  lemma IsClosing(s: Sources, h: u32, t: Sources)
    requires t.Keys == s.Keys - {h} && forall g | g in t :: t[g] == s[g]
    ensures Next(s, Closed(h), t)
  {
  }

  ghost predicate IsRun(states: seq<Sources>, events: seq<Event>) {
    |states| == |events| + 1 && forall i | 0 <= i < |events| :: Next(states[i], events[i], states[i + 1])
  }

  /** What the events at positions `from` up to `end` deliver through a handle, one read after the other. */
  function Delivered(events: seq<Event>, h: u32, from: nat, end: nat): seq<byte>
    requires from <= end <= |events|
    decreases end
  {
    if from == end then []
    else
      Delivered(events, h, from, end - 1)
      + (if events[end - 1].Read? && events[end - 1].handle == h then events[end - 1].out else [])
  }

  /** The handle is neither closed nor given out again. */
  ghost predicate StaysOpen(events: seq<Event>, h: u32, from: nat, end: nat)
    requires from <= end <= |events|
  {
    forall i | from <= i < end :: events[i].Read? || events[i].handle != h
  }

  lemma StepConserves(s: Sources, e: Event, t: Sources, h: u32)
    requires Next(s, e, t) && h in s && (e.Read? || e.handle != h)
    ensures h in t
    ensures Bytes(s[h]) == (if e.Read? && e.handle == h then e.out else []) + Bytes(t[h])
  {
    if e.Read? && e.handle == h {
      ServesConserves(s[h], e.room, e.out, t[h]);
    }
  }

  /**
   * Whatever happens through other handles in between: what the reads of a handle deliver, followed
   * by what is still to be read, is what was to be read at first, errors or not.
   */
  lemma {:induction false} RunConserves(states: seq<Sources>, events: seq<Event>, h: u32, from: nat, end: nat)
    requires IsRun(states, events) && from <= end <= |events|
    requires h in states[from] && StaysOpen(events, h, from, end)
    ensures h in states[end]
    ensures Bytes(states[from][h]) == Delivered(events, h, from, end) + Bytes(states[end][h])
    decreases end
  {
    if from < end {
      RunConserves(states, events, h, from, end - 1);
      assert Next(states[end - 1], events[end - 1], states[end]);
      StepConserves(states[end - 1], events[end - 1], states[end], h);
      var out := if events[end - 1].Read? && events[end - 1].handle == h then events[end - 1].out else [];
      Associate(Delivered(events, h, from, end - 1), out, Bytes(states[end][h]));
    }
  }

  lemma StepStaysFaultFree(s: Sources, e: Event, t: Sources, h: u32)
    requires Next(s, e, t) && h in s && FaultFree(s[h]) && (e.Read? || e.handle != h)
    ensures h in t && FaultFree(t[h])
  {
    if e.Read? && e.handle == h {
      if e.room > 0 {
        ServesIsExact(s[h], e.room, e.out, t[h]);
        FaultFreeRead(s[h], e.room);
      } else {
        assert s[h] == [Fault] + t[h] ==> s[h][0] == Fault;
      }
    }
  }

  lemma {:induction false} RunStaysFaultFree(states: seq<Sources>, events: seq<Event>, h: u32, from: nat, end: nat)
    requires IsRun(states, events) && from <= end <= |events|
    requires h in states[from] && StaysOpen(events, h, from, end) && FaultFree(states[from][h])
    ensures h in states[end] && FaultFree(states[end][h])
    decreases end
  {
    if from < end {
      RunStaysFaultFree(states, events, h, from, end - 1);
      assert Next(states[end - 1], events[end - 1], states[end]);
      StepStaysFaultFree(states[end - 1], events[end - 1], states[end], h);
    }
  }

  /**
   * What a handle delivers, from when it was opened on, is a prefix of its own content, whatever
   * is read through other handles. Once a read into a non-empty buffer returns nothing, and the
   * content has no errors, it was delivered as a whole.
   */
  lemma HandleDeliversOwnContent(states: seq<Sources>, events: seq<Event>, start: nat, end: nat)
    requires IsRun(states, events) && start < end <= |events| && events[start].Opened?
    requires StaysOpen(events, events[start].handle, start + 1, end)
    ensures var content := events[start].content;
            var delivered := Delivered(events, events[start].handle, start + 1, end);
            && delivered <= Bytes(content)
            && (FaultFree(content) && start + 1 < end && events[end - 1].Read?
                && events[end - 1].handle == events[start].handle && events[end - 1].room > 0
                && events[end - 1].out == [] ==>
                  delivered == Content(content))
  {
    var h, content := events[start].handle, events[start].content;
    assert Next(states[start], events[start], states[start + 1]);
    RunConserves(states, events, h, start + 1, end);
    if FaultFree(content) && start + 1 < end {
      var last := events[end - 1];
      RunStaysFaultFree(states, events, h, start + 1, end - 1);
      RunConserves(states, events, h, start + 1, end - 1);
      BytesOfContent(content);
      assert Next(states[end - 1], last, states[end]);
      if last.Read? && last.handle == h && last.room > 0 && last.out == [] {
        EmptyRead(states[end - 1][h], last.room, states[end][h]);
      }
    }
  }
}
