/** Reading a response body: a stream of chunks served through a left-over buffer. */
module HttpBody {
  import opened Common
  import opened ByteSource

  /** What the body stream yields next: a chunk, which may be empty, or an error. */
  datatype Item = Chunk(bytes: seq<byte>) | StreamError

  function Symbols(items: seq<Item>): seq<Symbol> {
    if items == [] then []
    else (if items[0].Chunk? then Lift(items[0].bytes) else [Fault]) + Symbols(items[1..])
  }

  /**
   * What a body stream comes to, part by part; for a single chunk, and for an error, this is said
   * by `SymbolsOfOne`.
   */
  lemma {:induction false} SymbolsOfParts(a: seq<Item>, b: seq<Item>)
    ensures Symbols(a + b) == Symbols(a) + Symbols(b)
  {
    if a == [] {
      assert a + b == b;
    } else {
      SymbolsOfParts(a[1..], b);
      assert (a + b)[1..] == a[1..] + b && (a + b)[0] == a[0];
      var first := if a[0].Chunk? then Lift(a[0].bytes) else [Fault];
      assert Symbols(a + b) == first + Symbols((a + b)[1..]);
      Associate(first, Symbols(a[1..]), Symbols(b));
    }
  }

  /** A chunk gives its bytes, each once and in order, and an error a break. */
  lemma SymbolsOfOne(bytes: seq<byte>)
    ensures |Symbols([Chunk(bytes)])| == |bytes|
    ensures forall i | 0 <= i < |bytes| :: Symbols([Chunk(bytes)])[i] == Data(bytes[i])
    ensures Symbols([]) == [] && Symbols([StreamError]) == [Fault]
  {
    assert [Chunk(bytes)][1..] == [] && [StreamError][1..] == [];
    assert Symbols([Chunk(bytes)]) == Lift(bytes) + Symbols([]);
    assert Symbols([StreamError]) == [Fault] + Symbols([]);
  }

  function LeftOver(buffer: Option<seq<byte>>): seq<Symbol> {
    if buffer.Some? then Lift(buffer.value) else []
  }

  class StreamState {
    var stream: seq<Item>
    var buffer: Option<seq<byte>>

    /** A left-over buffer is never empty. */
    ghost predicate Valid()
      reads this
    {
      buffer.Some? ==> buffer.value != []
    }

    /** Everything still to be read. */
    ghost function Pending(): seq<Symbol>
      reads this
    {
      LeftOver(buffer) + Symbols(stream)
    }

    constructor (items: seq<Item>)
      ensures Valid() && Pending() == Symbols(items)
    {
      stream, buffer := items, None;
      new;
      assert LeftOver(None) + Symbols(items) == Symbols(items);
    }
  }

  /**
   * Copies what fits from a buffer into `dest` from `at` on; returns how much, and the rest of the
   * buffer. `got` names what `dest` holds below `at`.
   */
  method ReadCall(buffer: seq<byte>, dest: array<byte>, at: nat, ghost got: seq<byte>)
    returns (n: nat, remaining: seq<byte>)
    requires at <= dest.Length && dest[..at] == got
    modifies dest
    ensures n == Min(|buffer|, dest.Length - at) && remaining == buffer[n..]
    ensures dest[..at + n] == got + buffer[..n]
    ensures forall i | at + n <= i < dest.Length :: dest[i] == old(dest[i])
  {
    n := 0;
    remaining := buffer;
    if |buffer| > 0 {
      n := Min(dest.Length - at, |buffer|);
      forall i | 0 <= i < n {
        dest[at + i] := buffer[i];
      }
      remaining := buffer[n..];
    }
  }

  /** Bytes taken off the front of what is pending move to the end of what was delivered. */
  lemma MoveFront(whole: seq<Symbol>, got: seq<byte>, front: seq<byte>, n: nat, rest: seq<Symbol>)
    requires n <= |front| && whole == Lift(got) + (Lift(front) + rest)
    ensures whole == Lift(got + front[..n]) + (Lift(front[n..]) + rest)
  {
    assert Lift(front) == Lift(front[..n]) + Lift(front[n..]);
    assert Lift(got + front[..n]) == Lift(got) + Lift(front[..n]);
    Associate(Lift(front[..n]), Lift(front[n..]), rest);
    Associate(Lift(got), Lift(front[..n]), Lift(front[n..]) + rest);
  }

  lemma Unfold(items: seq<Item>)
    requires items != []
    ensures items[0].Chunk? ==> Symbols(items) == Lift(items[0].bytes) + Symbols(items[1..])
    ensures items[0].StreamError? ==> Symbols(items) == [Fault] + Symbols(items[1..])
  {
  }

  lemma NothingLeft(remaining: seq<byte>, stream: seq<Item>)
    ensures LeftOver(if remaining == [] then None else Some(remaining)) == Lift(remaining)
    ensures LeftOver(None) + Symbols(stream) == Symbols(stream)
  {
  }

  lemma FullRead(before: seq<Symbol>, room: nat, got: seq<byte>, left: seq<Symbol>)
    requires |got| == room && before == Lift(got) + left
    ensures Serves(before, room, got, left)
  {
    assert room == 0 ==> before == left;
  }

  lemma ErrorRead(before: seq<Symbol>, room: nat, got: seq<byte>, left: seq<Symbol>)
    requires |got| <= room && (|got| == room ==> room == 0) && before == Lift(got) + ([Fault] + left)
    ensures Serves(before, room, got, left)
  {
    Associate(Lift(got), [Fault], left);
    assert room == 0 ==> before == [Fault] + left;
  }

  lemma LastRead(before: seq<Symbol>, room: nat, got: seq<byte>)
    requires |got| <= room && (|got| == room ==> room == 0) && before == Lift(got) + []
    ensures Serves(before, room, got, [])
  {
    assert before == Lift(got);
  }

  /** The arm of the read loop that serves the left-over buffer. */
  method ReadLeftOver(state: StreamState, dest: array<byte>, readn: nat, ghost before: seq<Symbol>,
                      ghost got: seq<byte>)
    returns (k: nat, ghost more: seq<byte>)
    requires state.Valid() && state.buffer.Some? && readn <= dest.Length && dest[..readn] == got
    requires before == Lift(got) + state.Pending()
    modifies state, dest
    ensures state.Valid() && state.stream == old(state.stream)
    ensures readn + k <= dest.Length && dest[..readn + k] == got + more && |more| == k
    ensures forall i | readn + k <= i < dest.Length :: dest[i] == old(dest[i])
    ensures before == Lift(got + more) + state.Pending()
    ensures if readn + k < dest.Length then state.buffer.None?
            else Serves(before, dest.Length, got + more, state.Pending())
  {
    var buffer := state.buffer.value;
    var remaining;
    k, remaining := ReadCall(buffer, dest, readn, got);
    more := buffer[..k];
    MoveFront(before, got, buffer, k, Symbols(state.stream));
    if |remaining| == 0 {
      state.buffer := None;
    } else {
      state.buffer := Some(remaining);
    }
    NothingLeft(remaining, state.stream);
    if readn + k == dest.Length {
      FullRead(before, dest.Length, got + more, state.Pending());
    }
  }

  /** The arm of the read loop that takes the next item off the stream; `None` when it yields no chunk. */
  method ReadNextChunk(state: StreamState, dest: array<byte>, readn: nat, ghost before: seq<Symbol>,
                       ghost got: seq<byte>)
    returns (k: Option<nat>, ghost more: seq<byte>)
    requires state.Valid() && state.buffer.None? && readn <= dest.Length && dest[..readn] == got
    requires readn == dest.Length ==> readn == 0
    requires before == Lift(got) + state.Pending()
    modifies state, dest
    ensures state.Valid()
    ensures k.Some? ==>
              && |state.stream| < |old(state.stream)|
              && readn + k.value <= dest.Length && dest[..readn + k.value] == got + more && |more| == k.value
              && before == Lift(got + more) + state.Pending()
              && (if readn + k.value < dest.Length then state.buffer.None?
                  else Serves(before, dest.Length, got + more, state.Pending()))
    ensures k.None? ==> dest[..readn] == got && Serves(before, dest.Length, got, state.Pending())
    ensures forall i | readn + (if k.Some? then k.value else 0) <= i < dest.Length :: dest[i] == old(dest[i])
  {
    NothingLeft([], state.stream);
    more := [];
    if state.stream == [] {
      LastRead(before, dest.Length, got);
      return None, more;
    }
    Unfold(state.stream);
    var item := state.stream[0];
    state.stream := state.stream[1..];
    if item.StreamError? {
      NothingLeft([], state.stream);
      ErrorRead(before, dest.Length, got, state.Pending());
      return None, more;
    }
    var n, remaining := ReadCall(item.bytes, dest, readn, got);
    more := item.bytes[..n];
    MoveFront(before, got, item.bytes, n, Symbols(state.stream));
    if |remaining| > 0 {
      state.buffer := Some(remaining);
    }
    NothingLeft(remaining, state.stream);
    if readn + n == dest.Length {
      FullRead(before, dest.Length, got + more, state.Pending());
    }
    return Some(n), more;
  }

  /**
   * One read. Chunks are taken from the stream as long as there is room; what does not fit of a
   * chunk is left over for the next read.
   */
  method StreamRead(state: StreamState, dest: array<byte>) returns (n: nat)
    requires state.Valid()
    modifies state, dest
    ensures state.Valid()
    ensures n <= dest.Length && forall i | n <= i < dest.Length :: dest[i] == old(dest[i])
    ensures Serves(old(state.Pending()), dest.Length, dest[..n], state.Pending())
  {
    ghost var before := state.Pending();
    ghost var got: seq<byte>, more: seq<byte> := [], [];
    assert Lift(got) + before == before;
    var readn: nat := 0;
    while true
      invariant state.Valid() && readn <= dest.Length && (readn == dest.Length ==> readn == 0)
      invariant dest[..readn] == got
      invariant forall i | readn <= i < dest.Length :: dest[i] == old(dest[i])
      invariant before == Lift(got) + state.Pending()
      decreases |state.stream|, if state.buffer.Some? then 1 else 0
    {
      if state.buffer.Some? {
        var k;
        k, more := ReadLeftOver(state, dest, readn, before, got);
        readn, got := readn + k, got + more;
        if dest.Length == readn {
          return readn;
        }
      } else {
        var k;
        k, more := ReadNextChunk(state, dest, readn, before, got);
        if k.None? {
          return readn;
        }
        readn, got := readn + k.value, got + more;
        if dest.Length == readn {
          return readn;
        }
      }
    }
  }
}
