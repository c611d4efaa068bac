/** The handle table of the HTTP driver. */
module HttpHandles {
  import opened Common
  import opened ByteSource
  import opened HttpBody
  import Sessions

  /** A response whose body was not read yet, or one that is being read. */
  datatype HttpCtx = Response(body: seq<Item>) | Streaming(state: StreamState)

  /** What is still to be read of an entry. */
  ghost function PendingOf(entry: HttpCtx): seq<Symbol>
    reads if entry.Streaming? then {entry.state} else {}
  {
    match entry
    case Response(body) => Symbols(body)
    case Streaming(state) => state.Pending()
  }

  /** The arms of `http_read_body`: a response becomes a stream, and the stream is read. */
  method ReadEntry(entry: HttpCtx, buf: array<byte>) returns (state: StreamState, readn: nat)
    requires entry.Streaming? ==> entry.state.Valid()
    modifies if entry.Streaming? then {entry.state} else {}, buf
    ensures state.Valid() && readn <= buf.Length
    ensures if entry.Streaming? then state == entry.state else fresh(state)
    ensures Serves(old(PendingOf(entry)), buf.Length, buf[..readn], state.Pending())
    ensures forall i | readn <= i < buf.Length :: buf[i] == old(buf[i])
  {
    match entry {
      case Response(body) =>
        state := new StreamState(body);
      case Streaming(s) =>
        state := s;
    }
    readn := StreamRead(state, buf);
  }

  type Entries = map<u32, HttpCtx>

  /** The streams that are being read. */
  ghost function Streams(ctx: Entries): set<StreamState> {
    set h | h in ctx && ctx[h].Streaming? :: ctx[h].state
  }

  /** No two handles share a stream. */
  ghost predicate Apart(ctx: Entries) {
    forall g, h | g in ctx && h in ctx && g != h && ctx[g].Streaming? && ctx[h].Streaming? ::
      ctx[g].state != ctx[h].state
  }

  /** Each handle was given out; the first 2^32 of them all differ. */
  ghost predicate Numbered(ctx: Entries, issued: nat) {
    issued < U32 ==> forall h | h in ctx :: 1 <= h <= issued
  }

  ghost predicate AllValid(ctx: Entries)
    reads Streams(ctx)
  {
    forall h | h in ctx && ctx[h].Streaming? :: ctx[h].state.Valid()
  }

  /** Putting a stream in the place of an entry that it belongs to, or that none of the others does. */
  lemma PutBack(ctx: Entries, fd: u32, state: StreamState)
    requires Apart(ctx) && fd in ctx
    requires if ctx[fd].Streaming? then state == ctx[fd].state else state !in Streams(ctx)
    ensures Apart(ctx[fd := Streaming(state)])
    ensures Streams(ctx[fd := Streaming(state)]) == Streams(ctx) + {state}
    ensures forall h | h in ctx && h != fd && ctx[h].Streaming? :: ctx[h].state != state
  {
    var after := ctx[fd := Streaming(state)];
    assert after[fd].state == state;
    forall s | s in Streams(ctx) ensures s in Streams(after) {
      var h :| h in ctx && ctx[h].Streaming? && ctx[h].state == s;
      assert after[h].Streaming? && after[h].state == s;
    }
  }

  /** Putting a response in the place of an entry, or where there was none. */
  lemma PutResponse(ctx: Entries, fd: u32, body: seq<Item>)
    requires Apart(ctx)
    ensures Apart(ctx[fd := Response(body)]) && Streams(ctx[fd := Response(body)]) <= Streams(ctx)
  {
  }

  class HttpDriver {
    var maxHandle: u32
    var ctx: map<u32, HttpCtx>
    /** How many handles were given out so far. */
    ghost var issued: nat

    ghost function Repr(): set<StreamState>
      reads this
    {
      Streams(ctx)
    }

    ghost predicate Valid()
      reads this, Repr()
    {
      maxHandle == issued % U32 && Numbered(ctx, issued) && Apart(ctx) && AllValid(ctx)
    }

    /** What is still to be read through a handle. */
    ghost function Pending(h: u32): seq<Symbol>
      requires h in ctx
      reads this, Repr()
    {
      PendingOf(ctx[h])
    }

    /** What is still to be read, by handle. */
    ghost function Sources(): Sessions.Sources
      reads this, Repr()
    {
      map h | h in ctx :: Pending(h)
    }

    constructor ()
      ensures Valid() && ctx == map[] && issued == 0
    {
      maxHandle, ctx, issued := 0, map[], 0;
    }

    /** `increase_fd`, which wraps around: each of the first 2^32 handles is a new one. */
    method IncreaseFd() returns (fd: u32)
      requires Valid()
      modifies this`maxHandle, this`issued
      ensures Valid() && issued == old(issued) + 1 && fd == issued % U32 && (issued < U32 ==> 1 <= fd <= issued)
      ensures old(issued) < U32 ==> fd !in ctx
    {
      maxHandle := (maxHandle + 1) % U32;
      issued := issued + 1;
      return maxHandle;
    }

    /**
     * The end of `http_req`: the next handle gets the response. After 2^32 of them this is 1 again,
     * and replaces the response that may still be there. What the other handles deliver is
     * unchanged.
     */
    method Register(body: seq<Item>) returns (fd: u32)
      requires Valid()
      modifies this
      ensures Valid() && issued == old(issued) + 1 && fd == issued % U32 && ctx == old(ctx)[fd := Response(body)]
      ensures old(issued) < U32 ==> fd !in old(ctx)
      ensures old(issued) == U32 ==> fd == 1
      ensures Sessions.Next(old(Sources()), Sessions.Opened(fd, Symbols(body)), Sources())
    {
      ghost var before := Sources();
      fd := IncreaseFd();
      PutResponse(ctx, fd, body);
      ctx := ctx[fd := Response(body)];
      Sessions.IsOpening(before, fd, Symbols(body), Sources());
    }

    /** The read through an open handle: the entry is taken out, read, and put back as a stream. */
    method ReadOpen(fd: u32, buf: array<byte>) returns (readn: nat)
      requires Valid() && fd in ctx
      modifies this`ctx, Repr(), buf
      ensures Valid() && ctx.Keys == old(ctx.Keys) && fresh(Repr() - old(Repr()))
      ensures readn <= buf.Length && Serves(old(Pending(fd)), buf.Length, buf[..readn], Pending(fd))
      ensures forall i | readn <= i < buf.Length :: buf[i] == old(buf[i])
      ensures forall h | h in old(ctx) && h != fd :: Pending(h) == old(Pending(h))
    {
      var entry := ctx[fd];
      ctx := ctx - {fd};
      var state;
      state, readn := ReadEntry(entry, buf);
      ctx := ctx[fd := Streaming(state)];
      PutBack(old(ctx), fd, state);
      assert ctx == old(ctx)[fd := Streaming(state)];
      forall h | h in old(ctx) && h != fd
        ensures Pending(h) == old(Pending(h))
      {
        assert ctx[h] == old(ctx)[h];
        if ctx[h].Streaming? {
          assert unchanged(ctx[h].state);
        }
      }
    }

    /**
     * `http_read_body`: the handle is taken out for the read and put back as a stream. The read is
     * one of the source behind the handle, and what the other handles deliver is unchanged.
     */
    method ReadBody(fd: u32, buf: array<byte>) returns (r: Result<nat, Error>)
      requires Valid()
      modifies this`ctx, Repr(), buf
      ensures Valid() && ctx.Keys == old(ctx.Keys) && fresh(Repr() - old(Repr()))
      ensures fd !in old(ctx) ==> r == Err(Badf) && buf[..] == old(buf[..]) && Sources() == old(Sources())
      ensures fd in old(ctx) ==>
                && r.Ok? && r.value <= buf.Length
                && Sessions.Next(old(Sources()), Sessions.Read(fd, buf.Length, buf[..r.value]), Sources())
                && forall i | r.value <= i < buf.Length :: buf[i] == old(buf[i])
    {
      if fd !in ctx {
        return Err(Badf);
      }
      ghost var before := Sources();
      var readn := ReadOpen(fd, buf);
      Sessions.IsRead(before, fd, buf.Length, buf[..readn], Sources());
      return Ok(readn);
    }

    /** `http_close`; what the other handles deliver is unchanged. */
    method Close(fd: u32) returns (r: Result<(), Error>)
      requires Valid()
      modifies this
      ensures Valid() && ctx == old(ctx) - {fd} && issued == old(issued)
      ensures r.Ok? <==> fd in old(ctx)
      ensures Sessions.Next(old(Sources()), Sessions.Closed(fd), Sources())
    {
      ghost var before := Sources();
      r := if fd in ctx then Ok(()) else Err(Badf);
      ctx := ctx - {fd};
      assert Sources() == before - {fd};
    }
  }
}
