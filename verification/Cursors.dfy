/** Readers that hand out a finished text from a cursor on: `copy_remain`, and the CGI directory list. */
module Cursors {
  import opened Common
  import opened ByteSource
  import Sessions

  /** Writes `bytes` at the start of `buf`. */
  method Fill(buf: array<byte>, bytes: seq<byte>)
    requires |bytes| <= buf.Length
    modifies buf
    ensures buf[..|bytes|] == bytes
    ensures forall i | |bytes| <= i < buf.Length :: buf[i] == old(buf[i])
  {
    forall i | 0 <= i < |bytes| {
      buf[i] := bytes[i];
    }
  }

  /** Handing out the next `n` bytes of a text is a read of the part behind the cursor. */
  lemma CursorServes(text: seq<byte>, point: nat, room: nat)
    requires point <= |text|
    ensures var n := Min(|text| - point, room);
            Serves(Lift(text[point..]), room, text[point..point + n], Lift(text[point + n..]))
  {
    var n := Min(|text| - point, room);
    assert Lift(text[point..]) == Lift(text[point..point + n]) + Lift(text[point + n..]);
    if n < room {
      assert Lift(text[point + n..]) == [];
    }
  }

  /** A read at the end of a text delivers nothing. */
  lemma EndServes(text: seq<byte>, point: nat, room: nat)
    requires point == |text|
    ensures Lift(text[point..]) == [] && Serves([], room, [], [])
  {
    assert Lift(text[point..]) == [] && Lift([]) == [];
  }

  /** A reader with an optional body and a read point. */
  class RemainReader {
    var body: Option<seq<byte>>
    var readPoint: nat

    ghost predicate Valid()
      reads this
    {
      body.Some? ==> readPoint <= |body.value|
    }

    ghost function Pending(): seq<Symbol>
      requires Valid()
      reads this
    {
      if body.Some? then Lift(body.value[readPoint..]) else []
    }

    constructor (body: Option<seq<byte>>)
      ensures Valid() && Pending() == if body.Some? then Lift(body.value) else []
    {
      this.body, readPoint := body, 0;
      new;
      assert body.Some? ==> body.value[0..] == body.value;
    }

    function Remain(): nat
      requires Valid()
      reads this
    {
      if body.Some? then |body.value| - readPoint else 0
    }

    method CopyRemain(buf: array<byte>) returns (size: nat)
      requires Valid()
      modifies this, buf
      ensures Valid() && body == old(body)
      ensures size <= buf.Length && Serves(old(Pending()), buf.Length, buf[..size], Pending())
      ensures forall i | size <= i < buf.Length :: buf[i] == old(buf[i])
    {
      var remain := Remain();
      if remain == 0 {
        EndServes(if body.Some? then body.value else [], if body.Some? then readPoint else 0, buf.Length);
        return 0;
      }
      size := if remain <= buf.Length then remain else buf.Length;
      CursorServes(body.value, readPoint, buf.Length);
      Fill(buf, body.value[readPoint..readPoint + size]);
      if size > 0 {
        readPoint := readPoint + size;
      }
    }
  }

  /** A handle of the CGI driver: a running process, or a directory listing and how much of it was read. */
  datatype CgiCtx = Process(id: nat) | DirectoryList(text: seq<byte>, pos: nat)

  type Contexts = map<u32, CgiCtx>

  /** Every cursor lies in its text. */
  ghost predicate InTexts(ctx: Contexts) {
    forall h | h in ctx && ctx[h].DirectoryList? :: ctx[h].pos <= |ctx[h].text|
  }

  /** What is still to be read of the listings, by handle. */
  ghost function ListingSources(ctx: Contexts): Sessions.Sources
    requires InTexts(ctx)
  {
    map h | h in ctx && ctx[h].DirectoryList? :: Lift(ctx[h].text[ctx[h].pos..])
  }

  lemma OpeningStep(ctx: Contexts, h: u32, text: seq<byte>)
    requires InTexts(ctx)
    ensures InTexts(ctx[h := DirectoryList(text, 0)])
    ensures Sessions.Next(ListingSources(ctx), Sessions.Opened(h, Lift(text)),
                          ListingSources(ctx[h := DirectoryList(text, 0)]))
  {
    assert text[0..] == text;
    Sessions.IsOpening(ListingSources(ctx), h, Lift(text), ListingSources(ctx[h := DirectoryList(text, 0)]));
  }

  lemma ReadStep(ctx: Contexts, h: u32, text: seq<byte>, pos: nat, n: nat, room: nat, out: seq<byte>)
    requires InTexts(ctx) && h in ctx && ctx[h] == DirectoryList(text, pos)
    requires n == Min(|text| - pos, room) && out == text[pos..pos + n]
    ensures InTexts(ctx[h := DirectoryList(text, pos + n)])
    ensures Sessions.Next(ListingSources(ctx), Sessions.Read(h, room, out),
                          ListingSources(ctx[h := DirectoryList(text, pos + n)]))
  {
    CursorServes(text, pos, room);
    Sessions.IsRead(ListingSources(ctx), h, room, out, ListingSources(ctx[h := DirectoryList(text, pos + n)]));
  }

  lemma ClosingStep(ctx: Contexts, h: u32, after: Contexts)
    requires InTexts(ctx)
    requires after == ctx - {h} || exists id :: after == ctx[h := Process(id)]
    ensures InTexts(after) && Sessions.Next(ListingSources(ctx), Sessions.Closed(h), ListingSources(after))
  {
    Sessions.IsClosing(ListingSources(ctx), h, ListingSources(after));
  }

  class CgiDriver {
    var maxHandle: u32
    var ctx: map<u32, CgiCtx>
    /** How many handles were given out so far. */
    ghost var issued: nat

    ghost predicate Valid()
      reads this
    {
      && maxHandle == issued % U32 && (issued < U32 ==> forall h | h in ctx :: 1 <= h <= issued)
      && InTexts(ctx)
    }

    ghost function Pending(h: u32): seq<Symbol>
      requires Valid() && h in ctx && ctx[h].DirectoryList?
      reads this
    {
      Lift(ctx[h].text[ctx[h].pos..])
    }

    /** What is still to be read of the listings, by handle. */
    ghost function Sources(): Sessions.Sources
      requires Valid()
      reads this
    {
      ListingSources(ctx)
    }

    constructor ()
      ensures Valid() && ctx == map[] && issued == 0
    {
      maxHandle, ctx, issued := 0, map[], 0;
    }

    /** Each of the first 2^32 handles is a new one. */
    method IncreaseHandle() returns (h: u32)
      requires Valid()
      modifies this`maxHandle, this`issued
      ensures Valid() && issued == old(issued) + 1 && h == issued % U32
      ensures old(issued) < U32 ==> h !in ctx
    {
      maxHandle := (maxHandle + 1) % U32;
      issued := issued + 1;
      return maxHandle;
    }

    /**
     * The end of `cgi_directory_list_exec`: the listing gets the next handle. After 2^32 of them
     * this is 1 again, and replaces what may still be there.
     */
    method ListExec(text: seq<byte>) returns (handle: u32)
      requires Valid()
      modifies this
      ensures Valid() && issued == old(issued) + 1 && handle == issued % U32
      ensures old(issued) < U32 ==> handle !in old(ctx)
      ensures old(issued) == U32 ==> handle == 1
      ensures ctx == old(ctx)[handle := DirectoryList(text, 0)] && Pending(handle) == Lift(text)
      ensures Sessions.Next(old(Sources()), Sessions.Opened(handle, Lift(text)), Sources())
    {
      handle := IncreaseHandle();
      OpeningStep(ctx, handle, text);
      ctx := ctx[handle := DirectoryList(text, 0)];
      assert text[0..] == text;
    }

    /** `command_and_exec`: a handle is used up even when the program cannot be started. */
    method CommandExec(started: Result<nat, Error>) returns (r: Result<u32, Error>)
      requires Valid()
      modifies this
      ensures Valid() && issued == old(issued) + 1
      ensures match started
              case Err(e) => r == Err(e) && ctx == old(ctx)
              case Ok(id) => r == Ok(issued % U32) && ctx == old(ctx)[r.value := Process(id)]
      ensures r.Ok? && old(issued) < U32 ==> r.value !in old(ctx)
      ensures r.Ok? ==> Sessions.Next(old(Sources()), Sessions.Closed(r.value), Sources())
    {
      var handle := IncreaseHandle();
      if started.Err? {
        return Err(started.error);
      }
      ClosingStep(ctx, handle, ctx[handle := Process(started.value)]);
      ctx := ctx[handle := Process(started.value)];
      return Ok(handle);
    }

    /**
     * Reading a listing: the handle is taken out, and put back only if it is one. A handle of a
     * process is dropped by the failed read.
     */
    method ListRead(handle: u32, buf: array<byte>) returns (r: Result<nat, Error>)
      requires Valid()
      modifies this, buf
      ensures Valid() && issued == old(issued)
      ensures forall h | h != handle :: (h in ctx <==> h in old(ctx)) && (h in ctx ==> ctx[h] == old(ctx)[h])
      ensures if handle in old(ctx) && old(ctx)[handle].DirectoryList? then
                && r.Ok? && r.value <= buf.Length
                && handle in ctx && ctx[handle].DirectoryList?
                && (forall i | r.value <= i < buf.Length :: buf[i] == old(buf[i]))
              else r == Err(Badf) && handle !in ctx && buf[..] == old(buf[..])
      ensures Sessions.Next(old(Sources()),
                            if r.Ok? then Sessions.Read(handle, buf.Length, buf[..r.value])
                            else Sessions.Closed(handle),
                            Sources())
    {
      var entry := if handle in ctx then Some(ctx[handle]) else None;
      ctx := ctx - {handle};
      if entry.None? || !entry.value.DirectoryList? {
        ClosingStep(old(ctx), handle, ctx);
        return Err(Badf);
      }
      var text, pos := entry.value.text, entry.value.pos;
      var remaining := |text| - pos;
      var copyn := Min(remaining, buf.Length);
      if remaining == 0 {
        ctx := ctx[handle := DirectoryList(text, pos)];
        ReadStep(old(ctx), handle, text, pos, 0, buf.Length, []);
        assert ctx == old(ctx)[handle := DirectoryList(text, pos)] && buf[..0] == [];
        return Ok(0);
      }
      Fill(buf, text[pos..pos + copyn]);
      ctx := ctx[handle := DirectoryList(text, pos + copyn)];
      ReadStep(old(ctx), handle, text, pos, copyn, buf.Length, text[pos..pos + copyn]);
      assert ctx == old(ctx)[handle := DirectoryList(text, pos + copyn)];
      return Ok(copyn);
    }

    method Close(handle: u32) returns (r: Result<(), Error>)
      requires Valid()
      modifies this
      ensures Valid() && ctx == old(ctx) - {handle} && issued == old(issued)
      ensures r.Ok? <==> handle in old(ctx)
      ensures Sessions.Next(old(Sources()), Sessions.Closed(handle), Sources())
    {
      r := if handle in ctx then Ok(()) else Err(Badf);
      ctx := ctx - {handle};
      ClosingStep(old(ctx), handle, ctx);
    }
  }
}
