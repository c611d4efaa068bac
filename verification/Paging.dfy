/** What a guest that pages through a directory with `fd_readdir` gets to see. */
module Paging {
  import opened Common
  import opened ReadDir

  /** A directory entry as the guest reads it out of its buffer. */
  datatype Dirent = Dirent(next: u64, inode: u64, filetype: byte, name: seq<byte>)

  // ---------- the reference guest decoder ----------

  function DecodeName(bytes: seq<byte>): u32
    requires |bytes| >= DIRENT_SIZE
  {
    ReadU32(bytes[16..20])
  }

  function DecodeFirst(bytes: seq<byte>): Dirent
    requires |bytes| >= DIRENT_SIZE && |bytes| >= DIRENT_SIZE + DecodeName(bytes)
  {
    Dirent(ReadU64(bytes[0..8]), ReadU64(bytes[8..16]), bytes[20],
           bytes[DIRENT_SIZE..DIRENT_SIZE + DecodeName(bytes)])
  }

  /** The complete records at the start of `bytes`; a record that was cut off is ignored. */
  function Decode(bytes: seq<byte>): seq<Dirent> {
    if |bytes| < DIRENT_SIZE || |bytes| < DIRENT_SIZE + DecodeName(bytes) then []
    else [DecodeFirst(bytes)] + Decode(bytes[DIRENT_SIZE + DecodeName(bytes)..])
  }

  function Seen(e: ReaddirEntity): Dirent {
    Dirent(e.next, e.inode, WireType(e.filetype), e.name)
  }

  lemma HeaderFields(e: ReaddirEntity, rest: seq<byte>)
    requires |e.name| < U32
    ensures var bytes := DirentBytes(e) + rest;
            && bytes[0..8] == LittleEndian(e.next, 8)
            && bytes[8..16] == LittleEndian(e.inode, 8)
            && bytes[16..20] == LittleEndian(|e.name|, 4)
            && bytes[20] == WireType(e.filetype)
            && bytes[21..24] == [0, 0, 0]
            && bytes[24..] == rest
  {
    var next, inode, size := LittleEndian(e.next, 8), LittleEndian(e.inode, 8), LittleEndian(|e.name|, 4);
    assert |next| == 8 && |inode| == 8 && |size| == 4;
    var bytes := next + inode + size + [WireType(e.filetype)] + [0, 0, 0] + rest;
    assert bytes == DirentBytes(e) + rest;
    assert bytes[0..8] == next;
    assert bytes[8..16] == inode;
    assert bytes[16..20] == size;
    assert bytes[21..24] == [0, 0, 0];
  }

  /** Encoding followed by decoding gives the entity back, and leaves the bytes behind it. */
  lemma DecodeRecord(e: ReaddirEntity, rest: seq<byte>)
    requires |e.name| < U32
    ensures Decode(Record(e) + rest) == [Seen(e)] + Decode(rest)
  {
    var bytes := Record(e) + rest;
    assert bytes == DirentBytes(e) + (e.name + rest);
    HeaderFields(e, e.name + rest);
    LittleEndianU64(e.next);
    LittleEndianU64(e.inode);
    LittleEndianU32(|e.name|);
    assert bytes[DIRENT_SIZE..DIRENT_SIZE + |e.name|] == e.name;
    assert bytes[DIRENT_SIZE + |e.name|..] == rest;
  }

  /** A record that was cut off decodes to nothing. */
  lemma DecodeCutRecord(e: ReaddirEntity, n: nat)
    requires |e.name| < U32 && n < |Record(e)|
    ensures Decode(Record(e)[..n]) == []
  {
    if n >= DIRENT_SIZE {
      assert Record(e)[..n] == DirentBytes(e) + e.name[..n - DIRENT_SIZE];
      HeaderFields(e, e.name[..n - DIRENT_SIZE]);
      LittleEndianU32(|e.name|);
    }
  }

  /** The position of the first record, from `from` on, that does not fit into `room` bytes with those before it. */
  function FitEnd(es: seq<EntityResult>, from: nat, end: nat, room: nat): (n: nat)
    requires AllEncodable(es, from, end)
    ensures from <= n <= end
    decreases end - from
  {
    if from == end || |Record(es[from].value)| > room then from
    else FitEnd(es, from + 1, end, room - |Record(es[from].value)|)
  }

  /** `found` is what the guest sees of the entities at positions `from` up to `end`. */
  ghost predicate Shows(found: seq<Dirent>, es: seq<EntityResult>, from: nat, end: nat)
    requires AllEncodable(es, from, end)
  {
    |found| == end - from && forall i | 0 <= i < |found| :: found[i] == Seen(es[from + i].value)
  }

  lemma {:induction false} RecordsFirst(es: seq<EntityResult>, from: nat, end: nat)
    requires AllEncodable(es, from, end) && from < end
    ensures Records(es, from, end) == Record(es[from].value) + Records(es, from + 1, end)
    decreases end
  {
    if from + 1 < end {
      var first, middle, last := Record(es[from].value), Records(es, from + 1, end - 1), Record(es[end - 1].value);
      RecordsFirst(es, from, end - 1);
      Associate(first, middle, last);
    }
  }

  lemma ShowsOneMore(rest: seq<Dirent>, es: seq<EntityResult>, from: nat, end: nat)
    requires from < end && AllEncodable(es, from, end) && Shows(rest, es, from + 1, end)
    ensures Shows([Seen(es[from].value)] + rest, es, from, end)
  {
  }

  /** Decoding any prefix of a run of records shows exactly the entities whose records are whole. */
  lemma {:induction false} DecodeCut(es: seq<EntityResult>, from: nat, end: nat, bytes: seq<byte>)
    requires AllEncodable(es, from, end) && bytes <= Records(es, from, end)
    ensures Shows(Decode(bytes), es, from, FitEnd(es, from, end, |bytes|))
    decreases end - from
  {
    if from < end {
      var head := Record(es[from].value);
      RecordsFirst(es, from, end);
      CutAtSeam(bytes, head, Records(es, from + 1, end));
      if |bytes| < |head| {
        DecodeCutRecord(es[from].value, |bytes|);
        assert Decode(bytes) == [];
      } else {
        var tail := bytes[|head|..];
        DecodeRecord(es[from].value, tail);
        DecodeCut(es, from + 1, end, tail);
        ShowsOneMore(Decode(tail), es, from, FitEnd(es, from, end, |bytes|));
      }
    }
  }

  lemma {:induction false} FitAll(es: seq<EntityResult>, from: nat, end: nat, room: nat)
    requires AllEncodable(es, from, end)
    ensures FitEnd(es, from, end, room) == end <==> |Records(es, from, end)| <= room
    decreases end - from
  {
    if from < end {
      RecordsFirst(es, from, end);
      if |Record(es[from].value)| <= room {
        FitAll(es, from + 1, end, room - |Record(es[from].value)|);
      }
    }
  }

  lemma {:induction false} FitsOneByOne(es: seq<EntityResult>, from: nat, end: nat, room: nat)
    requires AllEncodable(es, from, end)
    ensures forall i | from <= i < FitEnd(es, from, end, room) :: |Record(es[i].value)| <= room
    decreases end - from
  {
    if FitEnd(es, from, end, room) > from {
      FitsOneByOne(es, from + 1, end, room - |Record(es[from].value)|);
    }
  }

  /** What the guest gets out of one page. */
  lemma DecodePage(es: seq<EntityResult>, from: nat, bufLen: nat)
    requires from <= |es|
    ensures var end := FitEnd(es, from, Stop(es, from), bufLen);
            Shows(Decode(Page(es, from, bufLen)), es, from, end)
    ensures FitEnd(es, from, Stop(es, from), bufLen) == Stop(es, from) <==> |Stream(es, from)| <= bufLen
  {
    var stop := Stop(es, from);
    DecodeCut(es, from, stop, Page(es, from, bufLen));
    FitAll(es, from, stop, bufLen);
    FitAll(es, from, stop, |Stream(es, from)|);
  }

  // ---------- the guest's loop over calls ----------

  /** What one call tells the guest: an error, or the entries it decoded and whether the buffer was filled. */
  datatype Reply = Refused(error: Error) | Answer(found: seq<Dirent>, full: bool)

  datatype WalkEnd = Complete | Stuck(cookie: u64) | Failed(error: Error)

  datatype Walk = Walk(seen: seq<Dirent>, end: WalkEnd)

  /**
   * The guest's listing loop, started at `cookie`: call, keep the complete records, stop when the
   * buffer was not filled, otherwise resume from the last complete record's `d_next`. A full
   * buffer that brings the guest no further ends the walk.
   */
  function GuestWalk(host: (nat, u64) -> Reply, round: nat, cookie: u64): Walk
    decreases U64 - cookie
  {
    match host(round, cookie)
    case Refused(e) => Walk([], Failed(e))
    case Answer(found, full) =>
      if !full then Walk(found, Complete)
      else if found == [] || found[|found| - 1].next <= cookie then Walk([], Stuck(cookie))
      else
        var rest := GuestWalk(host, round + 1, found[|found| - 1].next);
        Walk(found + rest.seen, rest.end)
  }

  lemma WalkGoesOn(host: (nat, u64) -> Reply, round: nat, cookie: u64, found: seq<Dirent>)
    requires host(round, cookie) == Answer(found, true) && found != [] && found[|found| - 1].next > cookie
    ensures var rest := GuestWalk(host, round + 1, found[|found| - 1].next);
            GuestWalk(host, round, cookie) == Walk(found + rest.seen, rest.end)
  {
  }

  /** The host's answer at `cookie` shows a stretch of `visible`; a short answer shows the rest of it. */
  ghost predicate Faithful(reply: Reply, visible: seq<Dirent>, total: nat, cookie: u64) {
    reply.Answer? ==>
      && cookie + |reply.found| <= |visible|
      && (forall i | 0 <= i < |reply.found| :: reply.found[i] == visible[cookie + i])
      && (!reply.full ==> cookie + |reply.found| == total)
  }

  ghost predicate FaithfulHost(host: (nat, u64) -> Reply, visible: seq<Dirent>, total: nat) {
    && (forall i | 0 <= i < |visible| :: visible[i].next == i + 1)
    && (forall round: nat, cookie: u64 | cookie <= |visible| :: Faithful(host(round, cookie), visible, total, cookie))
  }

  /** One step of the walk through a faithful host. */
  lemma WalkStep(host: (nat, u64) -> Reply, visible: seq<Dirent>, total: nat, round: nat, cookie: u64)
    requires FaithfulHost(host, visible, total) && cookie <= |visible|
    requires host(round, cookie).Answer? && host(round, cookie).full && host(round, cookie).found != []
    ensures var found := host(round, cookie).found;
            var next := cookie + |found|;
            && next <= |visible| && next < U64
            && GuestWalk(host, round, cookie) ==
                 Walk(found + GuestWalk(host, round + 1, next).seen, GuestWalk(host, round + 1, next).end)
  {
    assert Faithful(host(round, cookie), visible, total, cookie);
    var found := host(round, cookie).found;
    assert found[|found| - 1] == visible[cookie + |found| - 1];
  }

  /** A guest that lists through a faithful host sees each entry once, in order, without gaps. */
  lemma {:induction false} WalkShowsVisible(host: (nat, u64) -> Reply, visible: seq<Dirent>, total: nat, round: nat,
                                            cookie: u64)
    requires FaithfulHost(host, visible, total) && cookie <= |visible|
    ensures var walk := GuestWalk(host, round, cookie);
            && cookie + |walk.seen| <= |visible|
            && (forall i | 0 <= i < |walk.seen| :: walk.seen[i] == visible[cookie + i])
            && (walk.end.Complete? ==> cookie + |walk.seen| == total)
    decreases U64 - cookie
  {
    assert Faithful(host(round, cookie), visible, total, cookie);
    match host(round, cookie)
    case Refused(e) =>
    case Answer(found, full) =>
      if full && found != [] {
        WalkStep(host, visible, total, round, cookie);
        WalkShowsVisible(host, visible, total, round + 1, cookie + |found|);
      }
  }

  /** An incomplete walk ended at a reply that refused, or brought the guest no further. */
  lemma {:induction false} WalkEnds(host: (nat, u64) -> Reply, visible: seq<Dirent>, total: nat, round: nat,
                                    cookie: u64)
    returns (last: nat, reached: u64)
    requires FaithfulHost(host, visible, total) && cookie <= |visible|
    ensures reached == cookie + |GuestWalk(host, round, cookie).seen| <= |visible|
    ensures match GuestWalk(host, round, cookie).end
            case Complete => reached == total
            case Stuck(_) => host(last, reached) == Answer([], true)
            case Failed(e) => host(last, reached) == Refused(e)
    decreases U64 - cookie
  {
    assert Faithful(host(round, cookie), visible, total, cookie);
    last, reached := round, cookie;
    match host(round, cookie)
    case Refused(e) =>
    case Answer(found, full) =>
      if full && found != [] {
        WalkStep(host, visible, total, round, cookie);
        last, reached := WalkEnds(host, visible, total, round + 1, cookie + |found|);
      } else if !full {
        reached := total;
      }
  }

  /** Every entry shown takes up at most `bound` bytes. */
  ghost predicate AllSmall(found: seq<Dirent>, bound: nat) {
    forall i | 0 <= i < |found| :: DIRENT_SIZE + |found[i].name| <= bound
  }

  ghost predicate ShowsOnlySmall(reply: Reply, bound: nat) {
    reply.Answer? ==> AllSmall(reply.found, bound)
  }

  lemma {:induction false} WalkShowsOnlySmall(host: (nat, u64) -> Reply, bound: nat, round: nat, cookie: u64)
    requires forall r: nat, c: u64 :: ShowsOnlySmall(host(r, c), bound)
    ensures AllSmall(GuestWalk(host, round, cookie).seen, bound)
    decreases U64 - cookie
  {
    assert ShowsOnlySmall(host(round, cookie), bound);
    match host(round, cookie)
    case Refused(e) =>
    case Answer(found, full) =>
      if full && found != [] && found[|found| - 1].next > cookie {
        WalkShowsOnlySmall(host, bound, round + 1, found[|found| - 1].next);
        assert GuestWalk(host, round, cookie).seen == found + GuestWalk(host, round + 1, found[|found| - 1].next).seen;
      }
  }

  // ---------- the host's side of one round ----------

  /** The entries a guest could ever see: those before the first one that cannot be encoded. */
  function Visible(dir: Dir): (r: seq<Dirent>)
    requires Representable(dir)
    ensures |r| == Stop(Entities(dir), 0) <= |Entities(dir)|
    ensures Shows(r, Entities(dir), 0, |r|)
  {
    var es := Entities(dir);
    seq(Stop(es, 0), i requires 0 <= i < Stop(es, 0) => Seen(es[i].value))
  }

  /** What `fd_readdir` gives the guest at `cookie`. */
  function HostReply(dir: Dir, bufLen: u32, cookie: u64): Reply
    requires Representable(dir)
  {
    var es := Entities(dir);
    var from := Skip(cookie, |es|);
    match CallResult(es, from, bufLen)
    case Err(e) => Refused(e)
    case Ok(used) => Answer(Decode(Page(es, from, bufLen)), used >= bufLen)
  }

  /** The first failure after a position that comes before it is the first failure of all. */
  lemma {:induction false} StopFrom(es: seq<EntityResult>, from: nat, mid: nat)
    requires from <= mid <= |es| && mid <= Stop(es, from)
    ensures Stop(es, mid) == Stop(es, from)
    decreases mid
  {
    if from < mid {
      StopFrom(es, from, mid - 1);
    }
  }

  lemma HostIsFaithful(dir: Dir, bufLen: u32, cookie: u64)
    requires Representable(dir) && cookie <= |Visible(dir)|
    ensures Faithful(HostReply(dir, bufLen, cookie), Visible(dir), |Entities(dir)|, cookie)
  {
    StopFrom(Entities(dir), 0, cookie);
    DecodePage(Entities(dir), cookie, bufLen);
  }

  /** When a reply brings the guest no further, and when it is an error. */
  lemma HostMakesProgress(dir: Dir, bufLen: u32, cookie: u64)
    requires Representable(dir) && cookie <= |Visible(dir)|
    ensures HostReply(dir, bufLen, cookie) == Answer([], true) <==>
              || (cookie == |Entities(dir)| && bufLen == 0)
              || (cookie < |Visible(dir)| && |Record(Entities(dir)[cookie].value)| > bufLen)
    ensures HostReply(dir, bufLen, cookie).Refused? ==>
              && |Visible(dir)| < |Entities(dir)|
              && HostReply(dir, bufLen, cookie).error == EncodingError(Entities(dir)[|Visible(dir)|])
              && |Records(Entities(dir), cookie, |Visible(dir)|)| <= bufLen
  {
    var es := Entities(dir);
    StopFrom(es, 0, cookie);
    DecodePage(es, cookie, bufLen);
  }

  lemma HostShowsOnlySmall(dir: Dir, bufLen: u32, cookie: u64)
    requires Representable(dir)
    ensures ShowsOnlySmall(HostReply(dir, bufLen, cookie), bufLen)
  {
    var es := Entities(dir);
    var from := Skip(cookie, |es|);
    DecodePage(es, from, bufLen);
    FitsOneByOne(es, from, Stop(es, from), bufLen);
  }

  // ---------- whole listings ----------

  function Host(dir: Dir, sizes: nat -> u32): (nat, u64) -> Reply
    requires Representable(dir)
  {
    (round: nat, cookie: u64) => HostReply(dir, sizes(round), cookie)
  }

  /** The listing a guest makes from the start, with a buffer of `sizes(round)` bytes in each round. */
  function ListDirectory(dir: Dir, sizes: nat -> u32): Walk
    requires Representable(dir)
  {
    GuestWalk(Host(dir, sizes), 0, 0)
  }

  lemma HostOfDirectory(dir: Dir, sizes: nat -> u32)
    requires Representable(dir)
    ensures FaithfulHost(Host(dir, sizes), Visible(dir), |Entities(dir)|)
  {
    forall round: nat, cookie: u64 | cookie <= |Visible(dir)|
      ensures Faithful(Host(dir, sizes)(round, cookie), Visible(dir), |Entities(dir)|, cookie)
    {
      HostIsFaithful(dir, sizes(round), cookie);
    }
  }

  /** The reply a listing ended with, and the position it had reached. */
  lemma ListingEnds(dir: Dir, sizes: nat -> u32) returns (last: nat, reached: u64)
    requires Representable(dir)
    ensures reached == |ListDirectory(dir, sizes).seen| <= |Visible(dir)|
    ensures match ListDirectory(dir, sizes).end
            case Complete => reached == |Entities(dir)|
            case Stuck(_) => HostReply(dir, sizes(last), reached) == Answer([], true)
            case Failed(e) => HostReply(dir, sizes(last), reached) == Refused(e)
  {
    HostOfDirectory(dir, sizes);
    last, reached := WalkEnds(Host(dir, sizes), Visible(dir), |Entities(dir)|, 0, 0);
  }

  lemma ListingShowsVisible(dir: Dir, sizes: nat -> u32)
    requires Representable(dir)
    ensures ListDirectory(dir, sizes).seen <= Visible(dir)
  {
    HostOfDirectory(dir, sizes);
    WalkShowsVisible(Host(dir, sizes), Visible(dir), |Entities(dir)|, 0, 0);
  }

  /**
   * Whatever the directory and the buffer sizes: the guest sees a stretch of the directory from
   * its first entry on, in order, each entry once, none skipped, and it takes the listing for
   * complete only when it has seen every entry. Otherwise the next record did not fit the buffer of
   * the last round, or an entity could not be encoded.
   */
  lemma ListingIsExact(dir: Dir, sizes: nat -> u32) returns (last: nat)
    requires Representable(dir)
    ensures var walk := ListDirectory(dir, sizes);
            var n := |walk.seen|;
            && walk.seen <= Visible(dir)
            && match walk.end
               case Complete => n == |Entities(dir)|
               case Stuck(_) =>
                 || (n == |Entities(dir)| && sizes(last) == 0)
                 || (n < |Visible(dir)| && |Record(Entities(dir)[n].value)| > sizes(last))
               case Failed(_) => |Visible(dir)| < |Entities(dir)|
  {
    ListingShowsVisible(dir, sizes);
    var reached;
    last, reached := ListingEnds(dir, sizes);
    HostMakesProgress(dir, sizes(last), reached);
  }

  /** A cookie at or behind the end of the directory shows nothing. */
  lemma NothingBehindTheEnd(dir: Dir, bufLen: u32, cookie: u64)
    requires Representable(dir) && cookie >= |dir.items| + 2
    ensures HostReply(dir, bufLen, cookie) == Answer([], bufLen == 0)
  {
    var es := Entities(dir);
    assert Skip(cookie, |es|) == |es| && Records(es, |es|, |es|) == [];
  }

  // ---------- listings in terms of the directory ----------

  /** The numbers of the file types, as the guest finds them in `d_type`. */
  ghost predicate WireNumber(ft: FileType, n: byte) {
    match ft
    case Unknown => n == 0
    case BlockDevice => n == 1
    case CharacterDevice => n == 2
    case Directory => n == 3
    case RegularFile => n == 4
    case SocketDgram => n == 5
    case SocketStream => n == 6
    case SymbolicLink => n == 7
    case Pipe => n == 0
  }

  /** What the guest sees at position `i`: ".", "..", and then the items of the directory. */
  ghost predicate IsListed(d: Dirent, dir: Dir, i: nat)
    requires i < |dir.items| + 2
  {
    && d.next == i + 1
    && if i == 0 then d.inode == dir.inode && d.filetype == 3 && d.name == [46]
       else if i == 1 then d.inode == dir.inode && d.filetype == 3 && d.name == [46, 46]
       else match dir.items[i - 2]
            case Entry(inode, ft, name) => d.inode == inode && WireNumber(ft, d.filetype) && d.name == name
            case Unreadable(_) => false
  }

  /** The size of the record at position `i`; `None` when there can be none. */
  function SizeAt(dir: Dir, i: nat): Option<nat>
    requires i < |dir.items| + 2
  {
    if i == 0 then Some(25)
    else if i == 1 then Some(26)
    else match dir.items[i - 2]
         case Entry(_, _, name) => if |name| < U32 then Some(24 + |name|) else None
         case Unreadable(_) => None
  }

  /** The size of the records at positions `from` up to `end`. */
  function SizeOf(dir: Dir, from: nat, end: nat): nat
    requires end <= |dir.items| + 2
    decreases end
  {
    if end <= from || SizeAt(dir, end - 1).None? then 0 else SizeOf(dir, from, end - 1) + SizeAt(dir, end - 1).value
  }

  /** Why there is no record at position `i`. */
  ghost predicate CannotBeListed(dir: Dir, i: nat, e: Error)
    requires i < |dir.items| + 2
  {
    i >= 2 && match dir.items[i - 2]
              case Entry(_, _, name) => |name| >= U32 && e == Overflow
              case Unreadable(why) => e == why
  }

  lemma EntityAt(dir: Dir, i: nat)
    requires Representable(dir) && i < |Entities(dir)|
    ensures var r := Entities(dir)[i];
            if Encodable(r) then
              SizeAt(dir, i) == Some(|Record(r.value)|) && IsListed(Seen(r.value), dir, i) && i < |dir.items| + 2
            else SizeAt(dir, i).None? && CannotBeListed(dir, i, EncodingError(r))
  {
    DotsAre(dir);
    if i >= 2 {
      ItemsAre(dir, i - 2);
    }
  }

  lemma {:induction false} SizeOfRecords(dir: Dir, from: nat, end: nat)
    requires Representable(dir) && AllEncodable(Entities(dir), from, end)
    ensures |Records(Entities(dir), from, end)| == SizeOf(dir, from, end)
    decreases end
  {
    if from < end {
      EntityAt(dir, end - 1);
      SizeOfRecords(dir, from, end - 1);
    }
  }

  lemma VisibleIsListed(dir: Dir, i: nat)
    requires Representable(dir) && i < |Visible(dir)|
    ensures IsListed(Visible(dir)[i], dir, i) && SizeAt(dir, i).Some?
  {
    EntityAt(dir, i);
  }

  /** The guest sees the first `n` entries of the directory, and nothing else. */
  ghost predicate SeesFirst(seen: seq<Dirent>, dir: Dir, n: nat) {
    n == |seen| <= |dir.items| + 2 && forall i | 0 <= i < n :: IsListed(seen[i], dir, i)
  }

  /**
   * Whatever the directory and the buffer sizes: the guest sees ".", ".." and the items of the
   * directory from the first on, in order, each once, none skipped, with their own inodes, types
   * and names; and it takes the listing for complete only when it has seen them all. Otherwise the
   * next record is larger than the buffer of the last round, or there is an item that cannot be
   * listed, and the records before it that the guest has not seen fit into that buffer together.
   */
  lemma ListingShowsDirectory(dir: Dir, sizes: nat -> u32) returns (last: nat)
    requires Representable(dir)
    ensures var walk := ListDirectory(dir, sizes);
            var n, all := |walk.seen|, |dir.items| + 2;
            && SeesFirst(walk.seen, dir, n)
            && match walk.end
               case Complete => n == all
               case Stuck(_) =>
                 || (n == all && sizes(last) == 0)
                 || (n < all && SizeAt(dir, n).Some? && SizeAt(dir, n).value > sizes(last))
               case Failed(e) =>
                 exists bad :: n <= bad < all && CannotBeListed(dir, bad, e) && SizeOf(dir, n, bad) <= sizes(last)
  {
    ListingShowsVisible(dir, sizes);
    var reached;
    last, reached := ListingEnds(dir, sizes);
    HostMakesProgress(dir, sizes(last), reached);
    var walk, visible := ListDirectory(dir, sizes), Visible(dir);
    forall i | 0 <= i < |walk.seen| ensures IsListed(walk.seen[i], dir, i) {
      VisibleIsListed(dir, i);
      assert walk.seen[i] == visible[i];
    }
    match walk.end {
      case Complete =>
      case Stuck(_) =>
        if reached < |Entities(dir)| {
          EntityAt(dir, reached);
        }
      case Failed(e) =>
        EntityAt(dir, |visible|);
        StopFrom(Entities(dir), 0, reached);
        SizeOfRecords(dir, reached, |visible|);
    }
  }

  /** Every item can be listed, and each record fits into a buffer of this size. */
  ghost predicate FitsIn(dir: Dir, bufLen: u32) {
    bufLen >= 26 && forall i | 0 <= i < |dir.items| :: dir.items[i].Entry? && 24 + |dir.items[i].name| <= bufLen
  }

  lemma FitsInIff(dir: Dir, bufLen: u32)
    requires Representable(dir)
    ensures FitsIn(dir, bufLen) <==>
              forall i | 0 <= i < |Entities(dir)| ::
                Encodable(Entities(dir)[i]) && |Record(Entities(dir)[i].value)| <= bufLen
  {
    var es := Entities(dir);
    forall i | 0 <= i < |es|
      ensures Encodable(es[i]) && |Record(es[i].value)| <= bufLen <==>
                SizeAt(dir, i).Some? && SizeAt(dir, i).value <= bufLen
    {
      EntityAt(dir, i);
    }
    if forall i | 0 <= i < |es| :: Encodable(es[i]) && |Record(es[i].value)| <= bufLen {
      assert Encodable(es[1]) && |Record(es[1].value)| <= bufLen;
      forall i | 0 <= i < |dir.items| ensures dir.items[i].Entry? && 24 + |dir.items[i].name| <= bufLen {
        assert Encodable(es[i + 2]) && |Record(es[i + 2].value)| <= bufLen;
      }
    }
    if FitsIn(dir, bufLen) {
      forall i | 0 <= i < |es| ensures Encodable(es[i]) && |Record(es[i].value)| <= bufLen {
        if i >= 2 {
          assert dir.items[i - 2].Entry?;
        }
      }
    }
  }

  /** With buffers that hold each record, a readable directory is listed completely. */
  lemma ListingCompletes(dir: Dir, sizes: nat -> u32)
    requires Representable(dir)
    requires forall round: nat :: FitsIn(dir, sizes(round))
    ensures ListDirectory(dir, sizes) == Walk(Visible(dir), Complete) && |Visible(dir)| == |Entities(dir)|
    ensures SeesFirst(ListDirectory(dir, sizes).seen, dir, |dir.items| + 2)
  {
    var last := ListingIsExact(dir, sizes);
    var shown := ListingShowsDirectory(dir, sizes);
    assert FitsIn(dir, sizes(0)) && FitsIn(dir, sizes(last));
    FitsInIff(dir, sizes(0));
    FitsInIff(dir, sizes(last));
  }

  /** No guest sees an entry whose record is larger than all of its buffers. */
  lemma ListingShowsOnlySmall(dir: Dir, sizes: nat -> u32, bound: nat)
    requires Representable(dir) && forall round: nat :: sizes(round) <= bound
    ensures AllSmall(ListDirectory(dir, sizes).seen, bound)
  {
    forall r: nat, c: u64 ensures ShowsOnlySmall(Host(dir, sizes)(r, c), bound) {
      HostShowsOnlySmall(dir, sizes(r), c);
    }
    WalkShowsOnlySmall(Host(dir, sizes), bound, 0, 0);
  }

  function Always(bufLen: u32): nat -> u32 {
    _ => bufLen
  }

  /** With one buffer size: the listing completes exactly when every entity can be encoded and every record fits. */
  lemma ListingCompletesIff(dir: Dir, bufLen: u32)
    requires Representable(dir)
    ensures ListDirectory(dir, Always(bufLen)).end.Complete? <==> FitsIn(dir, bufLen)
  {
    var walk := ListDirectory(dir, Always(bufLen));
    var last := ListingIsExact(dir, Always(bufLen));
    FitsInIff(dir, bufLen);
    if walk.end.Complete? {
      ListingShowsOnlySmall(dir, Always(bufLen), bufLen);
      forall i | 0 <= i < |Entities(dir)|
        ensures Encodable(Entities(dir)[i]) && |Record(Entities(dir)[i].value)| <= bufLen
      {
        assert walk.seen[i] == Visible(dir)[i] == Seen(Entities(dir)[i].value);
      }
    }
  }

  // ---------- listing through guest memory ----------

  lemma OverlayHolds(memory: seq<byte>, at: nat, bytes: seq<byte>)
    requires at + |bytes| <= |memory|
    ensures Overlay(memory, at, bytes)[at..at + |bytes|] == bytes
  {
  }

  lemma ServedInRange(es: seq<EntityResult>, from: nat, at: nat, bufLen: nat, before: seq<byte>, after: seq<byte>,
                      r: Result<nat, Error>)
    requires from <= |es| && Served(es, from, at, bufLen, before, after, r)
    requires at + bufLen <= |before| && at + bufLen < U32
    ensures r == CallResult(es, from, bufLen) && after == Overlay(before, at, Page(es, from, bufLen))
  {
  }

  /** What the guest makes of its buffer after a call: the reply that the walk is made of. */
  lemma ServedIsReply(dir: Dir, at: u32, bufLen: u32, cookie: u64, before: seq<byte>, after: seq<byte>,
                      r: Result<nat, Error>)
    requires Representable(dir) && at + bufLen <= |before| && at + bufLen < U32
    requires Served(Entities(dir), Skip(cookie, |Entities(dir)|), at, bufLen, before, after, r)
    ensures match r
            case Err(e) => HostReply(dir, bufLen, cookie) == Refused(e)
            case Ok(n) =>
              n <= bufLen && |after| == |before|
              && HostReply(dir, bufLen, cookie) == Answer(Decode(after[at..at + n]), n == bufLen)
  {
    var es := Entities(dir);
    var from := Skip(cookie, |es|);
    ServedInRange(es, from, at, bufLen, before, after, r);
    OverlayHolds(before, at, Page(es, from, bufLen));
  }

  /** One round of the guest: it calls `fd_readdir` on its buffer and decodes what it finds there. */
  method AskForPage(memory: array<byte>, at: u32, bufLen: u32, dir: Dir, cookie: u64) returns (reply: Reply)
    requires Representable(dir) && at + bufLen <= memory.Length && at + bufLen < U32
    modifies memory
    ensures reply == HostReply(dir, bufLen, cookie)
  {
    ghost var before := memory[..];
    var r := FdReaddir(memory, at, bufLen, dir, cookie);
    ServedIsReply(dir, at, bufLen, cookie, before, memory[..], r);
    if r.Err? {
      return Refused(r.error);
    }
    assert memory[..][at..at + r.value] == memory[at..at + r.value];
    return Answer(Decode(memory[at..at + r.value]), r.value == bufLen);
  }

  /**
   * The guest's loop through its own memory, each time resuming from the last complete record.
   * This is the walk above, so that all that is said of listings holds of it.
   */
  method ListThroughMemory(memory: array<byte>, at: u32, sizes: nat -> u32, dir: Dir, round: nat, cookie: u64)
    returns (walk: Walk)
    requires Representable(dir)
    requires forall k: nat :: at + sizes(k) <= memory.Length && at + sizes(k) < U32
    modifies memory
    ensures walk == GuestWalk(Host(dir, sizes), round, cookie)
    ensures round == 0 && cookie == 0 ==> walk == ListDirectory(dir, sizes)
    decreases U64 - cookie
  {
    var reply := AskForPage(memory, at, sizes(round), dir, cookie);
    assert reply == Host(dir, sizes)(round, cookie);
    match reply {
      case Refused(e) =>
        return Walk([], Failed(e));
      case Answer(found, full) =>
        if !full {
          return Walk(found, Complete);
        }
        if found == [] || found[|found| - 1].next <= cookie {
          return Walk([], Stuck(cookie));
        }
        var rest := ListThroughMemory(memory, at, sizes, dir, round + 1, found[|found| - 1].next);
        WalkGoesOn(Host(dir, sizes), round, cookie, found);
        return Walk(found + rest.seen, rest.end);
    }
  }
}
