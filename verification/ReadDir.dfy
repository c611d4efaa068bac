/** Directory records: the host side of `fd_readdir`, and a reference guest decoder. */
module ReadDir {
  import opened Common

  datatype FileType =
    | Unknown
    | BlockDevice
    | CharacterDevice
    | Directory
    | RegularFile
    | SocketDgram
    | SocketStream
    | SymbolicLink
    | Pipe

  /** What the host finds for one name: its metadata, or the reason it cannot be reported. */
  datatype DirItem = Entry(inode: u64, filetype: FileType, name: seq<byte>) | Unreadable(error: Error)

  /** A directory that does not change while it is being listed. */
  datatype Dir = Dir(inode: u64, items: seq<DirItem>)

  datatype ReaddirEntity = ReaddirEntity(next: u64, inode: u64, filetype: FileType, name: seq<byte>)

  // ---------- host: the entity iterator ----------

  const DOT: seq<byte> := [46]
  const DOTDOT: seq<byte> := [46, 46]

  ghost predicate Representable(dir: Dir) {
    |dir.items| + 2 < U64
  }

  type EntityResult = Result<ReaddirEntity, Error>

  function Entity(item: DirItem, ix: nat): EntityResult
    requires ix + 1 < U64
  {
    match item
    case Entry(inode, filetype, name) => Ok(ReaddirEntity(ix + 1, inode, filetype, name))
    case Unreadable(e) => Err(e)
  }

  /**
   * Everything the listing enumerates, the two synthetic entries first; the cookie of an entity
   * is its position plus one.
   */
  function Entities(dir: Dir): (r: seq<EntityResult>)
    requires Representable(dir)
    ensures |r| == |dir.items| + 2
    ensures forall i | 0 <= i < |r| && r[i].Ok? :: r[i].value.next == i + 1
  {
    var all := [Entry(dir.inode, Directory, DOT), Entry(dir.inode, Directory, DOTDOT)] + dir.items;
    seq(|all|, ix requires 0 <= ix < |all| => Entity(all[ix], ix))
  }

  /** Behind the first two, the items of the directory in order, or the reason why one cannot be reported. */
  lemma ItemsAre(dir: Dir, i: nat)
    requires Representable(dir) && i < |dir.items|
    ensures match dir.items[i]
            case Entry(inode, filetype, name) => Entities(dir)[i + 2] == Ok(ReaddirEntity(i + 3, inode, filetype, name))
            case Unreadable(e) => Entities(dir)[i + 2] == Err(e)
  {
  }

  /** The first two entities are "." and "..", with the directory's own inode. */
  lemma DotsAre(dir: Dir)
    requires Representable(dir)
    ensures Entities(dir)[0] == Ok(ReaddirEntity(1, dir.inode, Directory, [46]))
    ensures Entities(dir)[1] == Ok(ReaddirEntity(2, dir.inode, Directory, [46, 46]))
  {
  }

  /** Where the listing resumes: `skip` passes over at most all entities. */
  function Skip(cursor: nat, total: nat): (start: nat)
    ensures start <= total
  {
    Min(cursor, total)
  }

  // ---------- the record layout ----------

  function WireType(ft: FileType): byte {
    match ft
    case Unknown => 0
    case BlockDevice => 1
    case CharacterDevice => 2
    case Directory => 3
    case RegularFile => 4
    case SocketDgram => 5
    case SocketStream => 6
    case SymbolicLink => 7
    case Pipe => 0
  }

  const DIRENT_SIZE: nat := 24

  /** One `dirent`: next cookie, inode, name length, file type, three bytes of padding. */
  function DirentBytes(e: ReaddirEntity): (r: seq<byte>)
    requires |e.name| < U32
    ensures |r| == DIRENT_SIZE
  {
    LittleEndian(e.next, 8) + LittleEndian(e.inode, 8) + LittleEndian(|e.name|, 4) + [WireType(e.filetype)] + [0, 0, 0]
  }

  function Record(e: ReaddirEntity): (r: seq<byte>)
    requires |e.name| < U32
    ensures |r| == DIRENT_SIZE + |e.name|
  {
    DirentBytes(e) + e.name
  }

  /** An entity that can be encoded: readable, with a name length that fits the `dirent` field. */
  predicate Encodable(r: EntityResult) {
    r.Ok? && |r.value.name| < U32
  }

  function EncodingError(r: EntityResult): Error
    requires !Encodable(r)
  {
    if r.Err? then r.error else Overflow
  }

  // ---------- the byte stream behind a cookie ----------

  predicate AllEncodable(es: seq<EntityResult>, from: nat, end: nat) {
    from <= end <= |es| && forall i | from <= i < end :: Encodable(es[i])
  }

  /** The position of the first entity, from `from` on, that cannot be encoded; the end if there is none. */
  function Stop(es: seq<EntityResult>, from: nat): (n: nat)
    requires from <= |es|
    ensures from <= n && AllEncodable(es, from, n)
    ensures n < |es| ==> !Encodable(es[n])
    decreases |es| - from
  {
    if from == |es| || !Encodable(es[from]) then from else Stop(es, from + 1)
  }

  /** The records at positions `from` up to `to`, one after the other. */
  function Records(es: seq<EntityResult>, from: nat, end: nat): seq<byte>
    requires AllEncodable(es, from, end)
    decreases end
  {
    if from == end then [] else Records(es, from, end - 1) + Record(es[end - 1].value)
  }

  lemma {:induction false} RecordsPrefix(es: seq<EntityResult>, from: nat, mid: nat, end: nat)
    requires AllEncodable(es, from, end) && from <= mid <= end
    ensures Records(es, from, mid) <= Records(es, from, end)
    decreases end
  {
    if mid < end {
      RecordsPrefix(es, from, mid, end - 1);
    }
  }

  // ---------- one call, stated outright ----------

  /** The bytes of every record that can be encoded, from `from` up to the first failure. */
  function Stream(es: seq<EntityResult>, from: nat): seq<byte>
    requires from <= |es|
  {
    Records(es, from, Stop(es, from))
  }

  /** The bytes one call puts in the guest buffer. */
  function Page(es: seq<EntityResult>, from: nat, bufLen: nat): (r: seq<byte>)
    requires from <= |es|
    ensures |r| <= bufLen
  {
    Stream(es, from)[..Min(bufLen, |Stream(es, from)|)]
  }

  /** The call meets an entity it cannot encode before the buffer overflows. */
  predicate Fails(es: seq<EntityResult>, from: nat, bufLen: nat)
    requires from <= |es|
  {
    Stop(es, from) < |es| && |Stream(es, from)| <= bufLen
  }

  /** What the call reports when the guest buffer is in range. */
  function CallResult(es: seq<EntityResult>, from: nat, bufLen: nat): Result<nat, Error>
    requires from <= |es|
  {
    if Fails(es, from, bufLen) then Err(EncodingError(es[Stop(es, from)])) else Ok(|Page(es, from, bufLen)|)
  }

  /** Part of record `k`, after the records before it, starts the stream. */
  lemma PartialRecord(es: seq<EntityResult>, from: nat, k: nat, piece: seq<byte>)
    requires from <= k < |es| && k <= Stop(es, from) && Encodable(es[k]) && piece <= Record(es[k].value)
    ensures k < Stop(es, from)
    ensures Records(es, from, k) + piece <= Stream(es, from)
    ensures |piece| < |Record(es[k].value)| ==> |Records(es, from, k)| + |piece| < |Stream(es, from)|
  {
    RecordsPrefix(es, from, k + 1, Stop(es, from));
  }

  /**
   * What one call leaves behind: on success the guest buffer holds exactly the page and the call
   * reports its length; a page that lies in guest memory, short of the end of the address space,
   * is always delivered, and then the call fails only on an entity it cannot encode. Memory outside
   * the guest buffer never changes.
   */
  ghost predicate Served(es: seq<EntityResult>, from: nat, at: nat, bufLen: nat,
                         before: seq<byte>, after: seq<byte>, r: Result<nat, Error>)
    requires from <= |es|
  {
    var page := Page(es, from, bufLen);
    var inRange := at + |page| <= |before| && at + |page| < U32;
    && (inRange || r.Ok? ==> r == CallResult(es, from, bufLen) && after == Overlay(before, at, page))
    && (r.Ok? ==> page == [] || at + |page| <= |before|)
    && |after| == |before|
    && (forall i | 0 <= i < |before| && !(at <= i < at + bufLen) :: after[i] == before[i])
  }

  /** The buffer is full in the middle of a record: the call reports the whole buffer. */
  lemma ServedFull(es: seq<EntityResult>, from: nat, at: nat, bufLen: nat, before: seq<byte>, written: seq<byte>)
    requires from <= |es|
    requires written <= Stream(es, from) && |written| == bufLen < |Stream(es, from)| && at + bufLen <= |before|
    ensures Served(es, from, at, bufLen, before, Overlay(before, at, written), Ok(bufLen))
  {
    assert Page(es, from, bufLen) == written;
  }

  /** Every entity was delivered. */
  lemma ServedAll(es: seq<EntityResult>, from: nat, at: nat, bufLen: nat, before: seq<byte>)
    requires from <= |es|
    requires Stop(es, from) == |es| && |Stream(es, from)| <= bufLen
    requires Stream(es, from) == [] || at + |Stream(es, from)| <= |before|
    ensures Served(es, from, at, bufLen, before, Overlay(before, at, Stream(es, from)), Ok(|Stream(es, from)|))
  {
  }

  /** Every entity before one that cannot be encoded was delivered, and that one is met. */
  lemma ServedError(es: seq<EntityResult>, from: nat, at: nat, bufLen: nat, before: seq<byte>, k: nat)
    requires from <= k < |es| && k <= Stop(es, from) && !Encodable(es[k])
    requires |Records(es, from, k)| <= bufLen
    ensures Served(es, from, at, bufLen, before, Overlay(before, at, Records(es, from, k)), Err(EncodingError(es[k])))
  {
    assert k == Stop(es, from);
  }

  /** A pointer fault means that the page itself does not lie in guest memory. */
  lemma ServedFault(es: seq<EntityResult>, from: nat, at: nat, bufLen: nat,
                    before: seq<byte>, written: seq<byte>, attempted: seq<byte>, e: Error)
    requires from <= |es|
    requires attempted <= Stream(es, from) && |written| <= |attempted| <= bufLen
    requires at + |attempted| > |before| || at + |attempted| >= U32
    ensures Served(es, from, at, bufLen, before, Overlay(before, at, written), Err(e))
  {
  }

  /** Copies as many of `bytes` as there is room for. */
  method CopyClipped(memory: array<byte>, at: nat, bytes: seq<byte>, room: nat,
                     ghost before: seq<byte>, ghost start: nat, ghost written: seq<byte>)
    returns (n: nat, ok: bool)
    requires memory[..] == Overlay(before, start, written) && at == start + |written|
    modifies memory
    ensures n == Min(|bytes|, room)
    ensures ok <==> at + n <= memory.Length
    ensures memory[..] == Overlay(before, start, if ok then written + bytes[..n] else written)
  {
    n := Min(|bytes|, room);
    ok := AppendToGuest(memory, at, bytes[..n], before, start, written);
  }

  /** How copying one record ended: with the buffer full, at a bad pointer, or ready for the next record. */
  datatype Step = Full | Fault(error: Error) | Next

  /**
   * The body of the loop in `fd_readdir`: the header, then the name, each cut at the end of the
   * buffer. `piece` is the part that was copied, `attempted` the part up to the end of the copy
   * that was tried last.
   */
  method CopyRecord(memory: array<byte>, at: u32, entity: ReaddirEntity, room: nat,
                    ghost before: seq<byte>, ghost start: nat, ghost written: seq<byte>)
    returns (step: Step, ghost piece: seq<byte>, ghost attempted: seq<byte>)
    requires |entity.name| < U32
    requires memory[..] == Overlay(before, start, written) && at == start + |written|
    modifies memory
    ensures memory[..] == Overlay(before, start, written + piece)
    ensures piece <= attempted <= Record(entity) && |attempted| <= room
    ensures match step
            case Full => |piece| == room < |Record(entity)| && at + room <= memory.Length
            case Fault(_) => at + |attempted| > memory.Length || at + |attempted| >= U32
            case Next => piece == Record(entity) && at + |piece| <= memory.Length && at + |piece| < U32
  {
    var direntRaw := DirentBytes(entity);
    assert written + [] == written;
    var direntCopyLen, ok := CopyClipped(memory, at, direntRaw, room, before, start, written);
    piece, attempted := [], direntRaw[..direntCopyLen];
    if !ok {
      return Fault(PtrOutOfBounds), piece, attempted;
    }
    piece := attempted;
    if direntCopyLen < |direntRaw| {
      return Full, piece, attempted;
    }
    if at + direntCopyLen >= U32 {
      return Fault(PtrOverflow), piece, attempted;
    }
    var nameCopyLen;
    nameCopyLen, ok := CopyClipped(memory, at + direntCopyLen, entity.name, room - direntCopyLen,
                                   before, start, written + piece);
    attempted := piece + entity.name[..nameCopyLen];
    if !ok {
      return Fault(PtrOutOfBounds), piece, attempted;
    }
    Associate(written, piece, entity.name[..nameCopyLen]);
    piece := attempted;
    if nameCopyLen < |entity.name| {
      return Full, piece, attempted;
    }
    if at + direntCopyLen + nameCopyLen >= U32 {
      return Fault(PtrOverflow), piece, attempted;
    }
    return Next, piece, attempted;
  }

  /** The loop of `fd_readdir` over the entities that are left. */
  method FillBuffer(memory: array<byte>, bufStart: u32, bufLen: u32, es: seq<EntityResult>, from: nat)
    returns (r: Result<nat, Error>)
    requires from <= |es|
    modifies memory
    ensures Served(es, from, bufStart, bufLen, old(memory[..]), memory[..], r)
  {
    var bufused := 0;
    ghost var before := memory[..];
    ghost var written: seq<byte> := [];
    assert before == Overlay(before, bufStart, written);
    for k := from to |es|
      invariant from <= k <= Stop(es, from)
      invariant written == Records(es, from, k) && bufused == |written| <= bufLen
      invariant bufStart + bufused < U32
      invariant memory[..] == Overlay(before, bufStart, written)
      invariant k > from ==> bufStart + bufused <= memory.Length
    {
      if !Encodable(es[k]) {
        ServedError(es, from, bufStart, bufLen, before, k);
        return Err(EncodingError(es[k]));
      }
      var entity := es[k].value;
      var step, piece, attempted :=
        CopyRecord(memory, bufStart + bufused, entity, bufLen - bufused, before, bufStart, written);
      PartialRecord(es, from, k, attempted);
      match step {
        case Full =>
          ServedFull(es, from, bufStart, bufLen, before, written + piece);
          return Ok(bufLen);
        case Fault(e) =>
          ServedFault(es, from, bufStart, bufLen, before, written + piece, written + attempted, e);
          return Err(e);
        case Next =>
          written := written + piece;
          bufused := bufused + DIRENT_SIZE + |entity.name|;
      }
    }
    ServedAll(es, from, bufStart, bufLen, before);
    return Ok(bufused);
  }

  /** `fd_readdir` on an open directory. */
  method FdReaddir(memory: array<byte>, bufStart: u32, bufLen: u32, dir: Dir, cookie: u64)
    returns (r: Result<nat, Error>)
    requires Representable(dir)
    modifies memory
    ensures Served(Entities(dir), Skip(cookie, |Entities(dir)|), bufStart, bufLen, old(memory[..]), memory[..], r)
  {
    var es := Entities(dir);
    r := FillBuffer(memory, bufStart, bufLen, es, Skip(cookie, |es|));
  }
}
