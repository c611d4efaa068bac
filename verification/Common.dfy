/** Types shared by every component: results, errors, bytes and guest memory images. */
module Common {

  datatype Option<+T> = None | Some(value: T)

  datatype Result<+T, +E> = Ok(value: T) | Err(error: E)

  /** The error values the modelled calls can report. */
  datatype Error =
    | Badf
    | NotDir
    | Perm
    | InvalidArgument
    | NotSupported
    | Overflow
    | IllegalByteSequence
    | Io(code: int)
    | PtrOutOfBounds
    | PtrOverflow
    | PtrNotAligned
    | NoFreeKeys

  const U32: nat := 0x1_0000_0000
  const U64: nat := 0x1_0000_0000_0000_0000

  type byte = n: int | 0 <= n < 256

  type u32 = n: int | 0 <= n < U32

  type u64 = n: int | 0 <= n < U64

  function Min(a: nat, b: nat): nat {
    if a <= b then a else b
  }

  /** The memory image `memory` with `bytes` laid over it from position `at` on. */
  function Overlay(memory: seq<byte>, at: nat, bytes: seq<byte>): (r: seq<byte>)
    ensures |r| == |memory|
  {
    seq(|memory|, i requires 0 <= i < |memory| => if at <= i < at + |bytes| then bytes[i - at] else memory[i])
  }

  /** Copies `bytes` into guest memory at `at`, unless the region does not lie in it. */
  method CopyToGuest(memory: array<byte>, at: nat, bytes: seq<byte>) returns (ok: bool)
    modifies memory
    ensures ok <==> at + |bytes| <= memory.Length
    ensures memory[..] == if ok then Overlay(old(memory[..]), at, bytes) else old(memory[..])
  {
    ok := at + |bytes| <= memory.Length;
    if ok {
      forall i | 0 <= i < |bytes| {
        memory[at + i] := bytes[i];
      }
    }
  }

  /**
   * Copies `bytes` into guest memory at `at`; the bounds of the whole region are checked first.
   * The ghost arguments name the bytes already laid over the image `before` just below `at`.
   */
  method AppendToGuest(memory: array<byte>, at: nat, bytes: seq<byte>,
                       ghost before: seq<byte>, ghost start: nat, ghost written: seq<byte>)
    returns (ok: bool)
    requires memory[..] == Overlay(before, start, written) && at == start + |written|
    modifies memory
    ensures ok <==> at + |bytes| <= memory.Length
    ensures memory[..] == Overlay(before, start, if ok then written + bytes else written)
  {
    ok := at + |bytes| <= memory.Length;
    if ok {
      forall i | 0 <= i < |bytes| {
        memory[at + i] := bytes[i];
      }
    }
  }

  lemma Associate<T>(a: seq<T>, b: seq<T>, c: seq<T>)
    ensures (a + b) + c == a + (b + c)
  {
  }

  /** A stretch of memory that holds `part` holds each stretch of it. */
  lemma PartOf(memory: seq<byte>, at: nat, part: seq<byte>, i: nat, n: nat)
    requires at + |part| <= |memory| && memory[at..at + |part|] == part && i + n <= |part|
    ensures memory[at + i..at + i + n] == part[i..i + n]
  {
    var stretch := memory[at + i..at + i + n];
    forall k | 0 <= k < n ensures stretch[k] == part[i + k] {
      ElementOf(memory, at, part, i + k);
    }
  }

  lemma ElementOf(memory: seq<byte>, at: nat, part: seq<byte>, i: nat)
    requires at + |part| <= |memory| && memory[at..at + |part|] == part && i < |part|
    ensures memory[at + i] == part[i]
  {
    assert memory[at..at + |part|][i] == memory[at + i];
  }

  /** Cutting a concatenation before, or after, the seam. */
  lemma CutAtSeam(bytes: seq<byte>, head: seq<byte>, rest: seq<byte>)
    requires bytes <= head + rest
    ensures |bytes| <= |head| ==> bytes == head[..|bytes|]
    ensures |bytes| >= |head| ==> bytes == head + bytes[|head|..] && bytes[|head|..] <= rest
  {
  }

  // ---------- little-endian integers ----------

  function LittleEndian(n: nat, width: nat): (bytes: seq<byte>)
    ensures |bytes| == width
  {
    if width == 0 then [] else [n % 256] + LittleEndian(n / 256, width - 1)
  }

  function Pow256(k: nat): nat {
    if k == 0 then 1 else 256 * Pow256(k - 1)
  }

  function FromLittleEndian(bytes: seq<byte>): (n: nat)
    ensures n < Pow256(|bytes|)
  {
    if bytes == [] then 0 else bytes[0] + 256 * FromLittleEndian(bytes[1..])
  }

  lemma Pow256Values()
    ensures Pow256(4) == U32 && Pow256(8) == U64
  {
    assert Pow256(2) == 0x1_0000;
    assert Pow256(6) == 0x1_0000_0000_0000;
  }

  lemma {:induction false} LittleEndianRoundTrip(n: nat, width: nat)
    requires n < Pow256(width)
    ensures FromLittleEndian(LittleEndian(n, width)) == n
  {
    if width == 0 {
    } else {
      LittleEndianRoundTrip(n / 256, width - 1);
      assert LittleEndian(n, width)[1..] == LittleEndian(n / 256, width - 1);
    }
  }

  /** The first byte is the one of least weight. */
  lemma LittleEndianBytes(n: nat, width: nat)
    requires width > 0
    ensures LittleEndian(n, width)[0] == n % 256
    ensures forall i | 0 < i < width :: LittleEndian(n, width)[i] == LittleEndian(n / 256, width - 1)[i - 1]
  {
  }

  /** The number that four bytes stand for, the last of which weighs most. */
  function Weighed(b: seq<byte>, at: nat): nat
    requires at + 4 <= |b|
  {
    var b0: int, b1: int, b2: int, b3: int := b[at], b[at + 1], b[at + 2], b[at + 3];
    b0 + 0x100 * b1 + 0x1_0000 * b2 + 0x100_0000 * b3
  }

  lemma Quotients(n: nat)
    ensures n / 0x100 / 0x100 == n / 0x1_0000
    ensures n / 0x1_0000 / 0x100 == n / 0x100_0000
    ensures n / 0x100_0000 / 0x100 == n / U32
  {
  }

  lemma Digits(n: nat)
    ensures n % U32 ==
              n % 0x100 + 0x100 * (n / 0x100 % 0x100) + 0x1_0000 * (n / 0x1_0000 % 0x100)
              + 0x100_0000 * (n / 0x100_0000 % 0x100)
  {
    Quotients(n);
  }

  lemma FourBytes(n: nat, width: nat)
    requires width >= 4
    ensures Weighed(LittleEndian(n, width), 0) == n % U32
    ensures LittleEndian(n, width)[4..] == LittleEndian(n / U32, width - 4)
  {
    Quotients(n);
    Digits(n);
    LittleEndianBytes(n, width);
    LittleEndianBytes(n / 0x100, width - 1);
    LittleEndianBytes(n / 0x1_0000, width - 2);
    LittleEndianBytes(n / 0x100_0000, width - 3);
  }

  lemma EightBytes(n: u64)
    ensures n == Weighed(LittleEndian(n, 8), 0) + U32 * Weighed(LittleEndian(n, 8), 4)
  {
    FourBytes(n, 8);
    FourBytes(n / U32, 4);
  }

  function ReadU32(bytes: seq<byte>): (n: u32)
    requires |bytes| == 4
    ensures n == FromLittleEndian(bytes)
  {
    Pow256Values();
    FromLittleEndian(bytes)
  }

  function ReadU64(bytes: seq<byte>): (n: u64)
    requires |bytes| == 8
    ensures n == FromLittleEndian(bytes)
  {
    Pow256Values();
    FromLittleEndian(bytes)
  }

  lemma LittleEndianU32(n: u32)
    ensures FromLittleEndian(LittleEndian(n, 4)) == n
  {
    Pow256Values();
    LittleEndianRoundTrip(n, 4);
  }

  lemma LittleEndianU64(n: u64)
    ensures FromLittleEndian(LittleEndian(n, 8)) == n
  {
    Pow256Values();
    LittleEndianRoundTrip(n, 8);
  }
}
