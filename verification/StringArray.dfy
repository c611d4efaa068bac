/** The argument and environment strings, and how they are laid out in guest memory. */
module StringArray {
  import opened Common

  datatype StringArrayError = NumberElements | ElementSize | CumulativeSize

  const U32_MAX: nat := U32 - 1

  /** The bytes of the first `n` strings, each with its terminating zero. */
  function Block(elems: seq<seq<byte>>, n: nat): seq<byte>
    requires n <= |elems|
  {
    if n == 0 then [] else Block(elems, n - 1) + (elems[n - 1] + [0])
  }

  /** Where string `i` starts in the block. */
  function Offset(elems: seq<seq<byte>>, i: nat): nat
    requires i <= |elems|
  {
    |Block(elems, i)|
  }

  /** The heads of the first `n` strings, as little-endian pointers into a block at `buffer`. */
  function Heads(elems: seq<seq<byte>>, buffer: nat, n: nat): (r: seq<byte>)
    requires n <= |elems|
    ensures |r| == 4 * n
  {
    if n == 0 then [] else Heads(elems, buffer, n - 1) + LittleEndian(buffer + Offset(elems, n - 1), 4)
  }

  /** The total length of the first `n` strings. */
  function Total(elems: seq<seq<byte>>, n: nat): nat
    requires n <= |elems|
  {
    if n == 0 then 0 else |elems[n - 1]| + Total(elems, n - 1)
  }

  /** A string starts behind all the bytes of the strings in front of it, and one zero for each. */
  lemma {:induction false} OffsetCounts(elems: seq<seq<byte>>, n: nat)
    requires n <= |elems|
    ensures Offset(elems, n) == Total(elems, n) + n
  {
    if n > 0 {
      OffsetCounts(elems, n - 1);
    }
  }

  lemma {:induction false} BlockPrefix(elems: seq<seq<byte>>, m: nat, n: nat)
    requires m <= n <= |elems|
    ensures Block(elems, m) <= Block(elems, n)
  {
    if m < n {
      BlockPrefix(elems, m, n - 1);
    }
  }

  /** The block of the first strings depends on these only. */
  lemma {:induction false} SameBlock(a: seq<seq<byte>>, b: seq<seq<byte>>, n: nat)
    requires n <= |a| && n <= |b| && forall i | 0 <= i < n :: a[i] == b[i]
    ensures Block(a, n) == Block(b, n)
  {
    if n > 0 {
      SameBlock(a, b, n - 1);
    }
  }

  // ---------- two regions of memory ----------

  ghost predicate Disjoint(a: nat, n: nat, b: nat, m: nat) {
    a + n <= b || b + m <= a
  }

  /** Memory with `x` laid over it at `a`, and `y` at `b`. */
  function Both(memory: seq<byte>, a: nat, x: seq<byte>, b: nat, y: seq<byte>): seq<byte> {
    Overlay(Overlay(memory, a, x), b, y)
  }

  /** Memory holds `x` at `a` and `y` at `b`, and is `before` elsewhere. */
  ghost predicate Holds(memory: seq<byte>, before: seq<byte>, a: nat, x: seq<byte>, b: nat, y: seq<byte>) {
    memory == Both(before, a, x, b, y)
  }

  lemma GrowFirst(memory: seq<byte>, after: seq<byte>, before: seq<byte>, a: nat, x: seq<byte>, b: nat, y: seq<byte>,
                  more: seq<byte>)
    requires Holds(memory, before, a, x, b, y) && Disjoint(a, |x| + |more|, b, |y|)
    requires after == Overlay(memory, a + |x|, more)
    ensures Holds(after, before, a, x + more, b, y)
  {
  }

  lemma GrowSecond(memory: seq<byte>, after: seq<byte>, before: seq<byte>, a: nat, x: seq<byte>, b: nat,
                   y: seq<byte>, more: seq<byte>)
    requires Holds(memory, before, a, x, b, y) && after == Overlay(memory, b + |y|, more)
    ensures Holds(after, before, a, x, b, y + more)
  {
  }

  /** Writing a string, its zero and its head one after the other adds them to what memory holds. */
  lemma OneMoreString(m0: seq<byte>, m1: seq<byte>, m2: seq<byte>, m3: seq<byte>, before: seq<byte>,
                      buffer: nat, block: seq<byte>, heads: nat, pointers: seq<byte>, elem: seq<byte>)
    requires Holds(m0, before, buffer, block, heads, pointers)
    requires Disjoint(buffer, |block| + |elem| + 1, heads, |pointers|)
    requires m1 == Overlay(m0, buffer + |block|, elem)
    requires m2 == Overlay(m1, buffer + |block| + |elem|, [0])
    requires m3 == Overlay(m2, heads + |pointers|, LittleEndian(buffer + |block|, 4))
    ensures Holds(m3, before, buffer, block + (elem + [0]), heads, pointers + LittleEndian(buffer + |block|, 4))
  {
    GrowFirst(m0, m1, before, buffer, block, heads, pointers, elem);
    assert |block + elem| == |block| + |elem|;
    GrowFirst(m1, m2, before, buffer, block + elem, heads, pointers, [0]);
    Associate(block, elem, [0]);
    GrowSecond(m2, m3, before, buffer, block + (elem + [0]), heads, pointers, LittleEndian(buffer + |block|, 4));
  }

  /** The buffers the guest was told to provide: in its memory of `length` bytes, apart, the heads aligned. */
  ghost predicate Provided(elems: seq<seq<byte>>, length: nat, buffer: nat, heads: nat) {
    && buffer + |Block(elems, |elems|)| <= length && heads + 4 * |elems| <= length <= U32
    && heads % 4 == 0 && Disjoint(buffer, |Block(elems, |elems|)|, heads, 4 * |elems|)
  }

  /** The first `n` strings, and their heads, are in memory; the rest of it is as before. */
  ghost predicate Written(memory: seq<byte>, before: seq<byte>, elems: seq<seq<byte>>, n: nat, buffer: nat,
                          heads: nat) {
    n <= |elems| && Holds(memory, before, buffer, Block(elems, n), heads, Heads(elems, buffer, n))
  }

  /** Memory that was provided has room for string `i` and its head. */
  lemma RoomForString(elems: seq<seq<byte>>, i: nat, length: nat, buffer: nat, heads: nat)
    requires i < |elems| && Provided(elems, length, buffer, heads)
    ensures buffer + Offset(elems, i) + |elems[i]| + 1 <= length && heads + 4 * i + 4 <= length
    ensures Disjoint(buffer, Offset(elems, i) + |elems[i]| + 1, heads, |Heads(elems, buffer, i)|)
  {
    BlockPrefix(elems, i + 1, |elems|);
  }

  lemma LayoutStep(memory: seq<byte>, before: seq<byte>, elems: seq<seq<byte>>, i: nat, buffer: nat, heads: nat)
    requires i < |elems|
    requires Holds(memory, before, buffer, Block(elems, i) + (elems[i] + [0]),
                   heads, Heads(elems, buffer, i) + LittleEndian(buffer + Offset(elems, i), 4))
    ensures Written(memory, before, elems, i + 1, buffer, heads)
  {
    assert Block(elems, i + 1) == Block(elems, i) + (elems[i] + [0]);
    assert Heads(elems, buffer, i + 1) == Heads(elems, buffer, i) + LittleEndian(buffer + Offset(elems, i), 4);
  }

  class StringArray {
    var elems: seq<seq<byte>>

    /** Every string fits, and all of them together. */
    ghost predicate Valid()
      reads this
    {
      |elems| < U32 && |Block(elems, |elems|)| < U32
    }

    constructor ()
      ensures Valid() && elems == []
    {
      elems := [];
    }

    function CumulativeSize(): (n: u32)
      requires Valid()
      reads this
      ensures n == |Block(elems, |elems|)|
    {
      |Block(elems, |elems|)|
    }

    method Push(elem: seq<byte>) returns (r: Result<(), StringArrayError>)
      requires Valid()
      modifies this
      ensures Valid()
      ensures r.Ok? <==> |old(elems)| < U32_MAX && |Block(old(elems), |old(elems)|)| + |elem| + 1 < U32
      ensures elems == if r.Ok? then old(elems) + [elem] else old(elems)
      ensures r.Err? ==>
                match r.error
                case NumberElements => |old(elems)| + 1 > U32_MAX
                case ElementSize => |elem| + 1 > U32_MAX
                case CumulativeSize => |Block(old(elems), |old(elems)|)| + |elem| + 1 > U32_MAX
    {
      if |elems| + 1 > U32_MAX {
        return Err(NumberElements);
      }
      if |elem| + 1 > U32_MAX {
        return Err(ElementSize);
      }
      if CumulativeSize() + |elem| + 1 > U32_MAX {
        return Err(StringArrayError.CumulativeSize);
      }
      SameBlock(elems, elems + [elem], |elems|);
      elems := elems + [elem];
      return Ok(());
    }

    /**
     * `write_to_guest`: each string and its zero into the buffer, and a pointer to it into the
     * array of heads. With the buffers the guest was told to provide it succeeds, and nothing else
     * in memory changes.
     */
    method WriteToGuest(memory: array<byte>, buffer: u32, heads: u32) returns (r: Result<(), Error>, cursor: nat)
      requires Valid()
      modifies memory
      ensures Provided(elems, memory.Length, buffer, heads) ==>
                && r.Ok? && cursor == CumulativeSize()
                && Written(memory[..], old(memory[..]), elems, |elems|, buffer, heads)
      ensures r.Ok? && elems != [] ==>
                buffer + CumulativeSize() <= memory.Length && heads + 4 * |elems| <= memory.Length && heads % 4 == 0
    {
      ghost var before := memory[..];
      ghost var provided := Provided(elems, memory.Length, buffer, heads);
      cursor := 0;
      assert Written(before, before, elems, 0, buffer, heads);
      for i := 0 to |elems|
        invariant cursor == Offset(elems, i) <= CumulativeSize()
        invariant provided ==> Written(memory[..], before, elems, i, buffer, heads)
        invariant i > 0 ==> buffer + cursor <= memory.Length && heads + 4 * i <= memory.Length && heads % 4 == 0
      {
        BlockPrefix(elems, i + 1, |elems|);
        r := WriteElement(memory, buffer + cursor, heads + 4 * i, elems, i, before, buffer, heads);
        if r.Err? {
          return;
        }
        cursor := cursor + |elems[i]| + 1;
      }
      return Ok(()), cursor;
    }
  }

  /** The body of the loop: the bytes, the zero, and the pointer. The ghost arguments name the layout so far. */
  method WriteString(memory: array<byte>, at: nat, headAt: nat, elem: seq<byte>, ghost provided: bool,
                     ghost before: seq<byte>, ghost buffer: nat, ghost block: seq<byte>,
                     ghost heads: nat, ghost pointers: seq<byte>)
    returns (r: Result<(), Error>)
    requires provided ==>
               && Holds(memory[..], before, buffer, block, heads, pointers)
               && at == buffer + |block| && headAt == heads + |pointers|
               && Disjoint(buffer, |block| + |elem| + 1, heads, |pointers|)
               && at + |elem| + 1 <= memory.Length && headAt + 4 <= memory.Length && headAt % 4 == 0
    modifies memory
    ensures provided ==>
              r.Ok? && Holds(memory[..], before, buffer, block + (elem + [0]), heads, pointers + LittleEndian(at, 4))
    ensures r.Ok? ==> at + |elem| + 1 <= memory.Length && headAt + 4 <= memory.Length && headAt % 4 == 0
  {
    ghost var m0 := memory[..];
    var ok := CopyToGuest(memory, at, elem);
    if !ok {
      return Err(PtrOutOfBounds);
    }
    ghost var m1 := memory[..];
    ok := CopyToGuest(memory, at + |elem|, [0]);
    if !ok {
      return Err(PtrOutOfBounds);
    }
    ghost var m2 := memory[..];
    if headAt % 4 != 0 {
      return Err(PtrNotAligned);
    }
    ok := CopyToGuest(memory, headAt, LittleEndian(at, 4));
    if !ok {
      return Err(PtrOutOfBounds);
    }
    if provided {
      OneMoreString(m0, m1, m2, memory[..], before, buffer, block, heads, pointers, elem);
    }
    return Ok(());
  }

  method WriteElement(memory: array<byte>, at: nat, headAt: nat, elems: seq<seq<byte>>, i: nat,
                      ghost before: seq<byte>, ghost buffer: nat, ghost heads: nat)
    returns (r: Result<(), Error>)
    requires i < |elems| && at == buffer + Offset(elems, i) && headAt == heads + 4 * i
    requires Provided(elems, memory.Length, buffer, heads) ==> Written(memory[..], before, elems, i, buffer, heads)
    modifies memory
    ensures Provided(elems, memory.Length, buffer, heads) ==>
              r.Ok? && Written(memory[..], before, elems, i + 1, buffer, heads)
    ensures r.Ok? ==> at + |elems[i]| + 1 <= memory.Length && headAt + 4 <= memory.Length && headAt % 4 == 0
  {
    ghost var provided := Provided(elems, memory.Length, buffer, heads);
    if provided {
      RoomForString(elems, i, memory.Length, buffer, heads);
    }
    r := WriteString(memory, at, headAt, elems[i],
                     provided, before, buffer, Block(elems, i), heads, Heads(elems, buffer, i));
    if provided {
      LayoutStep(memory[..], before, elems, i, buffer, heads);
    }
  }

  // ---------- what the guest finds ----------

  /** The guest's view of a C string: the bytes up to the next zero. */
  function CString(memory: seq<byte>, at: nat): seq<byte>
    requires at <= |memory|
    decreases |memory| - at
  {
    if at == |memory| || memory[at] == 0 then [] else [memory[at]] + CString(memory, at + 1)
  }

  /** The pointer the guest finds at head `i`. */
  function Head(memory: seq<byte>, heads: nat, i: nat): nat
    requires heads + 4 * i + 4 <= |memory|
  {
    FromLittleEndian(memory[heads + 4 * i..heads + 4 * i + 4])
  }

  lemma SliceOfPrefix(a: seq<byte>, b: seq<byte>, from: nat, end: nat)
    requires from <= end <= |a|
    ensures (a + b)[from..end] == a[from..end]
  {
  }

  lemma {:induction false} HeadsAt(elems: seq<seq<byte>>, buffer: nat, n: nat, i: nat)
    requires i < n <= |elems|
    ensures Heads(elems, buffer, n)[4 * i..4 * i + 4] == LittleEndian(buffer + Offset(elems, i), 4)
  {
    if i < n - 1 {
      HeadsAt(elems, buffer, n - 1, i);
      SliceOfPrefix(Heads(elems, buffer, n - 1), LittleEndian(buffer + Offset(elems, n - 1), 4), 4 * i, 4 * i + 4);
    }
  }

  lemma BlockAt(elems: seq<seq<byte>>, n: nat, i: nat)
    requires i < n <= |elems|
    ensures Offset(elems, i) + |elems[i]| < |Block(elems, n)|
    ensures Block(elems, n)[Offset(elems, i)..Offset(elems, i) + |elems[i]|] == elems[i]
    ensures Block(elems, n)[Offset(elems, i) + |elems[i]|] == 0
  {
    BlockPrefix(elems, i + 1, n);
  }

  /** The layout that `write_to_guest` leaves in memory. */
  ghost predicate LaidOut(memory: seq<byte>, elems: seq<seq<byte>>, buffer: nat, heads: nat) {
    && |memory| <= U32
    && buffer + |Block(elems, |elems|)| <= |memory| && heads + 4 * |elems| <= |memory|
    && memory[buffer..buffer + |Block(elems, |elems|)|] == Block(elems, |elems|)
    && memory[heads..heads + 4 * |elems|] == Heads(elems, buffer, |elems|)
  }

  lemma HeldApart(memory: seq<byte>, before: seq<byte>, a: nat, x: seq<byte>, b: nat, y: seq<byte>)
    requires Holds(memory, before, a, x, b, y) && Disjoint(a, |x|, b, |y|)
    requires a + |x| <= |before| && b + |y| <= |before|
    ensures |memory| == |before| && memory[a..a + |x|] == x && memory[b..b + |y|] == y
  {
    forall k | 0 <= k < |x| ensures memory[a + k] == x[k] {
      assert Overlay(before, a, x)[a + k] == x[k];
    }
    forall k | 0 <= k < |y| ensures memory[b + k] == y[k] {
    }
  }

  lemma WrittenIsLaidOut(memory: seq<byte>, after: seq<byte>, elems: seq<seq<byte>>, buffer: nat, heads: nat)
    requires Provided(elems, |memory|, buffer, heads)
    requires Written(after, memory, elems, |elems|, buffer, heads)
    ensures LaidOut(after, elems, buffer, heads)
  {
    HeldApart(after, memory, buffer, Block(elems, |elems|), heads, Heads(elems, buffer, |elems|));
  }

  lemma HeadBytes(memory: seq<byte>, elems: seq<seq<byte>>, buffer: nat, heads: nat, i: nat)
    requires LaidOut(memory, elems, buffer, heads) && i < |elems|
    ensures memory[heads + 4 * i..heads + 4 * i + 4] == LittleEndian(buffer + Offset(elems, i), 4)
    ensures buffer + Offset(elems, i) < U32
  {
    BlockAt(elems, |elems|, i);
    HeadsAt(elems, buffer, |elems|, i);
    PartOf(memory, heads, Heads(elems, buffer, |elems|), 4 * i, 4);
  }

  lemma HeadIs(memory: seq<byte>, elems: seq<seq<byte>>, buffer: nat, heads: nat, i: nat)
    requires LaidOut(memory, elems, buffer, heads) && i < |elems|
    ensures Head(memory, heads, i) == buffer + Offset(elems, i)
  {
    HeadBytes(memory, elems, buffer, heads, i);
    LittleEndianU32(buffer + Offset(elems, i));
  }

  lemma StringIs(memory: seq<byte>, elems: seq<seq<byte>>, buffer: nat, heads: nat, i: nat)
    requires LaidOut(memory, elems, buffer, heads) && i < |elems|
    ensures var p := buffer + Offset(elems, i);
            && p + |elems[i]| < |memory|
            && memory[p..p + |elems[i]|] == elems[i] && memory[p + |elems[i]|] == 0
  {
    var block, offset := Block(elems, |elems|), Offset(elems, i);
    BlockAt(elems, |elems|, i);
    PartOf(memory, buffer, block, offset, |elems[i]|);
    ElementOf(memory, buffer, block, offset + |elems[i]|);
  }

  /** Head `i` points at the bytes of string `i`, which are followed by a zero. */
  lemma HeadPointsAtString(memory: seq<byte>, elems: seq<seq<byte>>, buffer: nat, heads: nat, i: nat)
    requires LaidOut(memory, elems, buffer, heads) && i < |elems|
    ensures var p := Head(memory, heads, i);
            && p == buffer + Offset(elems, i) && p + |elems[i]| < |memory|
            && memory[p..p + |elems[i]|] == elems[i] && memory[p + |elems[i]|] == 0
  {
    HeadIs(memory, elems, buffer, heads, i);
    StringIs(memory, elems, buffer, heads, i);
  }

  ghost predicate ZeroFree(text: seq<byte>) {
    forall k | 0 <= k < |text| :: text[k] != 0
  }

  lemma {:induction false} CStringIs(memory: seq<byte>, at: nat, text: seq<byte>)
    requires at + |text| < |memory| && memory[at..at + |text|] == text && memory[at + |text|] == 0
    ensures CString(memory, at) == text <==> ZeroFree(text)
    decreases |text|
  {
    if text != [] {
      assert memory[at] == text[0];
      assert memory[at + 1..at + 1 + |text[1..]|] == text[1..];
      CStringIs(memory, at + 1, text[1..]);
    }
  }

  /** The guest reads string `i` back as it was. */
  ghost predicate ReadsBack(memory: seq<byte>, elems: seq<seq<byte>>, heads: nat, i: nat) {
    && i < |elems| && heads + 4 * i + 4 <= |memory| && Head(memory, heads, i) <= |memory|
    && CString(memory, Head(memory, heads, i)) == elems[i]
  }

  lemma ReadsBackIff(memory: seq<byte>, elems: seq<seq<byte>>, buffer: nat, heads: nat, i: nat)
    requires LaidOut(memory, elems, buffer, heads) && i < |elems|
    ensures ReadsBack(memory, elems, heads, i) <==> ZeroFree(elems[i])
  {
    HeadPointsAtString(memory, elems, buffer, heads, i);
    CStringIs(memory, Head(memory, heads, i), elems[i]);
  }

  /** The guest reads back all strings exactly when none of them contains a zero byte. */
  lemma GuestReadsStringsIff(memory: seq<byte>, elems: seq<seq<byte>>, buffer: nat, heads: nat)
    requires LaidOut(memory, elems, buffer, heads)
    ensures (forall i | 0 <= i < |elems| :: ReadsBack(memory, elems, heads, i))
            <==> forall i | 0 <= i < |elems| :: ZeroFree(elems[i])
  {
    forall i | 0 <= i < |elems| ensures ReadsBack(memory, elems, heads, i) <==> ZeroFree(elems[i]) {
      ReadsBackIff(memory, elems, buffer, heads, i);
    }
  }

  /** The guest reads the strings behind the first `n` heads. */
  method ReadStrings(memory: seq<byte>, heads: nat, n: nat, ghost elems: seq<seq<byte>>, ghost buffer: nat)
    returns (strings: seq<seq<byte>>)
    requires LaidOut(memory, elems, buffer, heads) && n == |elems|
    ensures |strings| == n
    ensures forall i | 0 <= i < n :: strings[i] == elems[i] <==> ZeroFree(elems[i])
  {
    strings := [];
    for i := 0 to n
      invariant |strings| == i
      invariant forall k | 0 <= k < i :: strings[k] == elems[k] <==> ZeroFree(elems[k])
    {
      HeadPointsAtString(memory, elems, buffer, heads, i);
      ReadsBackIff(memory, elems, buffer, heads, i);
      strings := strings + [CString(memory, Head(memory, heads, i))];
    }
  }

  /**
   * A guest that asks for the strings, with the buffers it was told to provide, and reads them: it
   * finds them as they are exactly when none contains a zero byte.
   */
  method GuestGetsStrings(args: StringArray, memory: array<byte>, buffer: u32, heads: u32)
    returns (strings: seq<seq<byte>>)
    requires args.Valid() && Provided(args.elems, memory.Length, buffer, heads)
    modifies memory
    ensures |strings| == |args.elems|
    ensures forall i | 0 <= i < |strings| :: strings[i] == args.elems[i] <==> ZeroFree(args.elems[i])
    ensures strings == args.elems <==> forall i | 0 <= i < |args.elems| :: ZeroFree(args.elems[i])
  {
    ghost var before := memory[..];
    var r, cursor := args.WriteToGuest(memory, buffer, heads);
    WrittenIsLaidOut(before, memory[..], args.elems, buffer, heads);
    strings := ReadStrings(memory[..], heads, |args.elems|, args.elems, buffer);
  }

  const CUT: seq<byte> := [97, 0, 98]

  lemma CutLayout()
    ensures Block([CUT], 1) == [97, 0, 98, 0] && Offset([CUT], 0) == 0 && Heads([CUT], 4, 1) == LittleEndian(4, 4)
  {
    assert Block([CUT], 0) == [] && Heads([CUT], 4, 0) == [];
    assert [] + ([97, 0, 98] + [0]) == [97, 0, 98, 0];
    assert [] + LittleEndian(4, 4) == LittleEndian(4, 4);
  }

  lemma CutPointer()
    ensures LittleEndian(4, 4) == [4, 0, 0, 0]
  {
    assert LittleEndian(0, 2) == [0] + LittleEndian(0, 1);
    assert LittleEndian(0, 3) == [0] + LittleEndian(0, 2);
    assert LittleEndian(4, 4) == [4] + LittleEndian(0, 3);
  }

  /** The argument "a\0b", laid out at address 4 with its head at 0: the guest reads "a". */
  lemma ZeroByteCutsOff()
    ensures var memory: seq<byte> := [4, 0, 0, 0] + [97, 0, 98, 0];
            && LaidOut(memory, [CUT], 4, 0)
            && Head(memory, 0, 0) == 4 && CString(memory, 4) == [97]
  {
    var memory: seq<byte> := [4, 0, 0, 0] + [97, 0, 98, 0];
    CutLayout();
    CutPointer();
    assert memory[0..4] == [4, 0, 0, 0] && memory[4..8] == [97, 0, 98, 0];
    HeadIs(memory, [CUT], 4, 0, 0);
    assert CString(memory, 5) == [];
  }
}
