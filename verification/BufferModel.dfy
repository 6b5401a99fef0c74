/** One byte buffer as a value: its cursors, its memory, and what the two operations that may
    allocate do to them under every answer of the allocator. */
module BufferModel {
  import opened Growth
  import opened Options
  import opened Sizes
  import opened Storage

  /** How a call ends: normally, in a failed cursor assertion, or in a read through a pointer
      computed from null. */
  datatype Outcome<+T> = Done(value: T) | AssertionFailed | WildRead

  /** What the allocator is going to say during one call, if it is asked: whether there is memory for
      the copy-on-write split, and for the growth request. */
  datatype Grants = Grants(split: bool, growth: bool)

  /** The allocator's answers to one call: whether the copy-on-write split got its memory, and what
      the growth request got. */
  datatype Answers = Answers(split: bool, growth: Memory)

  datatype Buffer = Buffer(readerIndex: Size, writerIndex: Size, memory: Memory) {

    /** What every buffer satisfies as long as no split has run out of memory. */
    ghost predicate Valid() {
      IsBlock(memory) && readerIndex <= writerIndex <= CapacityOf(memory)
    }

    function ReadableBytes(): Size {
      if writerIndex > readerIndex then writerIndex - readerIndex else 0
    }

    function WritableBytes(): nat {
      if CapacityOf(memory) > writerIndex then CapacityOf(memory) - writerIndex else 0
    }

    /** The bytes between the cursors. */
    ghost function Readable(): (r: seq<byte>)
      requires Valid()
      ensures |r| == ReadableBytes()
    {
      if memory.None? then [] else memory.value[readerIndex..writerIndex]
    }
  }

  /** Addition of sizes, which wraps. */
  function WrappingAdd(a: Size, b: Size): (sum: Size)
    ensures sum == (a + b) % (SIZE_MAX + 1)
  {
    if a + b > SIZE_MAX then a + b - SIZE_MAX - 1 else a + b
  }

  /** `unique()` as the buffer sees it: a split that finds no memory leaves an empty block behind. */
  function AfterUnique(b: Buffer, shared: bool, split: bool): Buffer {
    if shared && !split then b.(memory := None) else b
  }

  /** The answers the allocator may give when `size` bytes go to index `at`. */
  ghost predicate IsAnswer(b: Buffer, shared: bool, size: nat, at: Size, a: Answers) {
    at + size <= SIZE_MAX ==> IsGrowth(AfterUnique(b, shared, a.split).memory, at + size, a.growth)
  }

  /** The answers are the ones that were decided on. */
  ghost predicate Follows(b: Buffer, shared: bool, size: nat, at: Size, g: Grants, a: Answers)
    requires CapacityOf(b.memory) <= SIZE_MAX
  {
    && IsAnswer(b, shared, size, at, a)
    && a.split == g.split
    && (a.growth.Some? <==> g.growth && Asks(AfterUnique(b, shared, g.split).memory, size, at))
  }

  /** The growth request of a write to an unshared buffer may be answered like this. */
  ghost predicate CanAppend(b: Buffer, source: Memory, growth: Memory) {
    && IsBlock(b.memory) && CapacityOf(source) <= SIZE_MAX
    && (b.writerIndex + CapacityOf(source) <= SIZE_MAX ==>
          IsGrowth(b.memory, b.writerIndex + CapacityOf(source), growth))
  }

  /** What a write does to an unshared buffer. */
  ghost function AppendEffect(b: Buffer, source: Memory, growth: Memory): (Buffer, Outcome<Size>)
    requires CanAppend(b, source, growth)
  {
    var (memory, written) := SetBytesEffect(b.memory, source, b.writerIndex, growth);
    var index := WrappingAdd(b.writerIndex, written);
    if index <= CapacityOf(memory)
    then (b.(writerIndex := index, memory := memory), Done(written))
    else (b.(memory := memory), AssertionFailed)
  }

  ghost function WriteEffect(b: Buffer, shared: bool, source: Memory, a: Answers): (Buffer, Outcome<Size>)
    requires b.Valid() && CapacityOf(source) <= SIZE_MAX
    requires IsAnswer(b, shared, CapacityOf(source), b.writerIndex, a)
  {
    AppendEffect(AfterUnique(b, shared, a.split), source, a.growth)
  }

  ghost function DiscardEffect(b: Buffer, shared: bool, a: Answers): (Buffer, Outcome<()>)
    requires b.Valid()
    requires IsAnswer(b, shared, b.ReadableBytes(), 0, a)
  {
    var readable := b.ReadableBytes();
    var u := AfterUnique(b, shared, a.split);
    if b.readerIndex == 0 then (b, Done(()))
    else if readable == 0 then (b.(readerIndex := 0, writerIndex := 0), Done(()))
    else if u.memory.Some? then
      var (memory, _) := SetBytesEffect(u.memory, Some(b.Readable()), 0, a.growth);
      (Buffer(0, readable, memory), Done(()))
    else if a.growth.None? then (Buffer(0, readable, None), Done(()))
    else (b.(memory := a.growth), WildRead)
  }

  // ---------- reading ----------

  lemma SliceOfSlice(s: seq<byte>, lo: nat, hi: nat, k: nat)
    requires lo + k <= hi <= |s|
    ensures s[lo..lo + k] == s[lo..hi][..k] && s[lo + k..hi] == s[lo..hi][k..]
  {
  }

  /** Moving the reader cursor takes bytes off the front of the readable ones. */
  lemma ReadTakesPrefix(b: Buffer, k: nat)
    requires b.Valid() && k <= b.ReadableBytes()
    ensures var after := b.(readerIndex := b.readerIndex + k);
            after.Valid() && after.Readable() == b.Readable()[k..]
    ensures b.memory.Some? ==> b.memory.value[b.readerIndex..b.readerIndex + k] == b.Readable()[..k]
  {
    if b.memory.Some? {
      var bytes := b.memory.value;
      assert b.Readable() == bytes[b.readerIndex..b.writerIndex];
      assert b.(readerIndex := b.readerIndex + k).Readable() == bytes[b.readerIndex + k..b.writerIndex];
      SliceOfSlice(bytes, b.readerIndex, b.writerIndex, k);
    }
  }

  // ---------- writing ----------

  /** What a caller relies on after a write: the buffer is usable, and either all bytes have been
      appended or none has. */
  ghost predicate WriteKept(b: Buffer, source: Memory, after: (Buffer, Outcome<Size>))
    requires b.Valid()
  {
    && after.1.Done?
    && after.0.Valid()
    && (if after.1.value == 0 then after.0.Readable() == b.Readable()
        else source.Some? && after.1.value == |source.value| && after.0.Readable() == b.Readable() + source.value)
  }

  /** The stronger sentence of the README: a zero-byte write leaves the storage intact. */
  ghost predicate IntactOnFailure(b: Buffer, after: (Buffer, Outcome<Size>)) {
    after.1.Done? && (after.1.value == 0 ==> after.0 == b)
  }

  lemma RefusedWrite(b: Buffer, shared: bool, source: Memory, a: Answers)
    requires b.Valid() && CapacityOf(source) <= SIZE_MAX
    requires IsAnswer(b, shared, CapacityOf(source), b.writerIndex, a)
    requires shared ==> a.split
    requires CapacityOf(source) == 0 || b.writerIndex + CapacityOf(source) > SIZE_MAX
          || !Fits(CapacityOf(MemoryAfterReserve(b.memory, b.writerIndex + CapacityOf(source), a.growth)),
                   b.writerIndex + CapacityOf(source))
    ensures WriteEffect(b, shared, source, a) == (b, Done(0))
  {
    assert AfterUnique(b, shared, a.split) == b;
  }

  ghost function Appended(b: Buffer, reserved: seq<byte>, source: seq<byte>): Buffer
    requires b.writerIndex + |source| <= |reserved| <= SIZE_MAX
  {
    b.(writerIndex := b.writerIndex + |source|, memory := Some(Overwrite(reserved, b.writerIndex, source)))
  }

  lemma SuccessfulEffect(b: Buffer, shared: bool, source: Memory, a: Answers)
    requires b.Valid() && source.Some? && 0 < |source.value| <= SIZE_MAX
    requires b.writerIndex + |source.value| <= SIZE_MAX
    requires IsAnswer(b, shared, |source.value|, b.writerIndex, a)
    requires shared ==> a.split
    requires Fits(CapacityOf(MemoryAfterReserve(b.memory, b.writerIndex + |source.value|, a.growth)),
                  b.writerIndex + |source.value|)
    requires IsBlock(MemoryAfterReserve(b.memory, b.writerIndex + |source.value|, a.growth))
    ensures var reserved := MemoryAfterReserve(b.memory, b.writerIndex + |source.value|, a.growth);
            WriteEffect(b, shared, source, a) == (Appended(b, reserved.value, source.value), Done(|source.value|))
  {
    var reserved := MemoryAfterReserve(b.memory, b.writerIndex + |source.value|, a.growth);
    var after := Some(Overwrite(reserved.value, b.writerIndex, source.value));
    assert SetBytesEffect(b.memory, source, b.writerIndex, a.growth) == (after, |source.value|);
    assert CapacityOf(after) == |reserved.value|;
    assert AfterUnique(b, shared, a.split) == b;
  }

  lemma AppendedSlice(s: seq<byte>, lo: nat, mid: nat, tail: seq<byte>)
    requires lo <= mid && mid + |tail| <= |s|
    requires s[mid..mid + |tail|] == tail
    ensures s[lo..mid + |tail|] == s[lo..mid] + tail
  {
    assert s[lo..mid + |tail|] == s[lo..mid] + s[mid..mid + |tail|];
  }

  /** Copying to the writer index of a block that starts with the old content appends. */
  lemma OverwriteAppends(b: Buffer, reserved: seq<byte>, source: seq<byte>)
    requires b.Valid() && b.writerIndex + |source| <= |reserved|
    requires b.memory.Some? ==> b.memory.value <= reserved
    ensures Overwrite(reserved, b.writerIndex, source)[b.readerIndex..b.writerIndex + |source|]
            == b.Readable() + source
  {
    var written := Overwrite(reserved, b.writerIndex, source);
    OverwriteSlices(reserved, b.writerIndex, source);
    AppendedSlice(written, b.readerIndex, b.writerIndex, source);
    assert written[b.readerIndex..b.writerIndex] == reserved[b.readerIndex..b.writerIndex] by {
      assert written[..b.writerIndex][b.readerIndex..] == written[b.readerIndex..b.writerIndex];
      assert reserved[..b.writerIndex][b.readerIndex..] == reserved[b.readerIndex..b.writerIndex];
    }
  }

  lemma AppendedIsReadable(b: Buffer, reserved: Memory, source: seq<byte>)
    requires b.Valid() && IsBlock(reserved) && reserved.Some?
    requires b.writerIndex + |source| <= |reserved.value|
    requires b.memory.Some? ==> b.memory.value <= reserved.value
    ensures Appended(b, reserved.value, source).Valid()
    ensures Appended(b, reserved.value, source).Readable() == b.Readable() + source
  {
    OverwriteAppends(b, reserved.value, source);
  }

  lemma GrowthIsBlock(memory: Memory, need: Size, answer: Memory)
    requires IsBlock(memory) && IsGrowth(memory, need, answer)
    ensures IsBlock(MemoryAfterReserve(memory, need, answer))
  {
    RoundedIsPowerOf2OrMax(need);
  }

  lemma SuccessfulWrite(b: Buffer, shared: bool, source: Memory, a: Answers)
    requires b.Valid() && source.Some? && 0 < |source.value| <= SIZE_MAX
    requires b.writerIndex + |source.value| <= SIZE_MAX
    requires IsAnswer(b, shared, |source.value|, b.writerIndex, a)
    requires shared ==> a.split
    requires Fits(CapacityOf(MemoryAfterReserve(b.memory, b.writerIndex + |source.value|, a.growth)),
                  b.writerIndex + |source.value|)
    ensures WriteEffect(b, shared, source, a).1 == Done(|source.value|)
    ensures WriteEffect(b, shared, source, a).0.readerIndex == b.readerIndex
    ensures WriteEffect(b, shared, source, a).0.Valid()
    ensures WriteEffect(b, shared, source, a).0.Readable() == b.Readable() + source.value
  {
    var need := b.writerIndex + |source.value|;
    var reserved := MemoryAfterReserve(b.memory, need, a.growth);
    GrowthIsBlock(b.memory, need, a.growth);
    SuccessfulEffect(b, shared, source, a);
    AppendedIsReadable(b, reserved, source.value);
  }

  /** A write whose split finds memory, or needs none, keeps both promises whatever the growth
      request gets; in particular no size addition wraps and the writer assertion holds. */
  lemma WriteAppends(b: Buffer, shared: bool, source: Memory, a: Answers)
    requires b.Valid() && CapacityOf(source) <= SIZE_MAX
    requires IsAnswer(b, shared, CapacityOf(source), b.writerIndex, a)
    requires shared ==> a.split
    ensures WriteKept(b, source, WriteEffect(b, shared, source, a))
    ensures IntactOnFailure(b, WriteEffect(b, shared, source, a))
    ensures WriteEffect(b, shared, source, a).0.readerIndex == b.readerIndex
  {
    var need := b.writerIndex + CapacityOf(source);
    if 0 < CapacityOf(source) && need <= SIZE_MAX
       && Fits(CapacityOf(MemoryAfterReserve(b.memory, need, a.growth)), need) {
      SuccessfulWrite(b, shared, source, a);
    } else {
      RefusedWrite(b, shared, source, a);
    }
  }

  /** A write into enough writable space succeeds in full without asking the allocator for growth: it
      ignores what the answer would be, the capacity stays, and exactly its own bytes land. */
  lemma WriteThatFits(b: Buffer, shared: bool, source: Memory, a: Answers)
    requires b.Valid() && CapacityOf(source) <= b.WritableBytes()
    requires IsAnswer(b, shared, CapacityOf(source), b.writerIndex, a)
    requires shared ==> a.split
    ensures var (after, outcome) := WriteEffect(b, shared, source, a);
            && outcome == Done(CapacityOf(source))
            && after.writerIndex == b.writerIndex + CapacityOf(source) && after.readerIndex == b.readerIndex
            && (if CapacityOf(source) == 0 then after.memory == b.memory
                else after.memory == Some(Overwrite(b.memory.value, b.writerIndex, source.value)))
            && after.WritableBytes() == b.WritableBytes() - CapacityOf(source)
    ensures !Asks(AfterUnique(b, shared, a.split).memory, CapacityOf(source), b.writerIndex)
  {
  }

  /** A failed split goes unnoticed when nothing has been written yet. */
  lemma WriteToEmptied(b: Buffer, source: Memory, a: Answers)
    requires b.Valid() && CapacityOf(source) <= SIZE_MAX
    requires b.writerIndex == 0 && !a.split
    requires IsAnswer(b, true, CapacityOf(source), b.writerIndex, a)
    ensures WriteKept(b, source, WriteEffect(b, true, source, a))
  {
    var emptied := b.(memory := None);
    WriteAppends(emptied, false, source, a);
    assert WriteEffect(b, true, source, a) == WriteEffect(emptied, false, source, a);
    assert emptied.Readable() == b.Readable();
  }

  /** A write is all-or-nothing and leaves a usable buffer under every behaviour of the allocator
      exactly when it needs no split or nothing has been written yet. */
  lemma WriteIsSafeExactlyWhen(b: Buffer, shared: bool, source: Memory)
    requires b.Valid() && CapacityOf(source) <= SIZE_MAX
    ensures (forall a | IsAnswer(b, shared, CapacityOf(source), b.writerIndex, a) ::
               WriteKept(b, source, WriteEffect(b, shared, source, a)))
            <==> !shared || b.writerIndex == 0
  {
    if shared && b.writerIndex > 0 {
      var refusal := Answers(false, None);
      assert IsAnswer(b, shared, CapacityOf(source), b.writerIndex, refusal);
      assert WriteEffect(b, shared, source, refusal).1.AssertionFailed?;
    } else {
      forall a | IsAnswer(b, shared, CapacityOf(source), b.writerIndex, a)
        ensures WriteKept(b, source, WriteEffect(b, shared, source, a))
      {
        if shared && !a.split {
          WriteToEmptied(b, source, a);
        } else {
          WriteAppends(b, shared, source, a);
        }
      }
    }
  }

  /** Failure leaves the storage intact exactly when the block is unshared or was never allocated. */
  lemma FailureIsIntactExactlyWhen(b: Buffer, shared: bool, source: Memory)
    requires b.Valid() && CapacityOf(source) <= SIZE_MAX
    ensures (forall a | IsAnswer(b, shared, CapacityOf(source), b.writerIndex, a) ::
               IntactOnFailure(b, WriteEffect(b, shared, source, a)))
            <==> !shared || b.memory.None?
  {
    if shared && b.memory.Some? {
      var refusal := Answers(false, None);
      assert IsAnswer(b, shared, CapacityOf(source), b.writerIndex, refusal);
      assert !IntactOnFailure(b, WriteEffect(b, shared, source, refusal));
    } else {
      forall a | IsAnswer(b, shared, CapacityOf(source), b.writerIndex, a)
        ensures IntactOnFailure(b, WriteEffect(b, shared, source, a))
      {
        assert AfterUnique(b, shared, a.split) == b;
        WriteAppends(b, false, source, a);
        assert WriteEffect(b, shared, source, a) == WriteEffect(b, false, source, a);
      }
    }
  }

  // ---------- what decides about a write ----------

  /** A buffer without its bytes: what the outcome of an operation depends on. */
  datatype Shape = Shape(reader: Size, writer: Size, capacity: Size)

  function ShapeOf(b: Buffer): Shape
    requires CapacityOf(b.memory) <= SIZE_MAX
  {
    Shape(b.readerIndex, b.writerIndex, CapacityOf(b.memory))
  }

  /** What `unique()` leaves. */
  function ShapeLeft(s: Shape, shared: bool, g: Grants): Shape {
    if shared && !g.split then s.(capacity := 0) else s
  }

  /** An unshared buffer takes `size` bytes exactly when the sum of sizes does not wrap and the block is
      large enough or can be made so. */
  predicate HasRoom(s: Shape, size: nat, granted: bool) {
    0 < size && s.writer + size <= SIZE_MAX && (Fits(s.capacity, s.writer + size) || granted)
  }

  ghost function ShapeAfterAppend(s: Shape, size: nat, granted: bool): Shape {
    if HasRoom(s, size, granted)
    then Shape(s.reader, s.writer + size, CapacityAfter(s.capacity, Request(s.writer + size, granted)))
    else s
  }

  predicate Accepts(s: Shape, shared: bool, size: nat, g: Grants) {
    HasRoom(ShapeLeft(s, shared, g), size, g.growth)
  }

  /** A split that finds no memory loses the bytes written so far. This does no harm if they have all been
      read and the write goes through. */
  predicate WriteLoses(s: Shape, shared: bool, size: nat, g: Grants) {
    shared && !g.split && s.writer > 0 && !(s.reader == s.writer && Accepts(s, shared, size, g))
  }

  ghost function ShapeAfterWrite(s: Shape, shared: bool, size: nat, g: Grants): Shape {
    ShapeAfterAppend(ShapeLeft(s, shared, g), size, g.growth)
  }

  /** What a reservation leaves, as the allocator decided. */
  lemma ReservedCapacity(memory: Memory, need: Size, granted: bool, growth: Memory)
    requires IsBlock(memory) && need > 0 && IsGrowth(memory, need, growth)
    requires growth.Some? <==> granted && !Fits(CapacityOf(memory), need)
    ensures CapacityOf(MemoryAfterReserve(memory, need, growth))
            == CapacityAfter(CapacityOf(memory), Request(need, granted))
    ensures Fits(CapacityOf(MemoryAfterReserve(memory, need, growth)), need)
            <==> Fits(CapacityOf(memory), need) || granted
  {
  }

  lemma AcceptedShape(b: Buffer, source: Memory, granted: bool, growth: Memory)
    requires IsBlock(b.memory) && 0 < CapacityOf(source) && b.writerIndex + CapacityOf(source) <= SIZE_MAX
    requires IsGrowth(b.memory, b.writerIndex + CapacityOf(source), growth)
    requires growth.Some? <==> granted && Asks(b.memory, CapacityOf(source), b.writerIndex)
    requires Fits(CapacityOf(b.memory), b.writerIndex + CapacityOf(source)) || granted
    ensures var (after, outcome) := AppendEffect(b, source, growth);
            var need := b.writerIndex + CapacityOf(source);
            && outcome == Done(CapacityOf(source))
            && CapacityOf(after.memory) <= SIZE_MAX
            && ShapeOf(after) == Shape(b.readerIndex, need, CapacityAfter(CapacityOf(b.memory), Request(need, granted)))
  {
    var need := b.writerIndex + CapacityOf(source);
    ReservedCapacity(b.memory, need, granted, growth);
    var reserved := MemoryAfterReserve(b.memory, need, growth);
    var written := Some(Overwrite(reserved.value, b.writerIndex, source.value));
    assert CapacityOf(written) == CapacityOf(reserved);
    assert SetBytesEffect(b.memory, source, b.writerIndex, growth) == (written, CapacityOf(source));
  }

  lemma RefusedShape(b: Buffer, source: Memory, granted: bool, growth: Memory)
    requires CanAppend(b, source, growth) && b.writerIndex <= CapacityOf(b.memory)
    requires growth.Some? <==> granted && Asks(b.memory, CapacityOf(source), b.writerIndex)
    requires CapacityOf(source) == 0 || b.writerIndex + CapacityOf(source) > SIZE_MAX
          || !(Fits(CapacityOf(b.memory), b.writerIndex + CapacityOf(source)) || granted)
    ensures AppendEffect(b, source, growth) == (b, Done(0))
  {
  }

  lemma AppendShape(b: Buffer, source: Memory, granted: bool, growth: Memory)
    requires CanAppend(b, source, growth)
    requires b.writerIndex <= CapacityOf(b.memory) || HasRoom(ShapeOf(b), CapacityOf(source), granted)
    requires growth.Some? <==> granted && Asks(b.memory, CapacityOf(source), b.writerIndex)
    ensures var (after, outcome) := AppendEffect(b, source, growth);
            && CapacityOf(after.memory) <= SIZE_MAX
            && ShapeOf(after) == ShapeAfterAppend(ShapeOf(b), CapacityOf(source), granted)
            && outcome == Done(if HasRoom(ShapeOf(b), CapacityOf(source), granted) then CapacityOf(source) else 0)
  {
    if HasRoom(ShapeOf(b), CapacityOf(source), granted) {
      AcceptedShape(b, source, granted, growth);
    } else {
      RefusedShape(b, source, granted, growth);
    }
  }

  /** After a split that found no memory, a write that does find some stores its bytes at the writer index of a
      fresh block. */
  lemma WriteIntoFresh(b: Buffer, source: Memory, a: Answers)
    requires b.Valid() && !a.split && a.growth.Some?
    requires 0 < CapacityOf(source) && b.writerIndex + CapacityOf(source) <= SIZE_MAX
    requires IsAnswer(b, true, CapacityOf(source), b.writerIndex, a)
    ensures b.writerIndex + CapacityOf(source) <= |a.growth.value|
    ensures var need := b.writerIndex + CapacityOf(source);
            WriteEffect(b, true, source, a)
            == (Buffer(b.readerIndex, need, Some(Overwrite(a.growth.value, b.writerIndex, source.value))),
                Done(CapacityOf(source)))
  {
    var written := Some(Overwrite(a.growth.value, b.writerIndex, source.value));
    assert SetBytesEffect(None, source, b.writerIndex, a.growth) == (written, CapacityOf(source));
  }

  /** Nor does it matter when all that was written has been read and the write finds memory of its own. */
  lemma WriteToDrained(b: Buffer, source: Memory, a: Answers)
    requires b.Valid() && b.readerIndex == b.writerIndex && !a.split && a.growth.Some?
    requires 0 < CapacityOf(source) && b.writerIndex + CapacityOf(source) <= SIZE_MAX
    requires IsAnswer(b, true, CapacityOf(source), b.writerIndex, a)
    ensures WriteKept(b, source, WriteEffect(b, true, source, a))
  {
    WriteIntoFresh(b, source, a);
    RoundedIsPowerOf2OrMax(b.writerIndex + CapacityOf(source));
    OverwriteSlices(a.growth.value, b.writerIndex, source.value);
  }

  lemma WriteShape(b: Buffer, shared: bool, source: Memory, g: Grants, a: Answers)
    requires b.Valid() && CapacityOf(source) <= SIZE_MAX
    requires Follows(b, shared, CapacityOf(source), b.writerIndex, g, a)
    requires !WriteLoses(ShapeOf(b), shared, CapacityOf(source), g)
    ensures var (after, outcome) := WriteEffect(b, shared, source, a);
            && CapacityOf(after.memory) <= SIZE_MAX
            && ShapeOf(after) == ShapeAfterWrite(ShapeOf(b), shared, CapacityOf(source), g)
            && outcome == Done(if Accepts(ShapeOf(b), shared, CapacityOf(source), g) then CapacityOf(source) else 0)
  {
    var u := AfterUnique(b, shared, a.split);
    assert ShapeOf(u) == ShapeLeft(ShapeOf(b), shared, g);
    AppendShape(u, source, g.growth, a.growth);
  }

  /** Short of losing bytes to a failed split, a write is all-or-nothing, and the cursors, the capacity
      and what the allocator is going to say decide which. */
  lemma WriteIsDecided(b: Buffer, shared: bool, source: Memory, g: Grants, a: Answers)
    requires b.Valid() && CapacityOf(source) <= SIZE_MAX
    requires Follows(b, shared, CapacityOf(source), b.writerIndex, g, a)
    requires !WriteLoses(ShapeOf(b), shared, CapacityOf(source), g)
    ensures var (after, outcome) := WriteEffect(b, shared, source, a);
            && WriteKept(b, source, (after, outcome))
            && ShapeOf(after) == ShapeAfterWrite(ShapeOf(b), shared, CapacityOf(source), g)
            && outcome == Done(if Accepts(ShapeOf(b), shared, CapacityOf(source), g) then CapacityOf(source) else 0)
  {
    if shared && !a.split && b.writerIndex > 0 {
      WriteToDrained(b, source, a);
    } else if shared && !a.split {
      WriteToEmptied(b, source, a);
    } else {
      WriteAppends(b, shared, source, a);
    }
    WriteShape(b, shared, source, g, a);
  }

  /** Fresh memory can hold anything. */
  lemma OtherContent(avoided: byte, size: nat) returns (content: seq<byte>)
    ensures |content| == size && forall i | 0 <= i < size :: content[i] != avoided
  {
    var other: byte := if avoided == 0 then 1 else 0;
    content := seq(size, _ => other);
  }

  lemma LostByte(b: Buffer, source: Memory, g: Grants) returns (a: Answers)
    requires b.Valid() && b.readerIndex < b.writerIndex && !g.split && g.growth
    requires 0 < CapacityOf(source) && b.writerIndex + CapacityOf(source) <= SIZE_MAX
    ensures Follows(b, true, CapacityOf(source), b.writerIndex, g, a)
    ensures !WriteKept(b, source, WriteEffect(b, true, source, a))
  {
    var need: Size := b.writerIndex + CapacityOf(source);
    var content := OtherContent(b.memory.value[b.readerIndex], Rounded(need));
    a := Answers(false, Some(content));
    WriteIntoFresh(b, source, a);
    var after := WriteEffect(b, true, source, a).0;
    if after.Valid() {
      OverwriteSlices(content, b.writerIndex, source.value);
      assert after.memory.value[b.readerIndex] == content[b.readerIndex];
      assert after.Readable()[0] != b.Readable()[0];
    }
  }

  /** Bytes are lost exactly when some content of the fresh memory breaks what a caller relies on. */
  lemma WriteLosesExactlyWhen(b: Buffer, shared: bool, source: Memory, g: Grants)
    requires b.Valid() && CapacityOf(source) <= SIZE_MAX
    ensures WriteLoses(ShapeOf(b), shared, CapacityOf(source), g) <==>
              exists a | Follows(b, shared, CapacityOf(source), b.writerIndex, g, a) ::
                !WriteKept(b, source, WriteEffect(b, shared, source, a))
  {
    if !WriteLoses(ShapeOf(b), shared, CapacityOf(source), g) {
      forall a | Follows(b, shared, CapacityOf(source), b.writerIndex, g, a)
        ensures WriteKept(b, source, WriteEffect(b, shared, source, a))
      {
        WriteIsDecided(b, shared, source, g, a);
      }
    } else if Accepts(ShapeOf(b), shared, CapacityOf(source), g) {
      var a := LostByte(b, source, g);
    } else {
      var a := Answers(false, None);
      assert Follows(b, shared, CapacityOf(source), b.writerIndex, g, a);
      assert WriteEffect(b, shared, source, a).1.AssertionFailed?;
    }
  }

  // ---------- discarding ----------

  ghost predicate DiscardKept(b: Buffer, after: (Buffer, Outcome<()>))
    requires b.Valid()
  {
    && after.1.Done?
    && after.0.Valid()
    && after.0.Readable() == b.Readable()
    && after.0.readerIndex == 0
    && after.0.WritableBytes() == b.WritableBytes() + b.readerIndex
  }

  /** Discarding never takes the growth path: the answer to a growth request does not matter, the
      readable bytes survive the overlapping move, and all discarded space becomes writable. */
  lemma DiscardReclaims(b: Buffer, shared: bool, a: Answers)
    requires b.Valid()
    requires IsAnswer(b, shared, b.ReadableBytes(), 0, a)
    requires shared ==> a.split
    ensures DiscardKept(b, DiscardEffect(b, shared, a))
    ensures CapacityOf(DiscardEffect(b, shared, a).0.memory) == CapacityOf(b.memory)
    ensures !Asks(AfterUnique(b, shared, a.split).memory, b.ReadableBytes(), 0)
  {
    if b.readerIndex > 0 && b.ReadableBytes() > 0 {
      OverwriteSlices(b.memory.value, 0, b.Readable());
      var after := DiscardEffect(b, shared, a).0;
      assert after.Readable() == after.memory.value[0..0 + |b.Readable()|];
    }
  }

  /** Discarding keeps the readable bytes under every behaviour of the allocator exactly when it has
      nothing to move or moves within an unshared block. */
  lemma DiscardIsSafeExactlyWhen(b: Buffer, shared: bool)
    requires b.Valid()
    ensures (forall a | IsAnswer(b, shared, b.ReadableBytes(), 0, a) ::
               DiscardKept(b, DiscardEffect(b, shared, a)))
            <==> !shared || b.readerIndex == 0 || b.ReadableBytes() == 0
  {
    if shared && b.readerIndex > 0 && b.ReadableBytes() > 0 {
      var refusal := Answers(false, None);
      assert IsAnswer(b, shared, b.ReadableBytes(), 0, refusal);
      assert !DiscardEffect(b, shared, refusal).0.Valid();
    } else {
      forall a | IsAnswer(b, shared, b.ReadableBytes(), 0, a)
        ensures DiscardKept(b, DiscardEffect(b, shared, a))
      {
        if shared && !a.split {
          assert DiscardEffect(b, shared, a).0 in {b, b.(readerIndex := 0, writerIndex := 0)};
        } else {
          DiscardReclaims(b, shared, a);
        }
      }
    }
  }

  /** Discarding moves bytes, and so needs a block of its own. */
  predicate Moves(s: Shape) {
    0 < s.reader < s.writer
  }

  predicate DiscardLoses(s: Shape, shared: bool, g: Grants) {
    shared && !g.split && Moves(s)
  }

  function ShapeAfterDiscard(s: Shape): Shape
    requires s.reader <= s.writer
  {
    if s.reader == 0 then s else Shape(0, s.writer - s.reader, s.capacity)
  }

  lemma DiscardIsDecided(b: Buffer, shared: bool, g: Grants, a: Answers)
    requires b.Valid()
    requires IsAnswer(b, shared, b.ReadableBytes(), 0, a) && a.split == g.split
    requires !DiscardLoses(ShapeOf(b), shared, g)
    ensures var (after, outcome) := DiscardEffect(b, shared, a);
            && DiscardKept(b, (after, outcome))
            && ShapeOf(after) == ShapeAfterDiscard(ShapeOf(b))
  {
    if b.readerIndex == 0 || b.ReadableBytes() == 0 {
      assert DiscardEffect(b, shared, a).0 in {b, b.(readerIndex := 0, writerIndex := 0)};
    } else {
      DiscardReclaims(b, shared, a);
    }
  }

  /** Bytes are lost exactly when some answers of the allocator break what a caller relies on. */
  lemma DiscardLosesExactlyWhen(b: Buffer, shared: bool, g: Grants)
    requires b.Valid()
    ensures DiscardLoses(ShapeOf(b), shared, g) <==>
              exists a | IsAnswer(b, shared, b.ReadableBytes(), 0, a) && a.split == g.split ::
                !DiscardKept(b, DiscardEffect(b, shared, a))
  {
    if DiscardLoses(ShapeOf(b), shared, g) {
      var a := Answers(false, None);
      assert IsAnswer(b, shared, b.ReadableBytes(), 0, a);
      assert !DiscardEffect(b, shared, a).0.Valid();
    } else {
      forall a | IsAnswer(b, shared, b.ReadableBytes(), 0, a) && a.split == g.split
        ensures DiscardKept(b, DiscardEffect(b, shared, a))
      {
        DiscardIsDecided(b, shared, g, a);
      }
    }
  }
}
