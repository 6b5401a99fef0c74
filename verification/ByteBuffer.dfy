/** Byte buffers over shared, reference-counted storage. A buffer embeds its copy-on-write handle:
    the field `block` and the operations on it are those of `CopyOnWriteBacked`. */
module ByteBuffers {
  import opened BufferModel
  import opened Options
  import opened Sizes
  import opened Storage

  /** A reference-counted block around one element. */
  class Block {
    const element: ByteBufferStorage
    var retainCount: nat
    var deleted: bool
    ghost var holders: set<ByteBuffer>  // the buffers that own one reference each

    /** The block is alive, is the only one around its element, and counts its references. */
    ghost predicate Valid()
      reads this, element
    {
      && !deleted
      && retainCount == |holders|
      && element.owner == this
      && element.Valid()
    }

    constructor (element: ByteBufferStorage, ghost holder: ByteBuffer)
      requires element.Valid() && element.owner == null
      modifies element`owner
      ensures this.element == element && holders == {holder} && Valid()
    {
      this.element, retainCount, deleted, holders := element, 1, false, {holder};
      new;
      element.owner := this;
    }

    method Retain(ghost holder: ByteBuffer)
      requires Valid() && holder !in holders
      modifies this
      ensures Valid() && holders == old(holders) + {holder}
    {
      retainCount := retainCount + 1;
      holders := holders + {holder};
    }

    /** The reference one buffer held is now another's; the count does not change. */
    ghost method Transfer(from: ByteBuffer, to: ByteBuffer)
      requires Valid() && from in holders && to !in holders
      modifies this`holders
      ensures Valid() && holders == old(holders) - {from} + {to}
    {
      assert |holders - {from}| == |holders| - 1;
      holders := holders - {from} + {to};
    }

    /** Drops one reference; the last one takes the element and the block with it. */
    method Release(ghost holder: ByteBuffer)
      requires Valid() && holder in holders
      modifies this
      ensures holders == old(holders) - {holder}
      ensures if holders == {} then deleted else Valid()
    {
      assert |holders - {holder}| == |holders| - 1;
      var previous := retainCount;
      retainCount := retainCount - 1;
      holders := holders - {holder};
      if previous == 1 {
        deleted := true;
      }
    }
  }

  lemma Singleton<T>(s: set<T>, x: T, y: T)
    requires |s| == 1 && x in s && y in s
    ensures x == y
  {
    assert |s - {x}| == 0;
  }

  /** Every block in use is valid and its references are held by exactly the buffers that refer to it. */
  ghost predicate AllLinked(world: set<ByteBuffer>)
    reads *
  {
    forall b | b in world :: b.Linked(world)
  }

  /** Every one of these buffers holds what it held before, in the same block. */
  twostate predicate Kept(buffers: set<ByteBuffer>)
    reads *
  {
    forall b | b in buffers :: b.Snapshot() == old(b.Snapshot()) && b.block == old(b.block)
  }

  class ByteBuffer {
    var readerIndex: Size
    var writerIndex: Size
    var block: Block?

    ghost function Value(): Buffer
      requires block != null
      reads this, block, block.element
    {
      Buffer(readerIndex, writerIndex, block.element.bytes)
    }

    ghost function Snapshot(): Option<Buffer>
      reads this, block, if block == null then {} else {block.element}
    {
      if block == null then None else Some(Value())
    }

    ghost predicate Linked(world: set<ByteBuffer>)
      reads *
    {
      block != null ==>
        && block.Valid()
        && this in block.holders
        && forall x | x in block.holders :: x in world && x.block == block
    }

    // ---------- the copy-on-write handle ----------

    constructor (capacity: Size, granted: bool, ghost world: set<ByteBuffer>)
      requires AllLinked(world)
      ensures AllLinked(world + {this})
      ensures block != null && fresh(block) && fresh(block.element)
      ensures Value().Valid() && readerIndex == writerIndex == 0
      ensures CapacityOf(Value().memory) == if granted then Rounded(capacity) else 0
      ensures Kept(world)
    {
      readerIndex, writerIndex := 0, 0;
      block := null;
      new;
      var storage := new ByteBufferStorage(capacity, granted);
      block := new Block(storage, this);
      forall b | b in world
        ensures b.Linked(world + {this}) && b.Snapshot() == old(b.Snapshot())
      {
        assert old(b.Linked(world));
      }
    }

    /** `CopyOnWriteBacked(const CopyOnWriteBacked &)`. */
    constructor Copy(other: ByteBuffer, ghost world: set<ByteBuffer>)
      requires AllLinked(world) && other in world && other.block != null
      modifies other.block
      ensures AllLinked(world + {this})
      ensures block == other.block && Snapshot() == old(other.Snapshot())
      ensures Kept(world)
    {
      readerIndex, writerIndex := other.readerIndex, other.writerIndex;
      block := other.block;
      new;
      other.block.Retain(this);
      forall b | b in world + {this}
        ensures b.Linked(world + {this})
        ensures b != this ==> b.Snapshot() == old(b.Snapshot())
      {
        if b.block != block {
          assert old(b.Linked(world));
        }
      }
    }

    /** `this->block = other.block; other.block = nullptr`: the reference changes hands uncounted. */
    method TakeBlock(other: ByteBuffer, ghost world: set<ByteBuffer>)
      requires AllLinked(world) && this in world && other in world && other != this && block == null
      modifies this`block, other`block, if other.block == null then {} else {other.block}
      ensures AllLinked(world)
      ensures block == old(other.block) && other.block == null
      ensures readerIndex == other.readerIndex && writerIndex == other.writerIndex ==>
                Snapshot() == old(other.Snapshot())
      ensures Kept(world - {this, other})
    {
      assert other.Linked(world);
      block := other.block;
      other.block := null;
      if block != null {
        block.Transfer(other, this);
      }
      forall b | b in world
        ensures b.Linked(world)
        ensures b != this && b != other ==> b.Snapshot() == old(b.Snapshot())
      {
        assert old(b.Linked(world));
        if b.block != block && b.block != null {
          assert unchanged(b.block) && unchanged(b.block.element);
        }
      }
    }

    /** `CopyOnWriteBacked(CopyOnWriteBacked &&)`: leaves `other` without a block. */
    constructor Move(other: ByteBuffer, ghost world: set<ByteBuffer>)
      requires AllLinked(world) && other in world
      modifies other`block, other.block
      ensures AllLinked(world + {this})
      ensures block == old(other.block) && Snapshot() == old(other.Snapshot()) && other.block == null
      ensures Kept(world - {other})
    {
      readerIndex, writerIndex := other.readerIndex, other.writerIndex;
      block := null;
      new;
      forall b | b in world + {this}
        ensures b.Linked(world + {this}) && (b != this ==> b.Snapshot() == old(b.Snapshot()))
      {
        assert b != this ==> old(b.Linked(world));
      }
      TakeBlock(other, world + {this});
    }

    /** Releases the own block, if there is one, before the pointer to it is overwritten. */
    method DropBlock(ghost world: set<ByteBuffer>)
      requires AllLinked(world) && this in world
      modifies this`block, block
      ensures AllLinked(world) && block == null
      ensures Kept(world - {this})
    {
      assert Linked(world);
      if block != null {
        block.Release(this);
        block := null;
      }
      forall b | b in world
        ensures b.Linked(world)
        ensures b != this ==> b.Snapshot() == old(b.Snapshot())
      {
        assert old(b.Linked(world));
        assert b.block != null ==> b in b.block.holders;
      }
    }

    /** The destructor: the buffer leaves the world, and its block goes with its last reference. */
    method Destroy(ghost world: set<ByteBuffer>)
      requires AllLinked(world) && this in world
      modifies block
      ensures AllLinked(world - {this})
      ensures Kept(world - {this})
      ensures block != null ==> (block.deleted <==> forall b | b in world - {this} :: b.block != block)
    {
      assert Linked(world);
      if block != null {
        block.Release(this);
      }
      forall b | b in world - {this}
        ensures b.Linked(world - {this}) && b.Snapshot() == old(b.Snapshot())
      {
        assert old(b.Linked(world));
      }
    }

    /** Moving the cursors of one buffer changes no other buffer. */
    twostate lemma OnlyOwnCursorsChanged(world: set<ByteBuffer>)
      requires old(AllLinked(world)) && this in world
      requires forall b | b in world && b != this :: unchanged(b)
      requires block == old(block)
      requires forall b | b in world && b.block != null :: unchanged(b.block) && unchanged(b.block.element)
      ensures AllLinked(world)
      ensures Kept(world - {this})
    {
      forall b | b in world
        ensures b.Linked(world)
        ensures b != this ==> b.Snapshot() == old(b.Snapshot())
      {
        assert old(b.Linked(world));
      }
    }

    /** The member-wise part of the two assignments. */
    method SetCursors(reader: Size, writer: Size, ghost world: set<ByteBuffer>)
      requires AllLinked(world) && this in world
      modifies this`readerIndex, this`writerIndex
      ensures AllLinked(world) && Kept(world - {this})
      ensures readerIndex == reader && writerIndex == writer
    {
      readerIndex, writerIndex := reader, writer;
      OnlyOwnCursorsChanged(world);
    }

    /** The new block is retained before the old one is released. */
    method ReplaceBlock(other: ByteBuffer, ghost world: set<ByteBuffer>)
      requires AllLinked(world) && this in world && other in world && other.block != null && block != other.block
      modifies this`block, block, other.block
      ensures AllLinked(world)
      ensures block == old(other.block)
      ensures Kept(world - {this})
      ensures block.element == old(other.block.element) && block.element.bytes == old(other.block.element.bytes)
    {
      assert Linked(world) && other.Linked(world);
      var retained := other.block;
      retained.Retain(this);
      if block != null {
        block.Release(this);
      }
      block := retained;
      forall b | b in world
        ensures b.Linked(world)
        ensures b != this ==> b.Snapshot() == old(b.Snapshot())
      {
        assert old(b.Linked(world));
        if b.block != block && b.block != old(block) && b.block != null {
          assert unchanged(b.block) && unchanged(b.block.element);
        }
      }
    }

    /** `operator=(const CopyOnWriteBacked &)`. */
    method AssignBlock(other: ByteBuffer, ghost world: set<ByteBuffer>)
      requires AllLinked(world) && this in world && other in world && other.block != null
      modifies this`block, block, other.block
      ensures AllLinked(world)
      ensures block == old(other.block)
      ensures Kept(world - {this})
      ensures block.element == old(other.block.element) && block.element.bytes == old(other.block.element.bytes)
    {
      if block != other.block {
        ReplaceBlock(other, world);
      }
    }

    /** `operator=(const ByteBuffer &)`. */
    method CopyAssign(other: ByteBuffer, ghost world: set<ByteBuffer>)
      requires AllLinked(world) && this in world && other in world && other.block != null
      modifies this, block, other.block
      ensures AllLinked(world)
      ensures block == old(other.block) && Snapshot() == old(other.Snapshot())
      ensures Kept(world - {this})
    {
      SetCursors(other.readerIndex, other.writerIndex, world);
      AssignBlock(other, world);
    }

    /** `operator=(ByteBuffer &&)`. */
    method MoveAssign(other: ByteBuffer, ghost world: set<ByteBuffer>)
      requires AllLinked(world) && this in world && other in world
      modifies this, block, other`block, other.block
      ensures AllLinked(world)
      ensures block == old(other.block) && Snapshot() == old(other.Snapshot())
      ensures other != this ==> other.block == null
      ensures Kept(world - {this, other})
    {
      SetCursors(other.readerIndex, other.writerIndex, world);
      if this != other {
        DropBlock(world);
        TakeBlock(other, world);
      }
    }

    /** `unique()`: splits a private copy off a shared block. A copy that finds no memory is empty, and
        is installed all the same. */
    method Unique(granted: bool, ghost world: set<ByteBuffer>)
      requires AllLinked(world) && this in world && block != null
      modifies this`block, block
      ensures AllLinked(world)
      ensures block != null && block.retainCount == 1
      ensures if old(block.retainCount) == 1 then block == old(block) && unchanged(block)
              else fresh(block) && fresh(block.element)
      ensures Value() == AfterUnique(old(Value()), old(block.retainCount) > 1, granted)
      ensures Kept(world - {this})
    {
      assert Linked(world);
      if block.retainCount > 1 {
        var copy := new ByteBufferStorage.Copy(block.element, granted);
        var unshared := new Block(copy, this);
        block.Release(this);
        block := unshared;
      }
      forall b | b in world
        ensures b.Linked(world)
        ensures b != this ==> b.Snapshot() == old(b.Snapshot())
      {
        assert old(b.Linked(world));
      }
    }

    /** A change to the element of an unshared block is seen by no other buffer. */
    twostate lemma OnlyOwnElementChanged(world: set<ByteBuffer>)
      requires old(AllLinked(world)) && this in world && block != null && block.retainCount == 1
      requires forall b | b in world :: unchanged(b)
      requires forall b | b in world && b.block != null :: unchanged(b.block)
      requires forall b | b in world && b.block != null && b.block != block :: unchanged(b.block.element)
      requires block.element.Valid() && block.element.owner == old(block.element.owner)
      ensures AllLinked(world)
      ensures Kept(world - {this})
    {
      assert old(Linked(world));
      forall b | b in world
        ensures b.Linked(world)
        ensures b != this ==> b.Snapshot() == old(b.Snapshot())
      {
        assert old(b.Linked(world));
        if b.block == block {
          Singleton(block.holders, this, b);
        }
      }
    }

    // ---------- queries ----------

    method Capacity() returns (capacity: Size)
      requires block != null && block.element.Valid()
      ensures capacity == CapacityOf(Value().memory)
    {
      return block.element.capacity;
    }

    method WritableBytes() returns (writable: Size)
      requires block != null && block.element.Valid()
      ensures writable == Value().WritableBytes()
    {
      var capacity := Capacity();
      return if capacity > writerIndex then capacity - writerIndex else 0;
    }

    method ReadableBytes() returns (readable: Size)
      requires block != null
      ensures readable == Value().ReadableBytes()
    {
      return if writerIndex > readerIndex then writerIndex - readerIndex else 0;
    }

    // ---------- writing ----------

    /** `storage.unique()->setBytes(...)`, once the block is unshared. */
    method SetOwnBytes(source: Memory, size: Size, atIndex: Size, granted: bool, ghost world: set<ByteBuffer>)
      returns (written: Size, growth: Memory)
      requires AllLinked(world) && this in world && block != null && block.retainCount == 1
      requires source.Some? ==> |source.value| == size
      modifies block.element`bytes, block.element`capacity, block.element`moved
      ensures AllLinked(world) && Kept(world - {this})
      ensures CapacityOf(source) <= SIZE_MAX && IsBlock(old(block.element.bytes))
      ensures atIndex + CapacityOf(source) <= SIZE_MAX ==>
                IsGrowth(old(block.element.bytes), atIndex + CapacityOf(source), growth)
      ensures growth.Some? <==> granted && Asks(old(block.element.bytes), CapacityOf(source), atIndex)
      ensures (block.element.bytes, written) == SetBytesEffect(old(block.element.bytes), source, atIndex, growth)
    {
      assert Linked(world);
      written, growth := block.element.SetBytes(source, size, atIndex, granted);
      OnlyOwnElementChanged(world);
    }

    /** The cursor assertion of the writer can fail, after a split that found no memory; the outcome
        says so. */
    method MoveWriterIndexForwardBy(offset: Size, ghost world: set<ByteBuffer>) returns (outcome: Outcome<Size>)
      requires AllLinked(world) && this in world && block != null
      modifies this`writerIndex
      ensures AllLinked(world) && Kept(world - {this})
      ensures var index := WrappingAdd(old(writerIndex), offset);
              if index <= CapacityOf(block.element.bytes)
              then writerIndex == index && outcome == Done(offset)
              else writerIndex == old(writerIndex) && outcome == AssertionFailed
    {
      assert Linked(world);
      var index := WrappingAdd(writerIndex, offset);
      var capacity := Capacity();
      if index <= capacity {
        writerIndex := index;
        outcome := Done(offset);
      } else {
        outcome := AssertionFailed;
      }
      OnlyOwnCursorsChanged(world);
    }

    /** `writeBytes` once the block is unshared. */
    method AppendOwnBytes(source: Memory, size: Size, granted: bool, ghost world: set<ByteBuffer>)
      returns (outcome: Outcome<Size>, growth: Memory)
      requires AllLinked(world) && this in world && block != null && block.retainCount == 1
      requires source.Some? ==> |source.value| == size
      modifies this`writerIndex, block.element`bytes, block.element`capacity, block.element`moved
      ensures AllLinked(world) && Kept(world - {this})
      ensures CanAppend(old(Value()), source, growth)
      ensures growth.Some? <==> granted && Asks(old(Value()).memory, CapacityOf(source), old(writerIndex))
      ensures (Value(), outcome) == AppendEffect(old(Value()), source, growth)
    {
      var written;
      written, growth := SetOwnBytes(source, size, writerIndex, granted, world);
      outcome := MoveWriterIndexForwardBy(written, world);
    }

    method WriteBytes(source: Memory, size: Size, grants: Grants, ghost world: set<ByteBuffer>)
      returns (outcome: Outcome<Size>, answers: Answers)
      requires AllLinked(world) && this in world && block != null && Value().Valid()
      requires source.Some? ==> |source.value| == size
      modifies this, block, block.element
      ensures AllLinked(world) && block != null
      ensures if old(block.retainCount) == 1 then block == old(block) else fresh(block) && fresh(block.element)
      ensures CapacityOf(source) <= SIZE_MAX
      ensures Follows(old(Value()), old(block.retainCount) > 1, CapacityOf(source), old(writerIndex), grants, answers)
      ensures (Value(), outcome) == WriteEffect(old(Value()), old(block.retainCount) > 1, source, answers)
      ensures Kept(world - {this})
    {
      Unique(grants.split, world);
      var growth;
      outcome, growth := AppendOwnBytes(source, size, grants.growth, world);
      answers := Answers(grants.split, growth);
    }

    // ---------- reading ----------

    /** The cursor assertion is the precondition, so every call below proves it. */
    method MoveReaderIndexTo(index: Size)
      requires index <= writerIndex
      modifies this`readerIndex
      ensures readerIndex == index
    {
      readerIndex := index;
    }

    method MoveReaderIndexForwardBy(offset: Size)
      requires block != null && Value().Valid() && readerIndex + offset <= writerIndex
      modifies this`readerIndex
      ensures Value().Valid() && Value() == old(Value()).(readerIndex := old(readerIndex) + offset)
      ensures Value().Readable() == old(Value().Readable())[offset..]
    {
      ghost var before := Value();
      ReadTakesPrefix(before, offset);
      MoveReaderIndexTo(WrappingAdd(readerIndex, offset));
      assert Value() == before.(readerIndex := before.readerIndex + offset);
    }

    /** Reads exactly min(size, readable) bytes through a non-null destination: the clamp against the
        capacity never shortens a read. */
    method ReadBytes(destination: bool, size: Size) returns (read: seq<byte>)
      requires block != null && block.element.Valid() && Value().Valid()
      modifies this`readerIndex
      ensures Value().Valid()
      ensures if !destination then read == []
              else if size <= old(writerIndex - readerIndex) then read == old(Value().Readable())[..size]
              else read == old(Value().Readable())
      ensures Value() == old(Value()).(readerIndex := old(readerIndex) + |read|)
      ensures Value().Readable() == old(Value().Readable())[|read|..]
    {
      var readable := ReadableBytes();
      var count := MinimumOf(size, readable);
      if count == 0 {
        return [];
      }
      read := block.element.CopyBytesTo(destination, count, readerIndex);
      assert read == if destination then block.element.bytes.value[readerIndex..readerIndex + count] else [];
      ReadTakesPrefix(Value(), count);
      MoveReaderIndexForwardBy(|read|);
    }

    method ReadString(size: Size) returns (read: seq<byte>)
      requires block != null && block.element.Valid() && Value().Valid()
      modifies this`readerIndex
      ensures Value().Valid()
      ensures if size <= old(writerIndex - readerIndex) then read == old(Value().Readable())[..size]
              else read == old(Value().Readable())
      ensures Value() == old(Value()).(readerIndex := old(readerIndex) + |read|)
      ensures Value().Readable() == old(Value().Readable())[|read|..]
    {
      var readable := ReadableBytes();
      var count := MinimumOf(size, readable);
      if count == 0 {
        return [];
      }
      ReadTakesPrefix(Value(), count);
      read := block.element.bytes.value[readerIndex..readerIndex + count];
      MoveReaderIndexForwardBy(count);
    }

    method SkipBytes(size: Size) returns (count: Size)
      requires block != null && Value().Valid()
      modifies this`readerIndex
      ensures Value().Valid()
      ensures count == if size <= old(writerIndex - readerIndex) then size else old(writerIndex - readerIndex)
      ensures Value() == old(Value()).(readerIndex := old(readerIndex) + count)
      ensures Value().Readable() == old(Value().Readable())[count..]
    {
      var readable := ReadableBytes();
      count := MinimumOf(size, readable);
      MoveReaderIndexForwardBy(count);
    }

    // ---------- reclaiming ----------

    /** `storage->setBytes(storage->getBytes() + readerIndex, readable, 0)`: when the storage is empty
        the source is a pointer computed from null, and only a failing reservation keeps `setBytes`
        from reading through it. */
    method MoveReadableToFront(readable: Size, granted: bool, ghost world: set<ByteBuffer>)
      returns (outcome: Outcome<()>, growth: Memory)
      requires AllLinked(world) && this in world && block != null && block.retainCount == 1
      requires readable > 0 && readable == Value().ReadableBytes()
      requires block.element.bytes.Some? ==> Value().Valid()
      modifies block.element`bytes, block.element`capacity, block.element`moved
      ensures AllLinked(world) && Kept(world - {this})
      ensures readerIndex == old(readerIndex) && writerIndex == old(writerIndex)
      ensures IsGrowth(old(block.element.bytes), readable, growth)
      ensures growth.Some? <==> granted && Asks(old(block.element.bytes), readable, 0)
      ensures if old(block.element.bytes.Some?)
              then (outcome == Done(())
                    && block.element.bytes
                       == SetBytesEffect(old(block.element.bytes), Some(old(Value().Readable())), 0, growth).0)
              else (outcome == (if growth.None? then Done(()) else WildRead)
                    && block.element.bytes == growth)
    {
      assert Linked(world);
      var storage := block.element;
      outcome := Done(());
      if storage.bytes.Some? {
        var written;
        written, growth := storage.SetBytes(Some(storage.bytes.value[readerIndex..writerIndex]), readable, 0, granted);
      } else {
        var ok;
        ok, growth := storage.Reserve(readable, granted);
        if ok {
          outcome := WildRead;
        }
      }
      OnlyOwnElementChanged(world);
    }

    method ResetCursors(writer: Size, ghost world: set<ByteBuffer>)
      requires AllLinked(world) && this in world
      modifies this`readerIndex, this`writerIndex
      ensures AllLinked(world) && Kept(world - {this})
      ensures readerIndex == 0 && writerIndex == writer
    {
      SetCursors(0, writer, world);
    }

    method DiscardReadBytes(grants: Grants, ghost world: set<ByteBuffer>)
      returns (outcome: Outcome<()>, answers: Answers)
      requires AllLinked(world) && this in world && block != null && Value().Valid()
      modifies this, block, block.element
      ensures AllLinked(world) && block != null
      ensures if old(readerIndex == 0 || Value().ReadableBytes() == 0 || block.retainCount == 1)
              then block == old(block) else fresh(block) && fresh(block.element)
      ensures IsAnswer(old(Value()), old(block.retainCount) > 1, old(Value().ReadableBytes()), 0, answers)
      ensures answers.split == grants.split && (answers.growth.Some? ==> grants.growth)
      ensures (Value(), outcome) == DiscardEffect(old(Value()), old(block.retainCount) > 1, answers)
      ensures Kept(world - {this})
    {
      if readerIndex == 0 {
        return Done(()), Answers(grants.split, None);
      }
      var readable := ReadableBytes();
      if readable > 0 {
        Unique(grants.split, world);
        var growth;
        outcome, growth := MoveReadableToFront(readable, grants.growth, world);
        answers := Answers(grants.split, growth);
        if outcome.WildRead? {
          return;
        }
      } else {
        outcome, answers := Done(()), Answers(grants.split, None);
      }
      ResetCursors(readable, world);
    }

    method Clear(ghost world: set<ByteBuffer>)
      requires AllLinked(world) && this in world && block != null && Value().Valid()
      modifies this`readerIndex, this`writerIndex
      ensures AllLinked(world) && Kept(world - {this})
      ensures Value() == old(Value()).(readerIndex := 0, writerIndex := 0)
      ensures Value().Valid() && Value().Readable() == []
    {
      ResetCursors(0, world);
    }
  }
}
