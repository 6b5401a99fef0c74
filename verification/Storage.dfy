/** The capacities one storage block passes through, and what its reallocations cost in total. */
module Growth {
  import opened Sizes

  /** One call of `reserve`: what was asked for, and whether the call reported success. */
  datatype Request = Request(need: Size, granted: bool)

  ghost predicate IsCapacity(capacity: Size) {
    capacity == 0 || IsPowerOf2(capacity) || capacity == SIZE_MAX
  }

  predicate Fits(capacity: nat, need: nat) {
    0 < capacity && need <= capacity
  }

  ghost function CapacityAfter(capacity: Size, r: Request): Size {
    if Fits(capacity, r.need) || !r.granted then capacity else Rounded(r.need)
  }

  ghost function FinalCapacity(capacity: Size, rs: seq<Request>): Size
    decreases |rs|
  {
    if rs == [] then capacity else FinalCapacity(CapacityAfter(capacity, rs[0]), rs[1..])
  }

  /** The old capacity, where the request makes the block move. */
  function Cost(capacity: Size, r: Request): nat {
    if Fits(capacity, r.need) || !r.granted then 0 else capacity
  }

  /** The sum of the old capacities handed to successful reallocations: an upper bound on the bytes
      they move. */
  ghost function Moved(capacity: Size, rs: seq<Request>): nat
    decreases |rs|
  {
    if rs == [] then 0
    else Cost(capacity, rs[0]) + Moved(CapacityAfter(capacity, rs[0]), rs[1..])
  }

  ghost function LargestNeed(rs: seq<Request>): (largest: Size)
    ensures forall r | r in rs :: r.need <= largest
    ensures rs != [] ==> exists r :: r in rs && r.need == largest
  {
    if rs == [] then 0
    else
      var rest := LargestNeed(rs[1..]);
      if rs[0].need < rest then rest else rs[0].need
  }

  lemma {:induction false} FinalCapacityAppends(capacity: Size, rs: seq<Request>, r: Request)
    ensures FinalCapacity(capacity, rs + [r]) == CapacityAfter(FinalCapacity(capacity, rs), r)
    ensures Moved(capacity, rs + [r]) == Moved(capacity, rs) + Cost(FinalCapacity(capacity, rs), r)
    decreases |rs|
  {
    if rs == [] {
      assert FinalCapacity(CapacityAfter(capacity, r), []) == CapacityAfter(capacity, r);
      assert Moved(CapacityAfter(capacity, r), []) == 0;
    } else {
      assert (rs + [r])[1..] == rs[1..] + [r];
      FinalCapacityAppends(CapacityAfter(capacity, rs[0]), rs[1..], r);
    }
  }

  lemma CapacityAfterIsCapacity(capacity: Size, r: Request)
    requires IsCapacity(capacity)
    ensures IsCapacity(CapacityAfter(capacity, r))
    ensures CapacityAfter(capacity, r) >= capacity
  {
    RoundedIsPowerOf2OrMax(r.need);
  }

  /** A reallocation at least doubles the capacity, up to the one byte that saturation loses. */
  lemma GrowthDoubles(capacity: Size, need: Size)
    requires IsCapacity(capacity) && capacity < need
    ensures 2 * capacity <= Rounded(need) + (if Rounded(need) == SIZE_MAX then 1 else 0)
  {
    RoundedIsPowerOf2OrMax(need);
    if capacity > 0 {
      var j: nat :| capacity == Pow2(j);
      if need > TWO_TO_63 {
        Pow2Of63And64();
        if j < 63 {
          Pow2Monotone(j, 63);
        } else if j > 64 {
          Pow2Monotone(64, j);
        }
      } else {
        var k: nat :| Rounded(need) == Pow2(k);
        if k <= j {
          if k < j {
            Pow2Monotone(k, j);
          }
        } else {
          Pow2Monotone(j, k);
        }
      }
    }
  }

  /** Growth is amortised linear: whatever the requests and however the allocator answers them, all
      the reallocations together are handed no more bytes than the final capacity. */
  lemma {:induction false} MovedIsAtMostFinalCapacity(capacity: Size, rs: seq<Request>)
    requires IsCapacity(capacity)
    ensures IsCapacity(FinalCapacity(capacity, rs)) && capacity <= FinalCapacity(capacity, rs)
    ensures Moved(capacity, rs) <= FinalCapacity(capacity, rs)
    ensures Moved(capacity, rs) + capacity
            <= FinalCapacity(capacity, rs) + (if capacity < FinalCapacity(capacity, rs) == SIZE_MAX then 1 else 0)
    decreases |rs|
  {
    if rs != [] {
      var r := rs[0];
      var next := CapacityAfter(capacity, r);
      CapacityAfterIsCapacity(capacity, r);
      MovedIsAtMostFinalCapacity(next, rs[1..]);
      if next != capacity && 0 < capacity {
        GrowthDoubles(capacity, r.need);
      }
    }
  }

  /** The capacity stays within twice the largest size ever needed. */
  lemma {:induction false} CapacityIsBoundedByNeed(capacity: Size, rs: seq<Request>)
    requires forall r :: r in rs ==> r.need >= 1
    ensures FinalCapacity(capacity, rs) <= capacity
         || FinalCapacity(capacity, rs) < 2 * LargestNeed(rs)
    decreases |rs|
  {
    if rs != [] {
      assert rs[0] in rs;
      RoundedBelowDouble(rs[0].need);
      CapacityIsBoundedByNeed(CapacityAfter(capacity, rs[0]), rs[1..]);
    }
  }
}

/** The heap block behind a byte buffer, and the memory primitives it uses. */
module Storage {
  import opened Growth
  import opened Options
  import opened Sizes

  newtype byte = b: int | 0 <= b < 0x100

  /** A block of memory as an allocator hands it out: null, or bytes of unspecified content. */
  type Memory = Option<seq<byte>>

  function CapacityOf(memory: Memory): nat {
    if memory.None? then 0 else |memory.value|
  }

  /** A memory block that a storage can hold: its size is a machine size it may have rounded to. */
  ghost predicate IsBlock(memory: Memory) {
    && CapacityOf(memory) <= SIZE_MAX
    && IsCapacity(CapacityOf(memory))
    && (memory.Some? ==> memory.value != [])
  }

  /** `memmove`: the source is a snapshot, so it may overlap the destination. */
  function Overwrite(destination: seq<byte>, at: nat, source: seq<byte>): (r: seq<byte>)
    requires at + |source| <= |destination|
    ensures |r| == |destination|
  {
    destination[..at] + source + destination[at + |source|..]
  }

  lemma OverwriteSlices(destination: seq<byte>, at: nat, source: seq<byte>)
    requires at + |source| <= |destination|
    ensures Overwrite(destination, at, source)[..at] == destination[..at]
    ensures Overwrite(destination, at, source)[at..at + |source|] == source
    ensures Overwrite(destination, at, source)[at + |source|..] == destination[at + |source|..]
  {
  }

  /** What `allocate` (for null) or `reallocate` may answer to a request for `need` bytes: null, or a
      block of the rounded size that starts with the old content. */
  ghost predicate IsGrowth(memory: Memory, need: Size, answer: Memory) {
    answer.Some? ==>
      && |answer.value| == Rounded(need)
      && (memory.Some? ==> |memory.value| <= |answer.value| && memory.value <= answer.value)
  }

  ghost function MemoryAfterReserve(memory: Memory, need: Size, answer: Memory): Memory
    requires IsBlock(memory)
  {
    if Fits(CapacityOf(memory), need) || answer.None? then memory else answer
  }

  /** The effect of `setBytes`: the memory afterwards and the number of bytes written. */
  ghost function SetBytesEffect(memory: Memory, source: Memory, atIndex: Size, answer: Memory): (Memory, Size)
    requires IsBlock(memory)
    requires CapacityOf(source) <= SIZE_MAX
    requires atIndex + CapacityOf(source) <= SIZE_MAX ==>
               IsGrowth(memory, atIndex + CapacityOf(source), answer)
  {
    var size := CapacityOf(source);
    if size == 0 || atIndex + size > SIZE_MAX then (memory, 0)
    else
      var reserved := MemoryAfterReserve(memory, atIndex + size, answer);
      if Fits(CapacityOf(reserved), atIndex + size)
      then (Some(Overwrite(reserved.value, atIndex, source.value)), size)
      else (memory, 0)
  }

  /** Whether `setBytes` makes a request of the allocator. */
  predicate Asks(memory: Memory, size: nat, atIndex: nat) {
    0 < size && atIndex + size <= SIZE_MAX && !Fits(CapacityOf(memory), atIndex + size)
  }

  /** `allocate`: `granted` says whether the allocator finds the memory, the content of which is
      unspecified. */
  method Allocate(len: Size, granted: bool) returns (memory: Memory)
    ensures memory.Some? <==> granted
    ensures memory.Some? ==> |memory.value| == len
  {
    if !granted {
      return None;
    }
    var content: seq<byte> := *;
    if |content| != len {
      content := seq(len, _ => 0);
    }
    return Some(content);
  }

  /** `reallocate`: keeps the old content as a prefix when it grows a block. */
  method Reallocate(bytes: seq<byte>, len: Size, granted: bool) returns (memory: Memory)
    requires |bytes| <= len
    ensures memory.Some? <==> granted
    ensures memory.Some? ==> |memory.value| == len && bytes <= memory.value
  {
    var tail := Allocate(len - |bytes|, granted);
    if tail.None? {
      return None;
    }
    return Some(bytes + tail.value);
  }

  class ByteBufferStorage {
    var bytes: Memory
    var capacity: Size
    ghost var owner: object?  // the reference-counted block this element belongs to
    ghost var moved: nat      // the old capacities handed to successful reallocations so far

    ghost predicate Valid()
      reads this
    {
      IsBlock(bytes) && capacity == CapacityOf(bytes)
    }

    constructor (minimumCapacity: Size, granted: bool)
      ensures Valid() && owner == null && moved == 0
      ensures capacity == if granted then Rounded(minimumCapacity) else 0
    {
      bytes, capacity, owner, moved := None, 0, null, 0;
      new;
      var rounded := NextPowerOf2ClampedToMax(minimumCapacity);
      var handedOut := Allocate(rounded, granted);
      if handedOut.Some? {
        bytes, capacity := handedOut, rounded;
        RoundedIsPowerOf2OrMax(minimumCapacity);
      }
    }

    /** The copy constructor. A failed allocation leaves the copy empty, without an error. */
    constructor Copy(storage: ByteBufferStorage, granted: bool)
      requires storage.Valid()
      ensures Valid() && owner == null && moved == 0
      ensures bytes == if granted then storage.bytes else None
    {
      bytes, capacity, owner, moved := None, 0, null, 0;
      new;
      if storage.bytes.None? {
        return;
      }
      var handedOut := Allocate(storage.capacity, granted);
      if handedOut.None? {
        return;
      }
      var copied := Overwrite(handedOut.value, 0, storage.bytes.value);
      assert copied == storage.bytes.value;
      bytes, capacity := Some(copied), storage.capacity;
    }

    method Reserve(minimumNeededCapacity: Size, granted: bool) returns (ok: bool, answer: Memory)
      requires Valid()
      modifies `bytes, `capacity, `moved
      ensures Valid()
      ensures moved == old(moved) + Cost(old(capacity), Request(minimumNeededCapacity, ok))
      ensures IsGrowth(old(bytes), minimumNeededCapacity, answer)
      ensures bytes == MemoryAfterReserve(old(bytes), minimumNeededCapacity, answer)
      ensures answer.Some? <==> granted && !Fits(old(capacity), minimumNeededCapacity)
      ensures ok == Fits(capacity, minimumNeededCapacity)
      ensures ok == (Fits(old(capacity), minimumNeededCapacity) || granted)
      ensures capacity == CapacityAfter(old(capacity), Request(minimumNeededCapacity, ok))
    {
      answer := None;
      if bytes.Some? && minimumNeededCapacity <= capacity {
        return true, None;
      }
      var newCapacity := NextPowerOf2ClampedToMax(minimumNeededCapacity);
      if newCapacity < minimumNeededCapacity {
        return false, None;
      }
      var newBytes: Memory;
      if bytes.None? {
        newBytes := Allocate(newCapacity, granted);
      } else {
        newBytes := Reallocate(bytes.value, newCapacity, granted);
        if newBytes.Some? {
          moved := moved + capacity;
        }
      }
      if newBytes.None? {
        return false, None;
      }
      RoundedIsPowerOf2OrMax(minimumNeededCapacity);
      bytes, capacity := newBytes, newCapacity;
      return true, newBytes;
    }

    method SetBytes(source: Memory, size: Size, atIndex: Size, granted: bool) returns (written: Size, answer: Memory)
      requires Valid()
      requires source.Some? ==> |source.value| == size
      modifies `bytes, `capacity, `moved
      ensures Valid()
      ensures moved == old(moved) + if answer.Some? then old(capacity) else 0
      ensures atIndex + CapacityOf(source) <= SIZE_MAX ==>
                IsGrowth(old(bytes), atIndex + CapacityOf(source), answer)
      ensures answer.Some? <==> granted && Asks(old(bytes), CapacityOf(source), atIndex)
      ensures CapacityOf(source) <= SIZE_MAX
      ensures (bytes, written) == SetBytesEffect(old(bytes), source, atIndex, answer)
    {
      answer := None;
      if source.None? || size == 0 {
        return 0, None;
      }
      if atIndex > SIZE_MAX - size {
        return 0, None;
      }
      var ok;
      ok, answer := Reserve(atIndex + size, granted);
      if !ok {
        return 0, answer;
      }
      bytes := Some(Overwrite(bytes.value, atIndex, source.value));
      return size, answer;
    }

    /** Copies out of the block. `destination` says whether the caller's pointer is non-null; the
        bytes stored through it are returned. */
    method CopyBytesTo(destination: bool, size: Size, fromIndex: Size) returns (copied: seq<byte>)
      requires Valid()
      ensures !destination || fromIndex >= capacity ==> copied == []
      ensures destination && fromIndex < capacity ==>
                copied == if fromIndex + size <= capacity then bytes.value[fromIndex..fromIndex + size]
                          else bytes.value[fromIndex..]
    {
      if !destination || bytes.None? || fromIndex >= capacity {
        return [];
      }
      var count := MinimumOf(size, capacity - fromIndex);
      if count == 0 {
        return [];
      }
      return bytes.value[fromIndex..fromIndex + count];
    }
  }

  // ---------- a run of writes to one storage ----------

  /** `granted` says what the allocator answers if the write has to ask. */
  datatype Write = Write(source: seq<byte>, atIndex: Size, granted: bool)

  predicate IsWrite(w: Write) {
    |w.source| <= SIZE_MAX
  }

  /** The request that the write makes of `reserve`, if it gets that far. */
  function RequestOf(w: Write): (r: Option<Request>)
    ensures r.Some? ==> r.value.need >= 1
  {
    if |w.source| == 0 || w.atIndex + |w.source| > SIZE_MAX then None
    else Some(Request(w.atIndex + |w.source|, w.granted))
  }

  function RequestsOf(ws: seq<Write>): (rs: seq<Request>)
    ensures forall r | r in rs :: r.need >= 1
  {
    if ws == [] then []
    else
      var r := RequestOf(ws[|ws| - 1]);
      RequestsOf(ws[..|ws| - 1]) + if r.Some? then [r.value] else []
  }

  ghost function CapacityAfterWrites(initial: Size, ws: seq<Write>): Size {
    FinalCapacity(initial, RequestsOf(ws))
  }

  ghost function MovedByWrites(initial: Size, ws: seq<Write>): nat {
    Moved(initial, RequestsOf(ws))
  }

  function CostOf(capacity: Size, w: Write): nat {
    var r := RequestOf(w);
    if r.Some? then Cost(capacity, r.value) else 0
  }

  /** How much the write stores into a block of this capacity. */
  function WrittenBy(capacity: Size, w: Write): nat {
    var r := RequestOf(w);
    if r.Some? && (Fits(capacity, r.value.need) || w.granted) then |w.source| else 0
  }

  /** The count and the capacity after one write, for all that the allocator may answer. */
  lemma WriteOutcome(memory: Memory, w: Write, answer: Memory)
    requires IsBlock(memory) && IsWrite(w)
    requires w.atIndex + |w.source| <= SIZE_MAX ==> IsGrowth(memory, w.atIndex + |w.source|, answer)
    requires answer.Some? <==> w.granted && Asks(memory, |w.source|, w.atIndex)
    ensures var (after, written) := SetBytesEffect(memory, Some(w.source), w.atIndex, answer);
            var r := RequestOf(w);
            && CapacityOf(after) == (if r.Some? then CapacityAfter(CapacityOf(memory), r.value) else CapacityOf(memory))
            && written == WrittenBy(CapacityOf(memory), w)
  {
  }

  lemma OneMoreWrite(initial: Size, ws: seq<Write>, w: Write)
    ensures var r, capacity := RequestOf(w), CapacityAfterWrites(initial, ws);
            CapacityAfterWrites(initial, ws + [w]) == if r.Some? then CapacityAfter(capacity, r.value) else capacity
    ensures MovedByWrites(initial, ws + [w]) == MovedByWrites(initial, ws) + CostOf(CapacityAfterWrites(initial, ws), w)
  {
    var rs, r := RequestsOf(ws), RequestOf(w);
    assert (ws + [w])[..|ws|] == ws;
    assert RequestsOf(ws + [w]) == rs + if r.Some? then [r.value] else [];
    if r.Some? {
      FinalCapacityAppends(initial, rs, r.value);
    } else {
      assert rs + [] == rs;
    }
  }

  /** Over any run of writes the storage moves, in all its reallocations together, at most as many
      bytes as it ends up holding, and it ends up with less than twice what was needed. */
  lemma WritesAreAmortised(initial: Size, ws: seq<Write>)
    requires IsCapacity(initial)
    ensures var final := CapacityAfterWrites(initial, ws);
            && MovedByWrites(initial, ws) <= final
            && (final == initial || final < 2 * LargestNeed(RequestsOf(ws)))
  {
    MovedIsAtMostFinalCapacity(initial, RequestsOf(ws));
    CapacityIsBoundedByNeed(initial, RequestsOf(ws));
  }

  /** The `k`-th write stores all of its source or nothing, as the capacity by then decides. */
  ghost function CountAt(initial: Size, ws: seq<Write>, k: nat): nat
    requires k < |ws|
  {
    WrittenBy(CapacityAfterWrites(initial, ws[..k]), ws[k])
  }

  method SetOne(storage: ByteBufferStorage, w: Write) returns (count: Size)
    requires storage.Valid() && IsWrite(w)
    modifies storage`bytes, storage`capacity, storage`moved
    ensures storage.Valid()
    ensures storage.moved == old(storage.moved) + CostOf(old(storage.capacity), w)
    ensures count == WrittenBy(old(storage.capacity), w)
    ensures var r := RequestOf(w);
            storage.capacity == if r.Some? then CapacityAfter(old(storage.capacity), r.value) else old(storage.capacity)
  {
    ghost var memory := storage.bytes;
    var answer;
    count, answer := storage.SetBytes(Some(w.source), |w.source|, w.atIndex, w.granted);
    WriteOutcome(memory, w, answer);
  }

  /** A run of writes: the capacity it ends in, the counts, and the bytes that its reallocations have been
      handed, which are no more than the storage ends up holding. */
  method SetBytesAll(storage: ByteBufferStorage, ws: seq<Write>) returns (written: seq<Size>)
    requires storage.Valid() && forall w | w in ws :: IsWrite(w)
    modifies storage`bytes, storage`capacity, storage`moved
    ensures storage.Valid() && storage.capacity == CapacityAfterWrites(old(storage.capacity), ws)
    ensures storage.moved == old(storage.moved) + MovedByWrites(old(storage.capacity), ws)
    ensures storage.moved - old(storage.moved) <= storage.capacity
    ensures |written| == |ws| && forall k | 0 <= k < |ws| :: written[k] == CountAt(old(storage.capacity), ws, k)
  {
    written := [];
    ghost var initial := storage.capacity;
    for k := 0 to |ws|
      invariant storage.Valid() && storage.capacity == CapacityAfterWrites(initial, ws[..k])
      invariant storage.moved == old(storage.moved) + MovedByWrites(initial, ws[..k])
      invariant |written| == k && forall i | 0 <= i < k :: written[i] == CountAt(initial, ws, i)
    {
      var count := SetOne(storage, ws[k]);
      OneMoreWrite(initial, ws[..k], ws[k]);
      assert ws[..k + 1] == ws[..k] + [ws[k]];
      written := written + [count];
    }
    assert ws[..|ws|] == ws;
    WritesAreAmortised(initial, ws);
  }
}
