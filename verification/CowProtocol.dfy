/** `CopyOnWriteBacked` as a concurrent protocol: threads own distinct instances, and share blocks only
    through the reference counts. Every atomic operation on a count, every dereference of a block and
    every deletion is a step of its own. */
module CowProtocol {
  import opened Options

  type Thread = nat

  type Handle = nat

  type BlockId = nat

  const COUNT_RANGE: nat := 0x1_0000_0000

  /** A block on the heap; `element` is None once the element has been deleted. */
  datatype Block<V> = Block(count: nat, element: Option<V>, alive: bool)

  /** An instance: the thread that may use it, and its `block` pointer. */
  datatype Instance = Instance(owner: Thread, block: Option<BlockId>)

  /** What an operation does once the old block of `dst` has been let go. */
  datatype Next =
    | Nothing
    | Install(dst: Handle, b: BlockId, unique: bool)  // the pointer to `b` is a local variable
    | Take(dst: Handle, src: Handle)

  /** Where a thread is in the middle of an operation. */
  datatype Pc =
    | Splitting(h: Handle)                              // unique: the count was above one
    | Overwriting(dst: Handle, b: BlockId, unique: bool) // holds `b`; `dst` still refers to its old block
    | Deleting(b: BlockId, elementGone: bool, next: Next)
    | Continue(next: Next)
    | Reading(h: Handle)
    | Writing(h: Handle)

  /** Where a counted reference is kept: in an instance, or in a local variable of a thread. */
  datatype Slot = InHandle(h: Handle) | InFlight(t: Thread)

  /** `refs` is a history variable: the counted references and the blocks they refer to. */
  datatype State<V> = State(
    blocks: map<BlockId, Block<V>>,
    handles: map<Handle, Instance>,
    threads: map<Thread, Pc>,
    refs: map<Slot, BlockId>,
    faulted: bool)

  datatype Action<V> =
    | Make(t: Thread, h: Handle, value: V, b: BlockId)
    | CopyConstruct(t: Thread, dst: Handle, src: Handle)
    | MoveConstruct(t: Thread, dst: Handle, src: Handle)
    | CopyAssign(t: Thread, dst: Handle, src: Handle)
    | MoveAssign(t: Thread, dst: Handle, src: Handle)
    | Destroy(t: Thread, h: Handle)
    | Give(t: Thread, h: Handle, to: Thread)
    | Unique(t: Thread, h: Handle)
    | Read(t: Thread, h: Handle)
    | Write(t: Thread, value: V)  // through the pointer that unique returned
    | Finish(t: Thread)           // the pointer is not used any more
    | Go(t: Thread, unused: BlockId)  // the next step of the operation in progress

  function Initial<V>(): State<V> {
    State(map[], map[], map[], map[], false)
  }

  // ---------- steps ----------

  predicate Owns<V>(s: State<V>, t: Thread, h: Handle) {
    h in s.handles && s.handles[h].owner == t
  }

  predicate OwnsBlock<V>(s: State<V>, t: Thread, h: Handle) {
    Owns(s, t, h) && s.handles[h].block.Some?
  }

  /** A thread uses its own instances, one operation at a time, and does not copy, read or write
      through an instance that has been moved from. Allocation returns an unused block. */
  predicate Enabled<V>(s: State<V>, a: Action<V>) {
    match a
    case Make(t, h, _, b) => t !in s.threads && h !in s.handles && b !in s.blocks
    case CopyConstruct(t, dst, src) => t !in s.threads && dst !in s.handles && OwnsBlock(s, t, src)
    case MoveConstruct(t, dst, src) => t !in s.threads && dst !in s.handles && Owns(s, t, src)
    case CopyAssign(t, dst, src) => t !in s.threads && Owns(s, t, dst) && OwnsBlock(s, t, src)
    case MoveAssign(t, dst, src) => t !in s.threads && Owns(s, t, dst) && Owns(s, t, src)
    case Destroy(t, h) => t !in s.threads && Owns(s, t, h)
    case Give(t, h, _) => t !in s.threads && Owns(s, t, h)
    case Unique(t, h) => t !in s.threads && OwnsBlock(s, t, h)
    case Read(t, h) => t !in s.threads && OwnsBlock(s, t, h)
    case Write(t, _) => t in s.threads && s.threads[t].Writing?
    case Finish(t) => t in s.threads && (s.threads[t].Writing? || s.threads[t].Reading?)
    case Go(t, b) => t in s.threads && !s.threads[t].Writing? && !s.threads[t].Reading? && b !in s.blocks
  }

  /** The block may be dereferenced. */
  predicate IsAlive<V>(s: State<V>, b: BlockId) {
    b in s.blocks && s.blocks[b].alive
  }

  predicate HasElement<V>(s: State<V>, b: BlockId) {
    IsAlive(s, b) && s.blocks[b].element.Some?
  }

  function Fault<V>(s: State<V>): State<V> {
    s.(faulted := true)
  }

  /** `retain` on behalf of a thread: the new reference is in flight. */
  function Retain<V>(s: State<V>, t: Thread, b: BlockId, pc: Pc): State<V> {
    if !IsAlive(s, b) then Fault(s)
    else s.(blocks := s.blocks[b := s.blocks[b].(count := (s.blocks[b].count + 1) % COUNT_RANGE)],
            threads := s.threads[t := pc],
            refs := s.refs[InFlight(t) := b])
  }

  /** The `fetch_sub` of `release`; whoever sees a count of one goes on to delete. */
  function Release<V>(s: State<V>, t: Thread, h: Handle, b: BlockId, next: Next): State<V> {
    if !IsAlive(s, b) then Fault(s)
    else
      var previous := s.blocks[b].count;
      s.(blocks := s.blocks[b := s.blocks[b].(count := if previous == 0 then COUNT_RANGE - 1 else previous - 1)],
         threads := s.threads[t := if previous == 1 then Deleting(b, false, next) else Continue(next)],
         refs := s.refs - {InHandle(h)})
  }

  function BlockOf<V>(s: State<V>, h: Handle): Option<BlockId> {
    if h in s.handles then s.handles[h].block else None
  }

  /** `this->block = other.block; other.block = nullptr`. */
  function TakeOver<V>(s: State<V>, t: Thread, dst: Handle, src: Handle): State<V> {
    var b := BlockOf(s, src);
    s.(handles := s.handles[dst := Instance(t, b)][src := Instance(t, None)],
       refs := if b.Some? then s.refs[InHandle(dst) := b.value] - {InHandle(src)} else s.refs,
       threads := s.threads - {t})
  }

  function Advance<V>(s: State<V>, t: Thread, pc: Pc, unused: BlockId): State<V>
    requires !pc.Reading? && !pc.Writing?
  {
    match pc
    case Splitting(h) =>
      var b := BlockOf(s, h);
      if b.None? || !HasElement(s, b.value) then Fault(s)
      else s.(blocks := s.blocks[unused := Block(1, s.blocks[b.value].element, true)],
              threads := s.threads[t := Overwriting(h, unused, true)],
              refs := s.refs[InFlight(t) := unused])
    case Overwriting(dst, b, unique) =>
      var current := BlockOf(s, dst);
      if current.None? then s.(threads := s.threads[t := Continue(Install(dst, b, unique))])
      else Release(s, t, dst, current.value, Install(dst, b, unique))
    case Deleting(b, elementGone, next) =>
      if !elementGone then
        if !HasElement(s, b) then Fault(s)
        else s.(blocks := s.blocks[b := s.blocks[b].(element := None)],
                threads := s.threads[t := Deleting(b, true, next)])
      else
        if !IsAlive(s, b) then Fault(s)
        else s.(blocks := s.blocks[b := s.blocks[b].(alive := false)],
                threads := s.threads[t := Continue(next)])
    case Continue(Nothing) => s.(threads := s.threads - {t})
    case Continue(Install(dst, b, unique)) =>
      s.(handles := s.handles[dst := Instance(t, Some(b))],
         refs := s.refs[InHandle(dst) := b] - {InFlight(t)},
         threads := if unique then s.threads[t := Writing(dst)] else s.threads - {t})
    case Continue(Take(dst, src)) => TakeOver(s, t, dst, src)
  }

  function Step<V>(s: State<V>, a: Action<V>): State<V>
    requires Enabled(s, a)
  {
    match a
    case Make(t, h, value, b) =>
      s.(blocks := s.blocks[b := Block(1, Some(value), true)],
         handles := s.handles[h := Instance(t, Some(b))],
         refs := s.refs[InHandle(h) := b])
    case CopyConstruct(t, dst, src) =>
      var b := s.handles[src].block.value;
      Retain(s, t, b, Continue(Install(dst, b, false))).(handles := s.handles[dst := Instance(t, None)])
    case MoveConstruct(t, dst, src) =>
      TakeOver(s.(handles := s.handles[dst := Instance(t, None)]), t, dst, src)
    case CopyAssign(t, dst, src) =>
      var b := s.handles[src].block.value;
      if s.handles[dst].block == Some(b) then s else Retain(s, t, b, Overwriting(dst, b, false))
    case MoveAssign(t, dst, src) =>
      if dst == src then s
      else if s.handles[dst].block.None? then s.(threads := s.threads[t := Continue(Take(dst, src))])
      else Release(s, t, dst, s.handles[dst].block.value, Take(dst, src))
    case Destroy(t, h) =>
      if s.handles[h].block.None? then s.(handles := s.handles - {h})
      else Release(s, t, h, s.handles[h].block.value, Nothing).(handles := s.handles - {h})
    case Give(t, h, to) => s.(handles := s.handles[h := s.handles[h].(owner := to)])
    case Unique(t, h) =>
      var b := s.handles[h].block.value;
      if !IsAlive(s, b) then Fault(s)
      else s.(threads := s.threads[t := if s.blocks[b].count > 1 then Splitting(h) else Writing(h)])
    case Read(t, h) =>
      if HasElement(s, s.handles[h].block.value) then s.(threads := s.threads[t := Reading(h)]) else Fault(s)
    case Write(t, value) =>
      var b := BlockOf(s, s.threads[t].h);
      if b.None? || !HasElement(s, b.value) then Fault(s)
      else s.(blocks := s.blocks[b.value := s.blocks[b.value].(element := Some(value))])
    case Finish(t) => s.(threads := s.threads - {t})
    case Go(t, unused) => Advance(s, t, s.threads[t], unused)
  }

  // ---------- counting ----------

  ghost function Holders(refs: map<Slot, BlockId>, b: BlockId): set<Slot> {
    set x | x in refs && refs[x] == b
  }

  ghost function Count(refs: map<Slot, BlockId>, b: BlockId): nat {
    |Holders(refs, b)|
  }

  lemma CountAdd(refs: map<Slot, BlockId>, x: Slot, b: BlockId, k: BlockId)
    requires x !in refs
    ensures Count(refs[x := b], k) == Count(refs, k) + if k == b then 1 else 0
  {
    assert Holders(refs[x := b], k) == Holders(refs, k) + if k == b then {x} else {};
  }

  lemma CountDrop(refs: map<Slot, BlockId>, x: Slot, k: BlockId)
    requires x in refs
    ensures Count(refs - {x}, k) == Count(refs, k) - if refs[x] == k then 1 else 0
  {
    assert Holders(refs - {x}, k) == Holders(refs, k) - {x};
  }

  lemma CountMove(refs: map<Slot, BlockId>, x: Slot, y: Slot, k: BlockId)
    requires x in refs && y !in refs
    ensures Count(refs[y := refs[x]] - {x}, k) == Count(refs, k)
  {
    CountAdd(refs, y, refs[x], k);
    CountDrop(refs[y := refs[x]], x, k);
  }

  lemma {:induction false} SubsetSize<T>(a: set<T>, b: set<T>)
    requires a <= b
    ensures |a| <= |b|
  {
    assert b == a + (b - a);
  }

  lemma SoleHolder(refs: map<Slot, BlockId>, x: Slot, y: Slot)
    requires x in refs && y in refs && refs[x] == refs[y] && Count(refs, refs[x]) <= 1
    ensures x == y
  {
    if x != y {
      SubsetSize({x, y}, Holders(refs, refs[x]));
    }
  }

  lemma HolderCounts(refs: map<Slot, BlockId>, x: Slot)
    requires x in refs
    ensures Count(refs, refs[x]) >= 1
  {
    SubsetSize({x}, Holders(refs, refs[x]));
  }

  // ---------- the invariant ----------

  /** What the thread does once a block has been let go. */
  function Pending(threads: map<Thread, Pc>, t: Thread): Next {
    if t in threads && threads[t].Deleting? then threads[t].next
    else if t in threads && threads[t].Continue? then threads[t].next
    else Nothing
  }

  /** The pointer of `h` is stale: its owner has released it and is about to overwrite it. */
  predicate IsStale(threads: map<Thread, Pc>, t: Thread, h: Handle) {
    var next := Pending(threads, t);
    (next.Install? || next.Take?) && next.dst == h
  }

  /** The reference a thread holds in a local variable. */
  function FlightOf(pc: Pc): Option<BlockId> {
    match pc
    case Overwriting(_, b, _) => Some(b)
    case Deleting(_, _, Install(_, b, _)) => Some(b)
    case Continue(Install(_, b, _)) => Some(b)
    case _ => None
  }

  /** Exactly the live pointers are counted references. */
  ghost predicate LinkOk(handles: map<Handle, Instance>, threads: map<Thread, Pc>, refs: map<Slot, BlockId>, h: Handle)
    requires h in handles
  {
    if handles[h].block.Some? && !IsStale(threads, handles[h].owner, h)
    then InHandle(h) in refs && refs[InHandle(h)] == handles[h].block.value
    else InHandle(h) !in refs
  }

  ghost predicate FlightOk(threads: map<Thread, Pc>, refs: map<Slot, BlockId>, t: Thread) {
    if t in threads && FlightOf(threads[t]).Some?
    then InFlight(t) in refs && refs[InFlight(t)] == FlightOf(threads[t]).value
    else InFlight(t) !in refs
  }

  ghost predicate NextOk(handles: map<Handle, Instance>, t: Thread, next: Next) {
    match next
    case Nothing => true
    case Install(dst, _, _) => dst in handles && handles[dst].owner == t
    case Take(dst, src) =>
      && dst in handles && handles[dst].owner == t
      && src in handles && handles[src].owner == t && src != dst
  }

  /** Threads are in the middle of operations on their own instances. */
  ghost predicate PcOk(handles: map<Handle, Instance>, t: Thread, pc: Pc) {
    match pc
    case Splitting(h) => h in handles && handles[h].owner == t && handles[h].block.Some?
    case Reading(h) => h in handles && handles[h].owner == t && handles[h].block.Some?
    case Writing(h) => h in handles && handles[h].owner == t && handles[h].block.Some?
    case Overwriting(dst, _, _) => dst in handles && handles[dst].owner == t
    case Deleting(_, _, next) => NextOk(handles, t, next)
    case Continue(next) => NextOk(handles, t, next)
  }

  /** The references are the live pointers and the local variables, each to the block it names. */
  ghost predicate Linked(handles: map<Handle, Instance>, threads: map<Thread, Pc>, refs: map<Slot, BlockId>) {
    && (forall h | h in handles :: LinkOk(handles, threads, refs, h))
    && (forall h | InHandle(h) in refs :: h in handles)
    && (forall t :: FlightOk(threads, refs, t))
    && (forall t | t in threads :: PcOk(handles, t, threads[t]))
  }

  /** The count of a block is the number of references to it, and a block in use is whole. */
  ghost predicate Counted<V(!new)>(blocks: map<BlockId, Block<V>>, refs: map<Slot, BlockId>) {
    && (forall b | b in blocks :: blocks[b].count == Count(refs, b))
    && (forall b | b in blocks && blocks[b].count > 0 :: blocks[b].alive && blocks[b].element.Some?)
    && (forall x | x in refs :: refs[x] in blocks)
  }

  predicate Deletes(threads: map<Thread, Pc>, t: Thread, b: BlockId) {
    t in threads && threads[t].Deleting? && threads[t].b == b
  }

  /** A block whose count has dropped to zero is being deleted by one thread, or has been. */
  ghost predicate Deleted<V(!new)>(blocks: map<BlockId, Block<V>>, threads: map<Thread, Pc>) {
    && (forall t | t in threads && threads[t].Deleting? ::
          var b := threads[t].b;
          b in blocks && blocks[b].alive && blocks[b].count == 0
          && (threads[t].elementGone <==> blocks[b].element.None?))
    && (forall t, u, b | Deletes(threads, t, b) && Deletes(threads, u, b) :: t == u)
    && (forall b | b in blocks && blocks[b].count == 0 && blocks[b].alive :: exists t :: Deletes(threads, t, b))
    && (forall b | b in blocks && !blocks[b].alive :: blocks[b].element.None?)
  }

  /** The reference that must be the only one to its block: the one behind a mutable pointer, or the
      one to a private copy that is yet to be installed. */
  function SoleSlot(t: Thread, pc: Pc): Option<Slot> {
    match pc
    case Writing(h) => Some(InHandle(h))
    case Overwriting(_, _, true) => Some(InFlight(t))
    case Deleting(_, _, Install(_, _, true)) => Some(InFlight(t))
    case Continue(Install(_, _, true)) => Some(InFlight(t))
    case _ => None
  }

  ghost predicate SoleOk(refs: map<Slot, BlockId>, t: Thread, pc: Pc) {
    var x := SoleSlot(t, pc);
    x.Some? ==> x.value in refs && Count(refs, refs[x.value]) == 1
  }

  ghost predicate Exclusive(threads: map<Thread, Pc>, refs: map<Slot, BlockId>) {
    forall t | t in threads :: SoleOk(refs, t, threads[t])
  }

  ghost predicate Inv<V(!new)>(s: State<V>) {
    && !s.faulted
    && Linked(s.handles, s.threads, s.refs)
    && Counted(s.blocks, s.refs)
    && Deleted(s.blocks, s.threads)
    && Exclusive(s.threads, s.refs)
  }

  /** No block has more references than its counter can tell apart. */
  ghost predicate InRange<V>(s: State<V>) {
    forall b :: Count(s.refs, b) < 0x1_0000_0000
  }

  // ---------- what each primitive does to the counts ----------

  lemma CountedRetain<V(!new)>(blocks: map<BlockId, Block<V>>, refs: map<Slot, BlockId>, x: Slot, b: BlockId)
    requires Counted(blocks, refs) && x !in refs && b in blocks && blocks[b].count > 0
    requires Count(refs[x := b], b) < COUNT_RANGE
    ensures (blocks[b].count + 1) % COUNT_RANGE == blocks[b].count + 1
    ensures Counted(blocks[b := blocks[b].(count := (blocks[b].count + 1) % COUNT_RANGE)], refs[x := b])
  {
    forall k | k in blocks
      ensures Count(refs[x := b], k) == Count(refs, k) + if k == b then 1 else 0
    {
      CountAdd(refs, x, b, k);
    }
  }

  lemma CountedRelease<V(!new)>(blocks: map<BlockId, Block<V>>, refs: map<Slot, BlockId>, x: Slot)
    requires Counted(blocks, refs) && x in refs
    ensures blocks[refs[x]].count > 0
    ensures Counted(blocks[refs[x] := blocks[refs[x]].(count := blocks[refs[x]].count - 1)], refs - {x})
  {
    HolderCounts(refs, x);
    forall k | k in blocks
      ensures Count(refs - {x}, k) == Count(refs, k) - if refs[x] == k then 1 else 0
    {
      CountDrop(refs, x, k);
    }
  }

  lemma CountedMove<V(!new)>(blocks: map<BlockId, Block<V>>, refs: map<Slot, BlockId>, x: Slot, y: Slot)
    requires Counted(blocks, refs) && x in refs && y !in refs
    ensures Counted(blocks, refs[y := refs[x]] - {x})
  {
    forall k | k in blocks
      ensures Count(refs[y := refs[x]] - {x}, k) == Count(refs, k)
    {
      CountMove(refs, x, y, k);
    }
  }

  lemma CountedNew<V(!new)>(blocks: map<BlockId, Block<V>>, refs: map<Slot, BlockId>, x: Slot, b: BlockId,
                            element: Option<V>)
    requires Counted(blocks, refs) && x !in refs && b !in blocks && element.Some?
    ensures Counted(blocks[b := Block(1, element, true)], refs[x := b])
  {
    assert Holders(refs, b) == {};
    forall k | k in blocks || k == b
      ensures Count(refs[x := b], k) == Count(refs, k) + if k == b then 1 else 0
    {
      CountAdd(refs, x, b, k);
    }
  }

  /** A live pointer refers to a block in use. */
  lemma LinkedIsInUse<V(!new)>(s: State<V>, x: Slot)
    requires Inv(s) && x in s.refs
    ensures HasElement(s, s.refs[x]) && s.blocks[s.refs[x]].count > 0
  {
    HolderCounts(s.refs, x);
  }

  // ---------- what each primitive does to the links ----------

  function FlightAt(threads: map<Thread, Pc>, t: Thread): Option<BlockId> {
    if t in threads then FlightOf(threads[t]) else None
  }

  /** A thread that moves on within its own instances, with the same references. */
  lemma LinkedThread(handles: map<Handle, Instance>, threads: map<Thread, Pc>, refs: map<Slot, BlockId>,
                     t: Thread, pc: Pc, threads': map<Thread, Pc>)
    requires Linked(handles, threads, refs) && threads' == threads[t := pc] && PcOk(handles, t, pc)
    requires FlightOf(pc) == FlightAt(threads, t)
    requires Pending(threads', t) == Pending(threads, t)
          || (Pending(threads, t).Nothing? && !Pending(threads', t).Nothing?
              && handles[Pending(threads', t).dst].block.None?)
    ensures Linked(handles, threads', refs)
  {
    forall h | h in handles
      ensures LinkOk(handles, threads', refs, h)
    {
      assert LinkOk(handles, threads, refs, h);
    }
    forall u
      ensures FlightOk(threads', refs, u)
    {
      assert FlightOk(threads, refs, u);
    }
  }

  /** A thread whose operation is over. */
  lemma LinkedFinish(handles: map<Handle, Instance>, threads: map<Thread, Pc>, refs: map<Slot, BlockId>,
                     t: Thread, threads': map<Thread, Pc>)
    requires Linked(handles, threads, refs) && t in threads && threads' == threads - {t}
    requires FlightOf(threads[t]).None? && Pending(threads, t).Nothing?
    ensures Linked(handles, threads', refs)
  {
    forall h | h in handles
      ensures LinkOk(handles, threads', refs, h)
    {
      assert LinkOk(handles, threads, refs, h);
    }
    forall u
      ensures FlightOk(threads', refs, u)
    {
      assert FlightOk(threads, refs, u);
    }
  }

  /** A reference taken into a local variable. */
  lemma LinkedRetain(handles: map<Handle, Instance>, threads: map<Thread, Pc>, refs: map<Slot, BlockId>,
                     t: Thread, pc: Pc, b: BlockId, threads': map<Thread, Pc>, refs': map<Slot, BlockId>)
    requires Linked(handles, threads, refs) && threads' == threads[t := pc] && refs' == refs[InFlight(t) := b]
    requires FlightAt(threads, t).None? && FlightOf(pc) == Some(b) && PcOk(handles, t, pc)
    requires Pending(threads, t).Nothing?
    requires Pending(threads', t).Nothing? || handles[Pending(threads', t).dst].block.None?
    ensures InFlight(t) !in refs
    ensures Linked(handles, threads', refs')
  {
    assert FlightOk(threads, refs, t);
    forall h | h in handles
      ensures LinkOk(handles, threads', refs', h)
    {
      assert LinkOk(handles, threads, refs, h);
    }
    forall u
      ensures FlightOk(threads', refs', u)
    {
      assert FlightOk(threads, refs, u);
    }
  }

  /** The reference of `h` given up; its pointer is stale from here on. */
  lemma LinkedRelease(handles: map<Handle, Instance>, threads: map<Thread, Pc>, refs: map<Slot, BlockId>,
                      t: Thread, h: Handle, pc: Pc, threads': map<Thread, Pc>, refs': map<Slot, BlockId>)
    requires Linked(handles, threads, refs) && threads' == threads[t := pc] && refs' == refs - {InHandle(h)}
    requires h in handles && handles[h].owner == t && PcOk(handles, t, pc)
    requires FlightOf(pc) == FlightAt(threads, t)
    requires Pending(threads, t).Nothing? && !Pending(threads', t).Nothing? && Pending(threads', t).dst == h
    ensures Linked(handles, threads', refs')
  {
    forall k | k in handles
      ensures LinkOk(handles, threads', refs', k)
    {
      assert LinkOk(handles, threads, refs, k);
    }
    forall u
      ensures FlightOk(threads', refs', u)
    {
      assert FlightOk(threads, refs, u);
    }
  }

  /** An instance that appears, without a block or with the reference to a new one. */
  lemma LinkedCreate(handles: map<Handle, Instance>, threads: map<Thread, Pc>, refs: map<Slot, BlockId>,
                     t: Thread, h: Handle, b: Option<BlockId>,
                     handles': map<Handle, Instance>, refs': map<Slot, BlockId>)
    requires Linked(handles, threads, refs) && h !in handles && t !in threads
    requires handles' == handles[h := Instance(t, b)]
    requires refs' == if b.Some? then refs[InHandle(h) := b.value] else refs
    ensures InHandle(h) !in refs
    ensures Linked(handles', threads, refs')
  {
    forall k | k in handles'
      ensures LinkOk(handles', threads, refs', k)
    {
      if k != h {
        assert LinkOk(handles, threads, refs, k);
      }
    }
    forall u
      ensures FlightOk(threads, refs', u)
    {
      assert FlightOk(threads, refs, u);
    }
    forall u | u in threads
      ensures PcOk(handles', u, threads[u])
    {
      assert PcOk(handles, u, threads[u]);
    }
  }

  /** An instance that disappears with its reference, if it had one. */
  lemma LinkedDestroy(handles: map<Handle, Instance>, threads: map<Thread, Pc>, refs: map<Slot, BlockId>,
                      t: Thread, h: Handle, handles': map<Handle, Instance>, refs': map<Slot, BlockId>)
    requires Linked(handles, threads, refs) && h in handles && handles[h].owner == t && t !in threads
    requires handles' == handles - {h} && refs' == refs - {InHandle(h)}
    ensures Linked(handles', threads, refs')
  {
    forall k | k in handles'
      ensures LinkOk(handles', threads, refs', k)
    {
      assert LinkOk(handles, threads, refs, k);
    }
    forall u
      ensures FlightOk(threads, refs', u)
    {
      assert FlightOk(threads, refs, u);
    }
    forall u | u in threads
      ensures PcOk(handles', u, threads[u])
    {
      assert PcOk(handles, u, threads[u]);
    }
  }

  /** The reference in flight becomes the pointer of `dst`. */
  lemma LinkedInstall(handles: map<Handle, Instance>, threads: map<Thread, Pc>, refs: map<Slot, BlockId>,
                      t: Thread, handles': map<Handle, Instance>, threads': map<Thread, Pc>, refs': map<Slot, BlockId>)
    requires Linked(handles, threads, refs)
    requires t in threads && threads[t].Continue? && threads[t].next.Install?
    requires var Install(dst, b, unique) := threads[t].next;
             && handles' == handles[dst := Instance(t, Some(b))]
             && refs' == refs[InHandle(dst) := b] - {InFlight(t)}
             && threads' == if unique then threads[t := Writing(dst)] else threads - {t}
    ensures InFlight(t) in refs && refs[InFlight(t)] == threads[t].next.b && InHandle(threads[t].next.dst) !in refs
    ensures Linked(handles', threads', refs')
  {
    var dst := threads[t].next.dst;
    assert PcOk(handles, t, threads[t]) && FlightOk(threads, refs, t) && LinkOk(handles, threads, refs, dst);
    forall k | k in handles'
      ensures LinkOk(handles', threads', refs', k)
    {
      assert LinkOk(handles, threads, refs, k);
    }
    forall u
      ensures FlightOk(threads', refs', u)
    {
      assert FlightOk(threads, refs, u);
    }
    forall u | u in threads'
      ensures PcOk(handles', u, threads'[u])
    {
      assert PcOk(handles, u, threads[u]);
    }
  }

  /** What happens to other threads' instances does not concern a thread. */
  lemma PcOkElsewhere(handles: map<Handle, Instance>, handles': map<Handle, Instance>, u: Thread, pc: Pc)
    requires PcOk(handles, u, pc)
    requires forall h | h in handles && handles[h].owner == u :: h in handles' && handles'[h] == handles[h]
    ensures PcOk(handles', u, pc)
  {
  }

  lemma LinkOkElsewhere(handles: map<Handle, Instance>, threads: map<Thread, Pc>, refs: map<Slot, BlockId>,
                        handles': map<Handle, Instance>, threads': map<Thread, Pc>, refs': map<Slot, BlockId>,
                        h: Handle)
    requires h in handles && LinkOk(handles, threads, refs, h)
    requires h in handles' && handles'[h] == handles[h]
    requires IsStale(threads', handles[h].owner, h) <==> IsStale(threads, handles[h].owner, h)
    requires InHandle(h) in refs' <==> InHandle(h) in refs
    requires InHandle(h) in refs ==> refs'[InHandle(h)] == refs[InHandle(h)]
    ensures LinkOk(handles', threads', refs', h)
  {
  }

  /** The pointer and the reference of `src`, if it has one, become those of `dst`. */
  lemma LinkedTakeOver(handles: map<Handle, Instance>, threads: map<Thread, Pc>, refs: map<Slot, BlockId>,
                       t: Thread, dst: Handle, src: Handle,
                       handles': map<Handle, Instance>, threads': map<Thread, Pc>, refs': map<Slot, BlockId>)
    requires Linked(handles, threads, refs) && dst != src
    requires dst in handles && handles[dst].owner == t && src in handles && handles[src].owner == t
    requires if t in threads then threads[t] == Continue(Take(dst, src)) else handles[dst].block.None?
    requires handles' == handles[dst := Instance(t, handles[src].block)][src := Instance(t, None)]
    requires threads' == threads - {t}
    requires refs' == if handles[src].block.Some?
                      then refs[InHandle(dst) := handles[src].block.value] - {InHandle(src)} else refs
    ensures InHandle(dst) !in refs
    ensures handles[src].block.Some? ==> InHandle(src) in refs && refs[InHandle(src)] == handles[src].block.value
    ensures Linked(handles', threads', refs')
  {
    assert LinkOk(handles, threads, refs, dst) && LinkOk(handles, threads, refs, src);
    assert LinkOk(handles', threads', refs', dst) && LinkOk(handles', threads', refs', src);
    forall k | k in handles'
      ensures LinkOk(handles', threads', refs', k)
    {
      if k != dst && k != src {
        LinkOkElsewhere(handles, threads, refs, handles', threads', refs', k);
      }
    }
    forall u
      ensures FlightOk(threads', refs', u)
    {
      assert FlightOk(threads, refs, u);
    }
    forall u | u in threads'
      ensures PcOk(handles', u, threads'[u])
    {
      PcOkElsewhere(handles, handles', u, threads[u]);
    }
  }

  /** An idle thread hands an instance to another thread. */
  lemma LinkedGive(handles: map<Handle, Instance>, threads: map<Thread, Pc>, refs: map<Slot, BlockId>,
                   t: Thread, h: Handle, to: Thread, handles': map<Handle, Instance>)
    requires Linked(handles, threads, refs) && t !in threads && h in handles && handles[h].owner == t
    requires handles' == handles[h := handles[h].(owner := to)]
    ensures Linked(handles', threads, refs)
  {
  }

  // ---------- what each primitive does to deletions ----------

  ghost predicate SameLife<V>(x: Block<V>, y: Block<V>) {
    x.alive == y.alive && x.element.Some? == y.element.Some? && (x.count == 0) == (y.count == 0)
  }

  /** Blocks that do not start or stop being deleted. */
  lemma DeletedSame<V(!new)>(blocks: map<BlockId, Block<V>>, threads: map<Thread, Pc>,
                             blocks': map<BlockId, Block<V>>, threads': map<Thread, Pc>)
    requires Deleted(blocks, threads)
    requires forall t, b :: Deletes(threads', t, b) <==> Deletes(threads, t, b)
    requires forall t, b | Deletes(threads, t, b) && Deletes(threads', t, b) ::
               threads'[t].elementGone == threads[t].elementGone
    requires forall b | b in blocks :: b in blocks' && SameLife(blocks[b], blocks'[b])
    requires forall b | b in blocks' && b !in blocks :: blocks'[b].count > 0 && blocks'[b].alive
    ensures Deleted(blocks', threads')
  {
    forall t | t in threads' && threads'[t].Deleting?
      ensures Deletes(threads, t, threads'[t].b)
    {
      assert Deletes(threads', t, threads'[t].b);
    }
  }

  /** The last reference to a block makes its thread the one that deletes it. */
  lemma DeletedRelease<V(!new)>(blocks: map<BlockId, Block<V>>, threads: map<Thread, Pc>, b: BlockId,
                                t: Thread, next: Next,
                                blocks': map<BlockId, Block<V>>, threads': map<Thread, Pc>)
    requires Deleted(blocks, threads) && (t in threads ==> !threads[t].Deleting?)
    requires b in blocks && blocks[b].count > 0 && blocks[b].alive && blocks[b].element.Some?
    requires blocks' == blocks[b := blocks[b].(count := blocks[b].count - 1)]
    requires threads' == threads[t := if blocks[b].count == 1 then Deleting(b, false, next) else Continue(next)]
    ensures Deleted(blocks', threads')
  {
    forall u, k | Deletes(threads', u, k)
      ensures if u == t then k == b else Deletes(threads, u, k) && k != b
    {
      assert u != t ==> Deletes(threads, u, k);
    }
    forall u | u in threads' && threads'[u].Deleting?
      ensures Deletes(threads', u, threads'[u].b)
    {
    }
    forall k | k in blocks' && blocks'[k].count == 0 && blocks'[k].alive
      ensures exists u :: Deletes(threads', u, k)
    {
      if k == b {
        assert Deletes(threads', t, b);
      } else {
        var u :| Deletes(threads, u, k);
        assert Deletes(threads', u, k);
      }
    }
  }

  lemma DeletedElement<V(!new)>(blocks: map<BlockId, Block<V>>, threads: map<Thread, Pc>, t: Thread,
                                blocks': map<BlockId, Block<V>>, threads': map<Thread, Pc>)
    requires Deleted(blocks, threads) && t in threads && threads[t].Deleting? && threads[t].b in blocks
    requires blocks' == blocks[threads[t].b := blocks[threads[t].b].(element := None)]
    requires threads' == threads[t := threads[t].(elementGone := true)]
    ensures Deleted(blocks', threads')
  {
    assert Deletes(threads, t, threads[t].b);
    forall u, k
      ensures Deletes(threads', u, k) <==> Deletes(threads, u, k)
    {
    }
    forall u | u in threads' && threads'[u].Deleting?
      ensures Deletes(threads, u, threads'[u].b)
    {
    }
    forall k | k in blocks' && blocks'[k].count == 0 && blocks'[k].alive
      ensures exists u :: Deletes(threads', u, k)
    {
      var u :| Deletes(threads, u, k);
      assert Deletes(threads', u, k);
    }
  }

  lemma DeletedBlock<V(!new)>(blocks: map<BlockId, Block<V>>, threads: map<Thread, Pc>, t: Thread,
                              blocks': map<BlockId, Block<V>>, threads': map<Thread, Pc>)
    requires Deleted(blocks, threads) && t in threads && threads[t].Deleting? && threads[t].elementGone
    requires threads[t].b in blocks
    requires blocks' == blocks[threads[t].b := blocks[threads[t].b].(alive := false)]
    requires threads' == threads[t := Continue(threads[t].next)]
    ensures Deleted(blocks', threads')
  {
    var b := threads[t].b;
    assert Deletes(threads, t, b);
    forall u, k | Deletes(threads', u, k)
      ensures Deletes(threads, u, k) && k != b
    {
      assert u != t && Deletes(threads, u, k);
    }
    forall u | u in threads' && threads'[u].Deleting?
      ensures Deletes(threads', u, threads'[u].b)
    {
    }
    forall k | k in blocks' && blocks'[k].count == 0 && blocks'[k].alive
      ensures exists u :: Deletes(threads', u, k)
    {
      var u :| Deletes(threads, u, k);
      assert Deletes(threads', u, k);
    }
  }

  // ---------- what each primitive does to exclusive references ----------

  ghost predicate NotSole(threads: map<Thread, Pc>, x: Slot) {
    forall u | u in threads :: SoleSlot(u, threads[u]) != Some(x)
  }

  /** A block with a reference that is nobody's sole one is nobody's own. */
  lemma NobodysOwn(threads: map<Thread, Pc>, refs: map<Slot, BlockId>, y: Slot, u: Thread)
    requires Exclusive(threads, refs) && y in refs && NotSole(threads, y)
    requires u in threads && SoleSlot(u, threads[u]).Some?
    ensures refs[SoleSlot(u, threads[u]).value] != refs[y]
  {
    assert SoleOk(refs, u, threads[u]);
    if refs[SoleSlot(u, threads[u]).value] == refs[y] {
      SoleHolder(refs, SoleSlot(u, threads[u]).value, y);
    }
  }

  lemma ExclusiveThread(threads: map<Thread, Pc>, refs: map<Slot, BlockId>, t: Thread, pc: Pc,
                        threads': map<Thread, Pc>)
    requires Exclusive(threads, refs) && threads' == threads[t := pc] && SoleOk(refs, t, pc)
    ensures Exclusive(threads', refs)
  {
  }

  /** One more reference to a block that is nobody's own, or a first one to a new block. */
  lemma ExclusiveAdd(threads: map<Thread, Pc>, refs: map<Slot, BlockId>, x: Slot, b: BlockId, refs': map<Slot, BlockId>)
    requires Exclusive(threads, refs) && x !in refs && refs' == refs[x := b]
    requires Count(refs, b) == 0 || exists y :: y in refs && refs[y] == b && NotSole(threads, y)
    ensures Exclusive(threads, refs')
    ensures Count(refs, b) == 0 ==> Count(refs', b) == 1
  {
    CountAdd(refs, x, b, b);
    forall u | u in threads
      ensures SoleOk(refs', u, threads[u])
    {
      assert SoleOk(refs, u, threads[u]);
      var own := SoleSlot(u, threads[u]);
      if own.Some? {
        CountAdd(refs, x, b, refs[own.value]);
        if y :| y in refs && refs[y] == b && NotSole(threads, y) {
          NobodysOwn(threads, refs, y, u);
        }
      }
    }
  }

  lemma ExclusiveDrop(threads: map<Thread, Pc>, refs: map<Slot, BlockId>, x: Slot, refs': map<Slot, BlockId>)
    requires Exclusive(threads, refs) && x in refs && NotSole(threads, x) && refs' == refs - {x}
    ensures Exclusive(threads, refs')
  {
    forall u | u in threads
      ensures SoleOk(refs', u, threads[u])
    {
      assert SoleOk(refs, u, threads[u]);
      if SoleSlot(u, threads[u]).Some? {
        NobodysOwn(threads, refs, x, u);
        CountDrop(refs, x, refs[SoleSlot(u, threads[u]).value]);
      }
    }
  }

  /** A reference moves from one slot to another. */
  lemma ExclusiveMove(threads: map<Thread, Pc>, refs: map<Slot, BlockId>, x: Slot, y: Slot, refs': map<Slot, BlockId>)
    requires Exclusive(threads, refs) && x in refs && y !in refs && NotSole(threads, x)
    requires refs' == refs[y := refs[x]] - {x}
    ensures Exclusive(threads, refs')
  {
    forall u | u in threads
      ensures SoleOk(refs', u, threads[u])
    {
      assert SoleOk(refs, u, threads[u]);
      if SoleSlot(u, threads[u]).Some? {
        CountMove(refs, x, y, refs[SoleSlot(u, threads[u]).value]);
      }
    }
  }

  lemma ExclusiveFinish(threads: map<Thread, Pc>, refs: map<Slot, BlockId>, t: Thread, threads': map<Thread, Pc>)
    requires Exclusive(threads, refs) && threads' == threads - {t}
    ensures Exclusive(threads', refs)
  {
  }

  lemma ExclusiveRelease(threads: map<Thread, Pc>, refs: map<Slot, BlockId>, x: Slot, t: Thread, pc: Pc,
                         threads': map<Thread, Pc>, refs': map<Slot, BlockId>)
    requires Exclusive(threads, refs) && x in refs && NotSole(threads, x)
    requires refs' == refs - {x} && threads' == threads[t := pc]
    requires SoleSlot(t, pc) == if t in threads then SoleSlot(t, threads[t]) else None
    ensures Exclusive(threads', refs')
  {
    ExclusiveDrop(threads, refs, x, refs');
    assert t in threads ==> SoleOk(refs', t, threads[t]);
    ExclusiveThread(threads, refs', t, pc, threads');
  }

  lemma ExclusiveInstall(threads: map<Thread, Pc>, refs: map<Slot, BlockId>, t: Thread,
                         threads': map<Thread, Pc>, refs': map<Slot, BlockId>)
    requires Exclusive(threads, refs)
    requires t in threads && threads[t].Continue? && threads[t].next.Install?
    requires var Install(dst, b, unique) := threads[t].next;
             && InFlight(t) in refs && refs[InFlight(t)] == b && InHandle(dst) !in refs
             && refs' == refs[InHandle(dst) := b] - {InFlight(t)}
             && threads' == if unique then threads[t := Writing(dst)] else threads - {t}
    ensures Exclusive(threads', refs')
  {
    var Install(dst, b, unique) := threads[t].next;
    var rest := threads - {t};
    ExclusiveFinish(threads, refs, t, rest);
    ExclusiveMove(rest, refs, InFlight(t), InHandle(dst), refs');
    if unique {
      assert SoleOk(refs, t, threads[t]);
      CountMove(refs, InFlight(t), InHandle(dst), b);
      assert rest[t := Writing(dst)] == threads';
      ExclusiveThread(rest, refs', t, Writing(dst), threads');
    }
  }

  /** The pointers of a thread's own instances are nobody's sole references but its own. */
  lemma OwnIsNotSole(handles: map<Handle, Instance>, threads: map<Thread, Pc>, refs: map<Slot, BlockId>,
                     t: Thread, h: Handle)
    requires Linked(handles, threads, refs) && h in handles && handles[h].owner == t
    requires t in threads ==> threads[t] != Writing(h)
    ensures NotSole(threads, InHandle(h))
  {
  }

  lemma BlocksRetain<V(!new)>(blocks: map<BlockId, Block<V>>, threads: map<Thread, Pc>, refs: map<Slot, BlockId>,
                              x: Slot, b: BlockId, t: Thread, pc: Pc,
                              blocks': map<BlockId, Block<V>>, threads': map<Thread, Pc>, refs': map<Slot, BlockId>)
    requires Counted(blocks, refs) && Deleted(blocks, threads)
    requires x !in refs && b in blocks && blocks[b].count > 0 && Count(refs', b) < COUNT_RANGE
    requires t !in threads && !pc.Deleting?
    requires blocks' == blocks[b := blocks[b].(count := (blocks[b].count + 1) % COUNT_RANGE)]
    requires threads' == threads[t := pc] && refs' == refs[x := b]
    ensures Counted(blocks', refs') && Deleted(blocks', threads')
  {
    CountedRetain(blocks, refs, x, b);
    assert SameLife(blocks[b], blocks'[b]);
    DeletedSame(blocks, threads, blocks', threads');
  }

  lemma ExclusiveRetain(threads: map<Thread, Pc>, refs: map<Slot, BlockId>, y: Slot, t: Thread, pc: Pc,
                        threads': map<Thread, Pc>, refs': map<Slot, BlockId>)
    requires Exclusive(threads, refs) && InFlight(t) !in refs && y in refs && NotSole(threads, y)
    requires SoleSlot(t, pc).None? && threads' == threads[t := pc] && refs' == refs[InFlight(t) := refs[y]]
    ensures Exclusive(threads', refs')
  {
    ExclusiveAdd(threads, refs, InFlight(t), refs[y], refs');
    ExclusiveThread(threads, refs', t, pc, threads');
  }

  lemma BlocksRelease<V(!new)>(blocks: map<BlockId, Block<V>>, threads: map<Thread, Pc>, refs: map<Slot, BlockId>,
                               x: Slot, t: Thread, next: Next,
                               blocks': map<BlockId, Block<V>>, threads': map<Thread, Pc>, refs': map<Slot, BlockId>)
    requires Counted(blocks, refs) && Deleted(blocks, threads) && x in refs && refs[x] in blocks
    requires t in threads ==> !threads[t].Deleting?
    requires blocks[refs[x]].count > 0
    requires blocks' == blocks[refs[x] := blocks[refs[x]].(count := blocks[refs[x]].count - 1)]
    requires threads' == threads[t := if blocks[refs[x]].count == 1 then Deleting(refs[x], false, next)
                                      else Continue(next)]
    requires refs' == refs - {x}
    ensures Counted(blocks', refs') && Deleted(blocks', threads')
  {
    CountedRelease(blocks, refs, x);
    DeletedRelease(blocks, threads, refs[x], t, next, blocks', threads');
  }

  // ---------- every step keeps the invariant ----------

  /** The instance of an idle thread is a counted reference, and nobody's sole one. */
  lemma IdleIsLinked<V(!new)>(s: State<V>, t: Thread, h: Handle)
    requires Inv(s) && t !in s.threads && OwnsBlock(s, t, h)
    ensures InHandle(h) in s.refs && s.refs[InHandle(h)] == s.handles[h].block.value
    ensures HasElement(s, s.handles[h].block.value) && s.blocks[s.handles[h].block.value].count > 0
    ensures NotSole(s.threads, InHandle(h))
  {
    assert LinkOk(s.handles, s.threads, s.refs, h);
    LinkedIsInUse(s, InHandle(h));
    OwnIsNotSole(s.handles, s.threads, s.refs, t, h);
  }

  lemma MakeKeeps<V(!new)>(s: State<V>, a: Action<V>)
    requires Inv(s) && a.Make? && Enabled(s, a)
    ensures Inv(Step(s, a))
  {
    var Make(t, h, v, b) := a;
    var s' := Step(s, a);
    LinkedCreate(s.handles, s.threads, s.refs, t, h, Some(b), s'.handles, s'.refs);
    CountedNew(s.blocks, s.refs, InHandle(h), b, Some(v));
    DeletedSame(s.blocks, s.threads, s'.blocks, s'.threads);
    assert Holders(s.refs, b) == {};
    ExclusiveAdd(s.threads, s.refs, InHandle(h), b, s'.refs);
  }

  /** `retain` through an idle thread's instance `src`. */
  lemma RetainKeeps<V(!new)>(s: State<V>, t: Thread, src: Handle, b: BlockId, pc: Pc)
    requires Inv(s) && t !in s.threads && OwnsBlock(s, t, src) && s.handles[src].block == Some(b)
    requires InRange(Retain(s, t, b, pc))
    requires FlightOf(pc) == Some(b) && PcOk(s.handles, t, pc) && !pc.Deleting? && SoleSlot(t, pc).None?
    requires Pending(s.threads[t := pc], t).Nothing? || s.handles[Pending(s.threads[t := pc], t).dst].block.None?
    ensures Inv(Retain(s, t, b, pc))
  {
    var s' := Retain(s, t, b, pc);
    IdleIsLinked(s, t, src);
    LinkedRetain(s.handles, s.threads, s.refs, t, pc, b, s'.threads, s'.refs);
    BlocksRetain(s.blocks, s.threads, s.refs, InFlight(t), b, t, pc, s'.blocks, s'.threads, s'.refs);
    ExclusiveRetain(s.threads, s.refs, InHandle(src), t, pc, s'.threads, s'.refs);
  }

  lemma CopyConstructKeeps<V(!new)>(s: State<V>, a: Action<V>)
    requires Inv(s) && a.CopyConstruct? && Enabled(s, a) && InRange(Step(s, a))
    ensures Inv(Step(s, a))
  {
    var CopyConstruct(t, dst, src) := a;
    var b := s.handles[src].block.value;
    var pc := Continue(Install(dst, b, false));
    var reserved := s.(handles := s.handles[dst := Instance(t, None)]);
    LinkedCreate(s.handles, s.threads, s.refs, t, dst, None, reserved.handles, s.refs);
    IdleIsLinked(s, t, src);
    assert Step(s, a) == Retain(reserved, t, b, pc);
    RetainKeeps(reserved, t, src, b, pc);
  }

  lemma CopyAssignKeeps<V(!new)>(s: State<V>, a: Action<V>)
    requires Inv(s) && a.CopyAssign? && Enabled(s, a) && InRange(Step(s, a))
    ensures Inv(Step(s, a))
  {
    var CopyAssign(t, dst, src) := a;
    var b := s.handles[src].block.value;
    if s.handles[dst].block != Some(b) {
      RetainKeeps(s, t, src, b, Overwriting(dst, b, false));
    }
  }

  /** `release` of the reference of `h`, which is about to be overwritten. */
  lemma ReleaseKeeps<V(!new)>(s: State<V>, t: Thread, h: Handle, b: BlockId, next: Next)
    requires Inv(s) && Owns(s, t, h) && s.handles[h].block == Some(b) && NextOk(s.handles, t, next)
    requires !next.Nothing? && next.dst == h
    requires t in s.threads ==> s.threads[t].Overwriting?
    requires FlightOf(Continue(next)) == FlightAt(s.threads, t)
    requires SoleSlot(t, Continue(next)) == if t in s.threads then SoleSlot(t, s.threads[t]) else None
    ensures Inv(Release(s, t, h, b, next))
  {
    var s' := Release(s, t, h, b, next);
    assert LinkOk(s.handles, s.threads, s.refs, h);
    LinkedIsInUse(s, InHandle(h));
    OwnIsNotSole(s.handles, s.threads, s.refs, t, h);
    LinkedRelease(s.handles, s.threads, s.refs, t, h, s'.threads[t], s'.threads, s'.refs);
    BlocksRelease(s.blocks, s.threads, s.refs, InHandle(h), t, next, s'.blocks, s'.threads, s'.refs);
    ExclusiveRelease(s.threads, s.refs, InHandle(h), t, s'.threads[t], s'.threads, s'.refs);
  }

  /** A thread that only moves on. */
  lemma ThreadKeeps<V(!new)>(s: State<V>, t: Thread, pc: Pc)
    requires Inv(s) && PcOk(s.handles, t, pc) && !pc.Deleting? && (t in s.threads ==> !s.threads[t].Deleting?)
    requires FlightOf(pc) == FlightAt(s.threads, t) && SoleOk(s.refs, t, pc)
    requires Pending(s.threads, t).Nothing?
    requires Pending(s.threads[t := pc], t).Nothing? || s.handles[Pending(s.threads[t := pc], t).dst].block.None?
    ensures Inv(s.(threads := s.threads[t := pc]))
  {
    var s' := s.(threads := s.threads[t := pc]);
    LinkedThread(s.handles, s.threads, s.refs, t, pc, s'.threads);
    DeletedSame(s.blocks, s.threads, s'.blocks, s'.threads);
    ExclusiveThread(s.threads, s.refs, t, pc, s'.threads);
  }

  lemma MoveAssignKeeps<V(!new)>(s: State<V>, a: Action<V>)
    requires Inv(s) && a.MoveAssign? && Enabled(s, a)
    ensures Inv(Step(s, a))
  {
    var MoveAssign(t, dst, src) := a;
    if dst != src {
      if s.handles[dst].block.None? {
        ThreadKeeps(s, t, Continue(Take(dst, src)));
      } else {
        ReleaseKeeps(s, t, dst, s.handles[dst].block.value, Take(dst, src));
      }
    }
  }

  lemma DestroyKeeps<V(!new)>(s: State<V>, a: Action<V>)
    requires Inv(s) && a.Destroy? && Enabled(s, a)
    ensures Inv(Step(s, a))
  {
    var Destroy(t, h) := a;
    var s' := Step(s, a);
    assert LinkOk(s.handles, s.threads, s.refs, h);
    LinkedDestroy(s.handles, s.threads, s.refs, t, h, s'.handles, s.refs - {InHandle(h)});
    if s.handles[h].block.None? {
      assert s.refs - {InHandle(h)} == s.refs;
    } else {
      IdleIsLinked(s, t, h);
      LinkedThread(s'.handles, s.threads, s'.refs, t, s'.threads[t], s'.threads);
      CountedRelease(s.blocks, s.refs, InHandle(h));
      DeletedRelease(s.blocks, s.threads, s.handles[h].block.value, t, Nothing, s'.blocks, s'.threads);
      ExclusiveDrop(s.threads, s.refs, InHandle(h), s'.refs);
      ExclusiveThread(s.threads, s'.refs, t, s'.threads[t], s'.threads);
    }
  }

  lemma GiveKeeps<V(!new)>(s: State<V>, a: Action<V>)
    requires Inv(s) && a.Give? && Enabled(s, a)
    ensures Inv(Step(s, a))
  {
    LinkedGive(s.handles, s.threads, s.refs, a.t, a.h, a.to, Step(s, a).handles);
  }

  lemma UniqueKeeps<V(!new)>(s: State<V>, a: Action<V>)
    requires Inv(s) && (a.Unique? || a.Read?) && Enabled(s, a)
    ensures Inv(Step(s, a))
  {
    IdleIsLinked(s, a.t, a.h);
    ThreadKeeps(s, a.t, Step(s, a).threads[a.t]);
  }

  lemma WriteKeeps<V(!new)>(s: State<V>, a: Action<V>)
    requires Inv(s) && a.Write? && Enabled(s, a)
    ensures Inv(Step(s, a))
  {
    var h := s.threads[a.t].h;
    assert PcOk(s.handles, a.t, s.threads[a.t]) && LinkOk(s.handles, s.threads, s.refs, h);
    LinkedIsInUse(s, InHandle(h));
    DeletedSame(s.blocks, s.threads, Step(s, a).blocks, s.threads);
  }

  lemma FinishKeeps<V(!new)>(s: State<V>, t: Thread)
    requires Inv(s) && t in s.threads
    requires s.threads[t].Writing? || s.threads[t].Reading? || s.threads[t] == Continue(Nothing)
    ensures Inv(s.(threads := s.threads - {t}))
  {
    var s' := s.(threads := s.threads - {t});
    LinkedFinish(s.handles, s.threads, s.refs, t, s'.threads);
    DeletedSame(s.blocks, s.threads, s.blocks, s'.threads);
    ExclusiveFinish(s.threads, s.refs, t, s'.threads);
  }

  lemma TakeOverKeeps<V(!new)>(s: State<V>, t: Thread, dst: Handle, src: Handle)
    requires Inv(s) && dst != src && Owns(s, t, dst) && Owns(s, t, src)
    requires if t in s.threads then s.threads[t] == Continue(Take(dst, src)) else s.handles[dst].block.None?
    ensures Inv(TakeOver(s, t, dst, src))
  {
    var s' := TakeOver(s, t, dst, src);
    LinkedTakeOver(s.handles, s.threads, s.refs, t, dst, src, s'.handles, s'.threads, s'.refs);
    DeletedSame(s.blocks, s.threads, s.blocks, s'.threads);
    ExclusiveFinish(s.threads, s.refs, t, s'.threads);
    if s.handles[src].block.Some? {
      OwnIsNotSole(s.handles, s.threads, s.refs, t, src);
      CountedMove(s.blocks, s.refs, InHandle(src), InHandle(dst));
      ExclusiveMove(s'.threads, s.refs, InHandle(src), InHandle(dst), s'.refs);
    }
  }

  lemma MoveConstructKeeps<V(!new)>(s: State<V>, a: Action<V>)
    requires Inv(s) && a.MoveConstruct? && Enabled(s, a)
    ensures Inv(Step(s, a))
  {
    var MoveConstruct(t, dst, src) := a;
    var reserved := s.(handles := s.handles[dst := Instance(t, None)]);
    LinkedCreate(s.handles, s.threads, s.refs, t, dst, None, reserved.handles, s.refs);
    TakeOverKeeps(reserved, t, dst, src);
  }

  lemma InstallKeeps<V(!new)>(s: State<V>, t: Thread, unused: BlockId)
    requires Inv(s) && t in s.threads && s.threads[t].Continue? && s.threads[t].next.Install?
    ensures Inv(Advance(s, t, s.threads[t], unused))
  {
    var Install(dst, b, unique) := s.threads[t].next;
    var s' := Advance(s, t, s.threads[t], unused);
    LinkedInstall(s.handles, s.threads, s.refs, t, s'.handles, s'.threads, s'.refs);
    CountedMove(s.blocks, s.refs, InFlight(t), InHandle(dst));
    DeletedSame(s.blocks, s.threads, s.blocks, s'.threads);
    ExclusiveInstall(s.threads, s.refs, t, s'.threads, s'.refs);
  }

  lemma DeletedSplit<V(!new)>(blocks: map<BlockId, Block<V>>, threads: map<Thread, Pc>, t: Thread, h: Handle,
                              b: BlockId, element: Option<V>)
    requires Deleted(blocks, threads) && t in threads && threads[t].Splitting? && b !in blocks
    ensures Deleted(blocks[b := Block(1, element, true)], threads[t := Overwriting(h, b, true)])
  {
    DeletedSame(blocks, threads, blocks[b := Block(1, element, true)], threads[t := Overwriting(h, b, true)]);
  }

  lemma SplitKeeps<V(!new)>(s: State<V>, t: Thread, unused: BlockId)
    requires Inv(s) && t in s.threads && s.threads[t].Splitting? && unused !in s.blocks
    ensures Inv(Advance(s, t, s.threads[t], unused))
  {
    var h := s.threads[t].h;
    var s' := Advance(s, t, s.threads[t], unused);
    assert PcOk(s.handles, t, s.threads[t]) && LinkOk(s.handles, s.threads, s.refs, h);
    LinkedIsInUse(s, InHandle(h));
    LinkedRetain(s.handles, s.threads, s.refs, t, s'.threads[t], unused, s'.threads, s'.refs);
    CountedNew(s.blocks, s.refs, InFlight(t), unused, s.blocks[s.handles[h].block.value].element);
    DeletedSplit(s.blocks, s.threads, t, h, unused, s.blocks[s.handles[h].block.value].element);
    assert Holders(s.refs, unused) == {};
    ExclusiveAdd(s.threads, s.refs, InFlight(t), unused, s'.refs);
    ExclusiveThread(s.threads, s'.refs, t, s'.threads[t], s'.threads);
  }

  /** A thread keeps its references while it deletes a block. */
  lemma DeletersReferences(handles: map<Handle, Instance>, threads: map<Thread, Pc>, refs: map<Slot, BlockId>,
                           t: Thread, pc: Pc, threads': map<Thread, Pc>)
    requires Linked(handles, threads, refs) && Exclusive(threads, refs) && t in threads && threads[t].Deleting?
    requires pc == threads[t].(elementGone := true) || pc == Continue(threads[t].next)
    requires threads' == threads[t := pc]
    ensures Linked(handles, threads', refs) && Exclusive(threads', refs)
  {
    assert PcOk(handles, t, threads[t]) && SoleOk(refs, t, threads[t]);
    LinkedThread(handles, threads, refs, t, pc, threads');
    ExclusiveThread(threads, refs, t, pc, threads');
  }

  lemma DeletingKeeps<V(!new)>(s: State<V>, t: Thread, unused: BlockId)
    requires Inv(s) && t in s.threads && s.threads[t].Deleting?
    ensures Inv(Advance(s, t, s.threads[t], unused))
  {
    var Deleting(b, gone, next) := s.threads[t];
    var s' := Advance(s, t, s.threads[t], unused);
    DeletersReferences(s.handles, s.threads, s.refs, t, s'.threads[t], s'.threads);
    if gone {
      DeletedBlock(s.blocks, s.threads, t, s'.blocks, s'.threads);
    } else {
      DeletedElement(s.blocks, s.threads, t, s'.blocks, s'.threads);
    }
  }

  lemma OverwritingKeeps<V(!new)>(s: State<V>, t: Thread, unused: BlockId)
    requires Inv(s) && t in s.threads && s.threads[t].Overwriting?
    ensures Inv(Advance(s, t, s.threads[t], unused))
  {
    var Overwriting(dst, b, unique) := s.threads[t];
    assert PcOk(s.handles, t, s.threads[t]) && SoleOk(s.refs, t, s.threads[t]);
    if s.handles[dst].block.None? {
      ThreadKeeps(s, t, Continue(Install(dst, b, unique)));
    } else {
      ReleaseKeeps(s, t, dst, s.handles[dst].block.value, Install(dst, b, unique));
    }
  }

  lemma AdvanceKeeps<V(!new)>(s: State<V>, a: Action<V>)
    requires Inv(s) && a.Go? && Enabled(s, a)
    ensures Inv(Step(s, a))
  {
    var Go(t, unused) := a;
    match s.threads[t]
    case Splitting(_) => SplitKeeps(s, t, unused);
    case Overwriting(_, _, _) => OverwritingKeeps(s, t, unused);
    case Deleting(_, _, _) => DeletingKeeps(s, t, unused);
    case Continue(Nothing) => FinishKeeps(s, t);
    case Continue(Install(_, _, _)) => InstallKeeps(s, t, unused);
    case Continue(Take(dst, src)) =>
      assert PcOk(s.handles, t, s.threads[t]);
      TakeOverKeeps(s, t, dst, src);
  }

  lemma StepKeeps<V(!new)>(s: State<V>, a: Action<V>)
    requires Inv(s) && Enabled(s, a) && InRange(Step(s, a))
    ensures Inv(Step(s, a))
  {
    match a
    case Make(_, _, _, _) => MakeKeeps(s, a);
    case CopyConstruct(_, _, _) => CopyConstructKeeps(s, a);
    case MoveConstruct(_, _, _) => MoveConstructKeeps(s, a);
    case CopyAssign(_, _, _) => CopyAssignKeeps(s, a);
    case MoveAssign(_, _, _) => MoveAssignKeeps(s, a);
    case Destroy(_, _) => DestroyKeeps(s, a);
    case Give(_, _, _) => GiveKeeps(s, a);
    case Unique(_, _) => UniqueKeeps(s, a);
    case Read(_, _) => UniqueKeeps(s, a);
    case Write(_, _) => WriteKeeps(s, a);
    case Finish(t) => FinishKeeps(s, t);
    case Go(_, _) => AdvanceKeeps(s, a);
  }

  // ---------- runs ----------

  ghost predicate IsStep<V(!new)>(s: State<V>, a: Action<V>, s': State<V>) {
    Enabled(s, a) && s' == Step(s, a) && InRange(s')
  }

  ghost predicate StepAt<V(!new)>(states: seq<State<V>>, actions: seq<Action<V>>, i: nat)
    requires i < |actions| && |states| == |actions| + 1
  {
    IsStep(states[i], actions[i], states[i + 1])
  }

  /** The threads' steps in the order they happened; the counters never run out. */
  ghost predicate IsRun<V(!new)>(states: seq<State<V>>, actions: seq<Action<V>>) {
    && |states| == |actions| + 1 && states[0] == Initial()
    && forall i | 0 <= i < |actions| :: StepAt(states, actions, i)
  }

  lemma InitialKeeps<V(!new)>()
    ensures Inv(Initial<V>())
  {
  }

  lemma IsStepKeeps<V(!new)>(s: State<V>, a: Action<V>, s': State<V>)
    requires Inv(s) && IsStep(s, a, s')
    ensures Inv(s')
  {
    StepKeeps(s, a);
  }

  lemma NextKeeps<V(!new)>(states: seq<State<V>>, actions: seq<Action<V>>, i: nat)
    requires i < |actions| && |states| == |actions| + 1 && StepAt(states, actions, i) && Inv(states[i])
    ensures Inv(states[i + 1])
  {
    IsStepKeeps(states[i], actions[i], states[i + 1]);
  }

  /** Under every interleaving every count is the number of live pointers and local variables that
      refer to the block, and no step has touched a destroyed block or element. */
  lemma {:induction false} EveryRunKeeps<V(!new)>(states: seq<State<V>>, actions: seq<Action<V>>, k: nat)
    requires IsRun(states, actions) && k < |states|
    ensures Inv(states[k])
  {
    if k == 0 {
      InitialKeeps<V>();
    } else {
      var i := k - 1;
      EveryRunKeeps(states, actions, i);
      NextKeeps(states, actions, i);
    }
  }

  /** What `unique()` returns is reachable from no other instance: no other reference leads to the
      block, so nobody else reads it, copies it or writes it. */
  lemma MutablePointerIsExclusive<V(!new)>(s: State<V>, t: Thread, h: Handle, x: Slot, u: Thread)
    requires Inv(s) && t in s.threads && s.threads[t] == Writing(h)
    ensures OwnsBlock(s, t, h)
    ensures x in s.refs && s.refs[x] == s.handles[h].block.value ==> x == InHandle(h)
    ensures u in s.threads && (s.threads[u].Reading? || s.threads[u].Splitting? || s.threads[u].Writing?) && u != t ==>
              OwnsBlock(s, u, s.threads[u].h) && s.handles[s.threads[u].h].block != s.handles[h].block
  {
    assert PcOk(s.handles, t, Writing(h)) && SoleOk(s.refs, t, Writing(h)) && LinkOk(s.handles, s.threads, s.refs, h);
    if x in s.refs && s.refs[x] == s.refs[InHandle(h)] {
      SoleHolder(s.refs, InHandle(h), x);
    }
    if u in s.threads && (s.threads[u].Reading? || s.threads[u].Splitting? || s.threads[u].Writing?) && u != t {
      var k := s.threads[u].h;
      assert PcOk(s.handles, u, s.threads[u]) && LinkOk(s.handles, s.threads, s.refs, k);
      if s.handles[k].block == s.handles[h].block {
        SoleHolder(s.refs, InHandle(h), InHandle(k));
      }
    }
  }

  // ---------- what single steps do ----------

  lemma AnotherHolder(refs: map<Slot, BlockId>, x: Slot)
    requires x in refs
    ensures Count(refs, refs[x]) > 1 <==> exists y :: y in refs && y != x && refs[y] == refs[x]
  {
    var holders := Holders(refs, refs[x]);
    if y :| y in refs && y != x && refs[y] == refs[x] {
      SubsetSize({x, y}, holders);
    }
    if |holders| > 1 {
      assert holders == {x} + (holders - {x});
      var y :| y in holders - {x};
      assert y in refs && y != x && refs[y] == refs[x];
    }
  }

  /** `unique()` splits exactly when the block is shared at the moment its count is read: when another
      instance, or a local variable of a thread in the middle of an operation, refers to it. Otherwise the
      pointer is handed out at once. */
  lemma UniqueSplitsExactlyWhenShared<V(!new)>(s: State<V>, t: Thread, h: Handle)
    requires Inv(s) && t !in s.threads && OwnsBlock(s, t, h)
    ensures Enabled(s, Unique(t, h))
    ensures var b := s.handles[h].block.value;
            var shared := exists x :: x in s.refs && x != InHandle(h) && s.refs[x] == b;
            Step(s, Unique(t, h)) == s.(threads := s.threads[t := if shared then Splitting(h) else Writing(h)])
  {
    IdleIsLinked(s, t, h);
    AnotherHolder(s.refs, InHandle(h));
  }

  /** `read()` hands out its pointer at once and copies nothing; neither does an assignment between instances
      that share their block already. */
  lemma ReadingCopiesNothing<V(!new)>(s: State<V>, t: Thread, h: Handle, other: Handle)
    requires Inv(s) && t !in s.threads && OwnsBlock(s, t, h)
    ensures Enabled(s, Read(t, h))
    ensures Step(s, Read(t, h)) == s.(threads := s.threads[t := Reading(h)])
    ensures Owns(s, t, other) && s.handles[other].block == s.handles[h].block ==>
              Enabled(s, CopyAssign(t, other, h)) && Step(s, CopyAssign(t, other, h)) == s
  {
    IdleIsLinked(s, t, h);
    LinkedIsInUse(s, InHandle(h));
  }

  /** A thread that is in the middle of nothing may begin any operation on its own instances at any time. */
  lemma IdleMayCall<V>(s: State<V>, t: Thread, h: Handle, other: Handle, to: Thread, value: V, b: BlockId)
    requires t !in s.threads && h in s.handles && s.handles[h].owner == t && b !in s.blocks
    ensures Enabled(s, Destroy(t, h)) && Enabled(s, Give(t, h, to))
    ensures s.handles[h].block.Some? ==> Enabled(s, Unique(t, h)) && Enabled(s, Read(t, h))
    ensures other !in s.handles ==> Enabled(s, Make(t, other, value, b)) && Enabled(s, MoveConstruct(t, other, h))
    ensures other !in s.handles && s.handles[h].block.Some? ==> Enabled(s, CopyConstruct(t, other, h))
    ensures other in s.handles && s.handles[other].owner == t ==>
              Enabled(s, MoveAssign(t, other, h))
              && (s.handles[h].block.Some? ==> Enabled(s, CopyAssign(t, other, h)))
  {
  }

  /** An instance is handed over with its block: from then on it is the other thread's, and no longer the
      thread's own. */
  lemma HandsOver<V(!new)>(s: State<V>, t: Thread, h: Handle, to: Thread)
    requires Inv(s) && t !in s.threads && Owns(s, t, h) && to != t
    ensures Enabled(s, Give(t, h, to))
    ensures var s' := Step(s, Give(t, h, to));
            && Owns(s', to, h) && !Owns(s', t, h)
            && s'.handles[h].block == s.handles[h].block && s'.blocks == s.blocks && s'.refs == s.refs
            && (to !in s.threads ==> Enabled(s', Destroy(to, h)) && !Enabled(s', Destroy(t, h)))
  {
  }

  /** A write changes the element behind its own instance and nothing else. */
  lemma WriteChangesOneElement<V(!new)>(s: State<V>, t: Thread, value: V)
    requires Inv(s) && Enabled(s, Write(t, value))
    ensures var h := s.threads[t].h;
            && OwnsBlock(s, t, h)
            && var b := s.handles[h].block.value;
               b in s.blocks
               && Step(s, Write(t, value)) == s.(blocks := s.blocks[b := s.blocks[b].(element := Some(value))])
  {
    var h := s.threads[t].h;
    assert PcOk(s.handles, t, s.threads[t]) && LinkOk(s.handles, s.threads, s.refs, h);
    LinkedIsInUse(s, InHandle(h));
  }

  lemma BlocksAddedOnGo<V>(s: State<V>, t: Thread, pc: Pc, unused: BlockId)
    requires !pc.Reading? && !pc.Writing? && !Advance(s, t, pc, unused).faulted
    ensures Advance(s, t, pc, unused).blocks.Keys == s.blocks.Keys + if pc.Splitting? then {unused} else {}
  {
    match pc
    case Splitting(_) =>
    case Overwriting(_, _, _) =>
    case Deleting(_, _, _) =>
    case Continue(_) =>
  }

  lemma BlocksAddedOnCall<V>(s: State<V>, a: Action<V>)
    requires Enabled(s, a) && !a.Go? && !Step(s, a).faulted
    ensures Step(s, a).blocks.Keys == s.blocks.Keys + if a.Make? then {a.b} else {}
  {
    match a
    case Make(_, _, _, _) =>
    case CopyConstruct(_, _, _) =>
    case CopyAssign(_, _, _) =>
    case MoveAssign(_, _, _) =>
    case Destroy(_, _) =>
    case _ =>
  }

  /** Copies are lazy: a block is allocated where an instance is made and where `unique()` splits a shared
      block, and nowhere else. */
  lemma OnlySplitsAllocate<V(!new)>(s: State<V>, a: Action<V>)
    requires Inv(s) && Enabled(s, a) && InRange(Step(s, a))
    ensures Step(s, a).blocks.Keys ==
              s.blocks.Keys + if a.Make? then {a.b} else if a.Go? && s.threads[a.t].Splitting? then {a.unused} else {}
  {
    StepKeeps(s, a);
    if a.Go? {
      BlocksAddedOnGo(s, a.t, s.threads[a.t], a.unused);
    } else {
      BlocksAddedOnCall(s, a);
    }
  }

  /** The counter has to have room: a copy keeps the counts right exactly when its block has fewer than
      2^32 - 1 references. */
  lemma CopyIsSafeExactlyWhen<V(!new)>(s: State<V>, t: Thread, dst: Handle, src: Handle)
    requires Inv(s) && InRange(s) && t !in s.threads && dst !in s.handles && OwnsBlock(s, t, src)
    ensures Enabled(s, CopyConstruct(t, dst, src))
    ensures s.handles[src].block.value in s.blocks
    ensures Inv(Step(s, CopyConstruct(t, dst, src))) <==> s.blocks[s.handles[src].block.value].count < 0xFFFF_FFFF
  {
    var a, b := CopyConstruct(t, dst, src), s.handles[src].block.value;
    IdleIsLinked(s, t, src);
    LinkedIsInUse(s, InHandle(src));
    assert FlightOk(s.threads, s.refs, t);
    var s' := Step(s, a);
    assert s'.refs == s.refs[InFlight(t) := b];
    forall k
      ensures Count(s'.refs, k) == Count(s.refs, k) + if k == b then 1 else 0
    {
      CountAdd(s.refs, InFlight(t), b, k);
    }
    if s.blocks[b].count < 0xFFFF_FFFF {
      StepKeeps(s, a);
    } else {
      assert s'.blocks[b].count == 0;
    }
  }

  /** Nothing leaks: when no operation is in progress, the blocks not destroyed are the ones some
      instance refers to, each with its element. */
  lemma NothingLeaks<V(!new)>(s: State<V>, b: BlockId)
    requires Inv(s) && s.threads == map[] && b in s.blocks
    ensures s.blocks[b].alive <==> exists h :: h in s.handles && s.handles[h].block == Some(b)
    ensures s.blocks[b].alive == s.blocks[b].element.Some?
  {
    if h :| h in s.handles && s.handles[h].block == Some(b) {
      assert LinkOk(s.handles, s.threads, s.refs, h);
      LinkedIsInUse(s, InHandle(h));
    }
    if s.blocks[b].alive {
      assert forall t :: !Deletes(s.threads, t, b);
      assert Holders(s.refs, b) != {};
      var x :| x in Holders(s.refs, b);
      assert x.InFlight? ==> FlightOk(s.threads, s.refs, x.t);
      assert LinkOk(s.handles, s.threads, s.refs, x.h);
    }
  }

  // ---------- destroyed exactly once ----------

  /** The next step of `a`'s thread deletes the element, or then the block, numbered `b`. */
  predicate DestroysElement<V>(s: State<V>, a: Action<V>, b: BlockId) {
    a.Go? && a.t in s.threads && s.threads[a.t].Deleting? && s.threads[a.t].b == b && !s.threads[a.t].elementGone
  }

  predicate DestroysBlock<V>(s: State<V>, a: Action<V>, b: BlockId) {
    a.Go? && a.t in s.threads && s.threads[a.t].Deleting? && s.threads[a.t].b == b && s.threads[a.t].elementGone
  }

  /** The block is there still, with an element or alive as before. */
  predicate Survives<V>(s: State<V>, s': State<V>, b: BlockId)
    requires b in s.blocks
  {
    && b in s'.blocks
    && s'.blocks[b].element.Some? == s.blocks[b].element.Some? && s'.blocks[b].alive == s.blocks[b].alive
  }

  lemma SurvivesGo<V>(s: State<V>, t: Thread, pc: Pc, unused: BlockId, b: BlockId)
    requires !pc.Reading? && !pc.Writing? && !Advance(s, t, pc, unused).faulted && b in s.blocks && unused !in s.blocks
    requires pc.Deleting? ==> pc.b != b
    ensures Survives(s, Advance(s, t, pc, unused), b)
  {
    match pc
    case Splitting(_) =>
    case Overwriting(_, _, _) =>
    case Deleting(_, _, _) =>
    case Continue(_) =>
  }

  lemma SurvivesCall<V>(s: State<V>, a: Action<V>, b: BlockId)
    requires Enabled(s, a) && !a.Go? && !Step(s, a).faulted && b in s.blocks
    ensures Survives(s, Step(s, a), b)
  {
    match a
    case Make(_, _, _, _) =>
    case CopyConstruct(_, _, _) =>
    case CopyAssign(_, _, _) =>
    case MoveAssign(_, _, _) =>
    case Destroy(_, _) =>
    case Write(_, _) =>
    case _ =>
  }

  /** These are the steps in which an element goes, or a block. */
  lemma DestroysExactlyWhen<V(!new)>(s: State<V>, a: Action<V>, b: BlockId)
    requires Inv(s) && Enabled(s, a) && InRange(Step(s, a)) && b in s.blocks
    ensures b in Step(s, a).blocks
    ensures DestroysElement(s, a, b) <==> s.blocks[b].element.Some? && Step(s, a).blocks[b].element.None?
    ensures DestroysBlock(s, a, b) <==> s.blocks[b].alive && !Step(s, a).blocks[b].alive
  {
    StepKeeps(s, a);
    if !a.Go? {
      SurvivesCall(s, a, b);
    } else if !Deletes(s.threads, a.t, b) {
      SurvivesGo(s, a.t, s.threads[a.t], a.unused, b);
    }
  }

  predicate ElementGone<V>(s: State<V>, b: BlockId) {
    b in s.blocks && s.blocks[b].element.None? && s.blocks[b].count == 0
  }

  /** No pointer and no local variable leads to a block whose element has been deleted. */
  lemma GoneIsUnreachable<V(!new)>(s: State<V>, a: Action<V>, b: BlockId)
    requires Inv(s) && Enabled(s, a) && ElementGone(s, b)
    ensures forall x | x in s.refs :: s.refs[x] != b
    ensures forall h | h in s.handles && s.handles[h].block == Some(b) :: IsStale(s.threads, s.handles[h].owner, h)
  {
    forall x | x in s.refs
      ensures s.refs[x] != b
    {
      LinkedIsInUse(s, x);
    }
    forall h | h in s.handles && s.handles[h].block == Some(b)
      ensures IsStale(s.threads, s.handles[h].owner, h)
    {
      assert LinkOk(s.handles, s.threads, s.refs, h);
    }
  }

  ghost predicate StaysGone<V>(s: State<V>, s': State<V>, b: BlockId) {
    ElementGone(s, b) ==> ElementGone(s', b) && (!s.blocks[b].alive ==> !s'.blocks[b].alive)
  }

  /** A step on other blocks, or the deletion of this one, leaves it gone. */
  lemma GoneStaysGoneOnGo<V>(s: State<V>, t: Thread, pc: Pc, unused: BlockId, b: BlockId)
    requires !pc.Reading? && !pc.Writing? && ElementGone(s, b) && unused !in s.blocks
    requires pc.Overwriting? ==> BlockOf(s, pc.dst) != Some(b)
    ensures StaysGone(s, Advance(s, t, pc, unused), b)
  {
    match pc
    case Splitting(_) =>
    case Overwriting(_, _, _) =>
    case Deleting(_, _, _) =>
    case Continue(Nothing) =>
    case Continue(Install(_, _, _)) =>
    case Continue(Take(_, _)) =>
  }

  /** The blocks that a call may touch. */
  predicate Touches<V>(s: State<V>, a: Action<V>, b: BlockId) {
    match a
    case Make(_, _, _, unused) => unused == b
    case CopyConstruct(_, _, src) => BlockOf(s, src) == Some(b)
    case CopyAssign(_, _, src) => BlockOf(s, src) == Some(b)
    case MoveAssign(_, dst, _) => BlockOf(s, dst) == Some(b)
    case Destroy(_, h) => BlockOf(s, h) == Some(b)
    case Write(t, _) => t in s.threads && s.threads[t].Writing? && BlockOf(s, s.threads[t].h) == Some(b)
    case _ => false
  }

  lemma GoneStaysGoneOnCall<V>(s: State<V>, a: Action<V>, b: BlockId)
    requires Enabled(s, a) && !a.Go? && ElementGone(s, b) && !Touches(s, a, b)
    ensures StaysGone(s, Step(s, a), b)
  {
    match a
    case Make(_, _, _, _) =>
    case CopyConstruct(_, _, _) =>
    case CopyAssign(_, _, _) =>
    case MoveConstruct(_, _, _) =>
    case MoveAssign(_, _, _) =>
    case Destroy(_, _) =>
    case _ =>
  }

  lemma GoneStaysGone<V(!new)>(s: State<V>, a: Action<V>, b: BlockId)
    requires Inv(s) && Enabled(s, a) && ElementGone(s, b)
    ensures StaysGone(s, Step(s, a), b)
  {
    GoneIsUnreachable(s, a, b);
    if a.Go? {
      assert PcOk(s.handles, a.t, s.threads[a.t]);
      GoneStaysGoneOnGo(s, a.t, s.threads[a.t], a.unused, b);
    } else {
      if a.Write? {
        assert PcOk(s.handles, a.t, s.threads[a.t]);
      }
      GoneStaysGoneOnCall(s, a, b);
    }
  }

  lemma NextStaysGone<V(!new)>(states: seq<State<V>>, actions: seq<Action<V>>, i: nat, b: BlockId)
    requires i < |actions| && |states| == |actions| + 1 && StepAt(states, actions, i)
    requires Inv(states[i]) && ElementGone(states[i], b)
    ensures StaysGone(states[i], states[i + 1], b)
  {
    GoneStaysGone(states[i], actions[i], b);
  }

  lemma NextIsGone<V(!new)>(states: seq<State<V>>, actions: seq<Action<V>>, i: nat, b: BlockId)
    requires i < |actions| && |states| == |actions| + 1 && StepAt(states, actions, i) && Inv(states[i])
    requires DestroysElement(states[i], actions[i], b) || DestroysBlock(states[i], actions[i], b)
    ensures ElementGone(states[i + 1], b)
    ensures DestroysBlock(states[i], actions[i], b) ==> !states[i + 1].blocks[b].alive
  {
  }

  lemma GoneIsNotDestroyed<V(!new)>(s: State<V>, a: Action<V>, b: BlockId)
    requires Inv(s) && ElementGone(s, b)
    ensures !DestroysElement(s, a, b) && (!s.blocks[b].alive ==> !DestroysBlock(s, a, b))
  {
  }

  /** The element numbered `b`, and with `whole` also the block, has been destroyed. */
  ghost predicate IsGone<V>(s: State<V>, b: BlockId, whole: bool) {
    ElementGone(s, b) && (whole ==> !s.blocks[b].alive)
  }

  lemma GoneNext<V(!new)>(states: seq<State<V>>, actions: seq<Action<V>>, i: nat, b: BlockId, whole: bool)
    requires IsRun(states, actions) && i < |actions| && IsGone(states[i], b, whole)
    ensures IsGone(states[i + 1], b, whole)
  {
    EveryRunKeeps(states, actions, i);
    NextStaysGone(states, actions, i, b);
  }

  /** What has been deleted stays gone for the rest of the run. */
  lemma {:induction false} GoneAfter<V(!new)>(states: seq<State<V>>, actions: seq<Action<V>>, i: nat, k: nat,
                                              b: BlockId, whole: bool)
    requires IsRun(states, actions) && i <= k < |states| && IsGone(states[i], b, whole)
    ensures IsGone(states[k], b, whole)
    decreases k - i
  {
    if i < k {
      GoneNext(states, actions, i, b, whole);
      GoneAfter(states, actions, i + 1, k, b, whole);
    }
  }

  /** No element and no block is destroyed twice in a run. */
  lemma DestroyedOnce<V(!new)>(states: seq<State<V>>, actions: seq<Action<V>>, i: nat, k: nat, b: BlockId)
    requires IsRun(states, actions) && i < k < |actions|
    ensures !(DestroysElement(states[i], actions[i], b) && DestroysElement(states[k], actions[k], b))
    ensures !(DestroysBlock(states[i], actions[i], b) && DestroysBlock(states[k], actions[k], b))
  {
    if DestroysElement(states[i], actions[i], b) || DestroysBlock(states[i], actions[i], b) {
      EveryRunKeeps(states, actions, i);
      NextIsGone(states, actions, i, b);
      GoneAfter(states, actions, i + 1, k, b, DestroysBlock(states[i], actions[i], b));
      EveryRunKeeps(states, actions, k);
      GoneIsNotDestroyed(states[k], actions[k], b);
    }
  }

  // ---------- every operation ends ----------

  /** At most how many more steps of its own an operation takes before it is over, or hands out its
      pointer. */
  function StepsLeft(pc: Pc): nat {
    match pc
    case Splitting(_) => 5
    case Overwriting(_, _, _) => 4
    case Deleting(_, elementGone, _) => if elementGone then 2 else 3
    case Continue(_) => 1
    case _ => 0
  }

  function StepsLeftOf(threads: map<Thread, Pc>, t: Thread): nat {
    if t in threads then StepsLeft(threads[t]) else 0
  }

  lemma GoAdvances<V>(s: State<V>, t: Thread, pc: Pc, unused: BlockId)
    requires t in s.threads && s.threads[t] == pc && !pc.Reading? && !pc.Writing?
    requires !Advance(s, t, pc, unused).faulted
    ensures StepsLeftOf(Advance(s, t, pc, unused).threads, t) < StepsLeft(pc)
  {
    match pc
    case Splitting(_) =>
    case Overwriting(_, _, _) =>
    case Deleting(_, _, _) =>
    case Continue(Nothing) =>
    case Continue(Install(_, _, _)) =>
    case Continue(Take(_, _)) =>
  }

  lemma ThreadsStayOnGo<V(!new)>(s: State<V>, t: Thread, pc: Pc, unused: BlockId, u: Thread)
    requires !pc.Reading? && !pc.Writing? && u != t
    ensures var threads := Advance(s, t, pc, unused).threads;
            (u in threads <==> u in s.threads) && (u in s.threads ==> threads[u] == s.threads[u])
  {
    match pc
    case Splitting(_) =>
    case Overwriting(_, _, _) =>
    case Deleting(_, _, _) =>
    case Continue(Nothing) =>
    case Continue(Install(_, _, _)) =>
    case Continue(Take(_, _)) =>
  }

  /** A step of one thread leaves the others where they are. */
  lemma ThreadsStay<V(!new)>(s: State<V>, a: Action<V>, u: Thread)
    requires Enabled(s, a) && u != a.t
    ensures u in Step(s, a).threads <==> u in s.threads
    ensures u in s.threads ==> Step(s, a).threads[u] == s.threads[u]
  {
    if a.Go? {
      ThreadsStayOnGo(s, a.t, s.threads[a.t], a.unused, u);
    }
  }

  lemma NextThread<V(!new)>(states: seq<State<V>>, actions: seq<Action<V>>, i: nat, t: Thread)
    requires IsRun(states, actions) && i < |actions|
    requires actions[i].t == t ==> actions[i].Go?
    ensures StepsLeftOf(states[i + 1].threads, t) + (if actions[i].t == t then 1 else 0)
            <= StepsLeftOf(states[i].threads, t)
  {
    EveryRunKeeps(states, actions, i);
    EveryRunKeeps(states, actions, i + 1);
    var s, a := states[i], actions[i];
    assert StepAt(states, actions, i);
    if a.t == t {
      GoAdvances(s, t, s.threads[t], a.unused);
    } else {
      ThreadsStay(s, a, t);
    }
  }

  /** How many of the steps from `i` up to `k` are the thread's own. */
  function OwnSteps<V>(actions: seq<Action<V>>, t: Thread, i: nat, k: nat): nat
    requires i <= k <= |actions|
  {
    if i == k then 0 else OwnSteps(actions, t, i, k - 1) + if actions[k - 1].t == t then 1 else 0
  }

  /** An operation ends within five steps of its own, whatever other threads do in between. */
  lemma {:induction false} OperationsEnd<V(!new)>(states: seq<State<V>>, actions: seq<Action<V>>, t: Thread,
                                                  i: nat, k: nat)
    requires IsRun(states, actions) && i <= k <= |actions|
    requires forall j | i <= j < k && actions[j].t == t :: actions[j].Go?
    ensures StepsLeftOf(states[k].threads, t) + OwnSteps(actions, t, i, k) <= StepsLeftOf(states[i].threads, t) <= 5
  {
    if i < k {
      OperationsEnd(states, actions, t, i, k - 1);
      NextThread(states, actions, k - 1, t);
    }
  }

  /** On the way from `unique()` to the pointer of `h`. */
  predicate GettingPointer(pc: Pc, h: Handle) {
    match pc
    case Splitting(x) => x == h
    case Overwriting(x, _, unique) => x == h && unique
    case Deleting(_, _, Install(x, _, unique)) => x == h && unique
    case Continue(Install(x, _, unique)) => x == h && unique
    case _ => false
  }

  /** The thread is on its way to the pointer of `h`, or has it. */
  predicate Advances(threads: map<Thread, Pc>, t: Thread, h: Handle) {
    t in threads && (threads[t] == Writing(h) || GettingPointer(threads[t], h))
  }

  lemma PointerComes<V>(s: State<V>, t: Thread, pc: Pc, unused: BlockId, h: Handle)
    requires GettingPointer(pc, h) && !Advance(s, t, pc, unused).faulted
    ensures Advances(Advance(s, t, pc, unused).threads, t, h)
  {
    match pc
    case Splitting(_) =>
    case Overwriting(_, _, _) =>
    case Deleting(_, _, _) =>
    case Continue(Install(_, _, _)) =>
  }

  lemma NextPointer<V(!new)>(states: seq<State<V>>, actions: seq<Action<V>>, i: nat, t: Thread, h: Handle)
    requires IsRun(states, actions) && i < |actions| && Advances(states[i].threads, t, h)
    requires actions[i].t == t ==> actions[i].Go?
    ensures Advances(states[i + 1].threads, t, h)
  {
    EveryRunKeeps(states, actions, i + 1);
    var s, a := states[i], actions[i];
    assert StepAt(states, actions, i);
    if a.t == t {
      PointerComes(s, t, s.threads[t], a.unused, h);
    } else {
      ThreadsStay(s, a, t);
    }
  }

  lemma UniqueBegins<V(!new)>(states: seq<State<V>>, actions: seq<Action<V>>, i: nat, t: Thread, h: Handle)
    requires IsRun(states, actions) && i < |actions| && actions[i] == Unique(t, h)
    ensures Advances(states[i + 1].threads, t, h)
  {
    EveryRunKeeps(states, actions, i);
    assert StepAt(states, actions, i);
    UniqueSplitsExactlyWhenShared(states[i], t, h);
  }

  lemma {:induction false} KeepsAdvancing<V(!new)>(states: seq<State<V>>, actions: seq<Action<V>>,
                                                   t: Thread, h: Handle, i: nat, k: nat)
    requires IsRun(states, actions) && i <= k <= |actions| && Advances(states[i].threads, t, h)
    requires forall j | i <= j < k && actions[j].t == t :: actions[j].Go?
    ensures Advances(states[k].threads, t, h)
  {
    if i < k {
      KeepsAdvancing(states, actions, t, h, i, k - 1);
      NextPointer(states, actions, k - 1, t, h);
    }
  }

  /** A thread that has called `unique()` and goes on gets the pointer of that instance, and has it after five
      more steps of its own at the latest, whatever other threads do in between. */
  lemma UniqueHandsOut<V(!new)>(states: seq<State<V>>, actions: seq<Action<V>>, t: Thread, h: Handle, i: nat, k: nat)
    requires IsRun(states, actions) && i < k <= |actions| && actions[i] == Unique(t, h)
    requires forall j | i < j < k && actions[j].t == t :: actions[j].Go?
    ensures t in states[k].threads && (states[k].threads[t] == Writing(h) || GettingPointer(states[k].threads[t], h))
    ensures OwnSteps(actions, t, i + 1, k) >= 5 ==> states[k].threads[t] == Writing(h)
  {
    UniqueBegins(states, actions, i, t, h);
    KeepsAdvancing(states, actions, t, h, i + 1, k);
    OperationsEnd(states, actions, t, i + 1, k);
  }

  lemma DeleterStep<V(!new)>(s: State<V>, a: Action<V>, t: Thread, b: BlockId)
    requires Inv(s) && Enabled(s, a) && Deletes(s.threads, t, b) && (a.t == t ==> a.Go?)
    ensures Deletes(Step(s, a).threads, t, b) || IsGone(Step(s, a), b, true)
  {
    if a.t == t {
      assert b in s.blocks && s.blocks[b].alive && s.blocks[b].count == 0;
    } else {
      ThreadsStay(s, a, t);
    }
  }

  lemma {:induction false} DeleterAdvances<V(!new)>(states: seq<State<V>>, actions: seq<Action<V>>, t: Thread,
                                                    b: BlockId, i: nat, k: nat)
    requires IsRun(states, actions) && i <= k <= |actions| && Deletes(states[i].threads, t, b)
    requires forall j | i <= j < k && actions[j].t == t :: actions[j].Go?
    ensures Deletes(states[k].threads, t, b) || IsGone(states[k], b, true)
  {
    if i < k {
      DeleterAdvances(states, actions, t, b, i, k - 1);
      if IsGone(states[k - 1], b, true) {
        GoneNext(states, actions, k - 1, b, true);
      } else {
        EveryRunKeeps(states, actions, k - 1);
        assert StepAt(states, actions, k - 1);
        DeleterStep(states[k - 1], actions[k - 1], t, b);
      }
    }
  }

  /** A block that has lost its last reference is destroyed within two steps of the thread that took it. */
  lemma DeletersFinish<V(!new)>(states: seq<State<V>>, actions: seq<Action<V>>, t: Thread, b: BlockId, i: nat, k: nat)
    requires IsRun(states, actions) && i <= k <= |actions| && Deletes(states[i].threads, t, b)
    requires forall j | i <= j < k && actions[j].t == t :: actions[j].Go?
    ensures Deletes(states[k].threads, t, b) || IsGone(states[k], b, true)
    ensures OwnSteps(actions, t, i, k) >= 2 ==> IsGone(states[k], b, true)
  {
    DeleterAdvances(states, actions, t, b, i, k);
    OperationsEnd(states, actions, t, i, k);
  }

  // ---------- what a step does to references and elements ----------

  /** What a step does to the values behind the references, as if each were a private copy. */
  datatype Effect<V> =
    | Silent
    | New(x: Slot, value: V)
    | CopyTo(source: Slot, target: Slot)
    | MoveTo(source: Slot, target: Slot)
    | Drop(x: Slot)
    | Assign(x: Slot, value: V)

  function DropIfAny<V>(s: State<V>, h: Handle): Effect<V> {
    if BlockOf(s, h).Some? then Drop(InHandle(h)) else Silent
  }

  function MoveIfAny<V>(s: State<V>, dst: Handle, src: Handle): Effect<V> {
    if BlockOf(s, src).Some? then MoveTo(InHandle(src), InHandle(dst)) else Silent
  }

  function EffectOfGo<V>(s: State<V>, t: Thread, pc: Pc): Effect<V> {
    match pc
    case Splitting(h) => CopyTo(InHandle(h), InFlight(t))
    case Overwriting(dst, _, _) => DropIfAny(s, dst)
    case Continue(Install(dst, _, _)) => MoveTo(InFlight(t), InHandle(dst))
    case Continue(Take(dst, src)) => MoveIfAny(s, dst, src)
    case _ => Silent
  }

  function EffectOf<V>(s: State<V>, a: Action<V>): Effect<V>
    requires Enabled(s, a)
  {
    match a
    case Make(_, h, value, _) => New(InHandle(h), value)
    case CopyConstruct(t, _, src) => CopyTo(InHandle(src), InFlight(t))
    case MoveConstruct(_, dst, src) => MoveIfAny(s, dst, src)
    case CopyAssign(t, dst, src) =>
      if s.handles[dst].block == s.handles[src].block then Silent else CopyTo(InHandle(src), InFlight(t))
    case MoveAssign(_, dst, src) => if dst == src then Silent else DropIfAny(s, dst)
    case Destroy(_, h) => DropIfAny(s, h)
    case Write(t, value) => Assign(InHandle(s.threads[t].h), value)
    case Go(t, _) => EffectOfGo(s, t, s.threads[t])
    case _ => Silent
  }

  ghost predicate Backed<V>(s: State<V>) {
    forall x | x in s.refs :: HasElement(s, s.refs[x])
  }

  lemma AllBacked<V(!new)>(s: State<V>)
    requires Inv(s)
    ensures Backed(s)
  {
    forall x | x in s.refs
      ensures HasElement(s, s.refs[x])
    {
      LinkedIsInUse(s, x);
    }
  }

  ghost function ElementAt<V>(s: State<V>, b: BlockId): Option<V> {
    if b in s.blocks then s.blocks[b].element else None
  }

  /** What the step does to the references, and to the elements they lead to. */
  ghost predicate RefStep<V>(s: State<V>, e: Effect<V>, s': State<V>) {
    match e
    case Silent => s'.refs == s.refs
    case New(x, v) =>
      x !in s.refs && x in s'.refs && s'.refs == s.refs[x := s'.refs[x]] && ElementAt(s', s'.refs[x]) == Some(v)
    case CopyTo(x, y) =>
      && x in s.refs && y !in s.refs && y in s'.refs && s'.refs == s.refs[y := s'.refs[y]]
      && ElementAt(s', s'.refs[y]) == ElementAt(s, s.refs[x])
    case MoveTo(x, y) => x in s.refs && y !in s.refs && s'.refs == s.refs[y := s.refs[x]] - {x}
    case Drop(x) => x in s.refs && s'.refs == s.refs - {x}
    case Assign(x, v) => x in s.refs && s'.refs == s.refs && ElementAt(s', s.refs[x]) == Some(v)
  }

  /** No element that is referred to changes, but for one assigned through a sole reference. */
  ghost predicate ElementsKept<V>(s: State<V>, e: Effect<V>, s': State<V>) {
    forall x | x in s.refs && !(e.Assign? && x == e.x) :: ElementAt(s', s.refs[x]) == ElementAt(s, s.refs[x])
  }

  /** An element goes away only when nothing refers to its block. */
  lemma ElementsKeptOnAdvance<V>(s: State<V>, t: Thread, pc: Pc, unused: BlockId)
    requires !pc.Reading? && !pc.Writing? && Backed(s) && unused !in s.blocks
    requires pc.Deleting? ==> forall x | x in s.refs :: s.refs[x] != pc.b
    ensures ElementsKept(s, EffectOfGo(s, t, pc), Advance(s, t, pc, unused))
  {
    match pc
    case Splitting(_) =>
    case Overwriting(_, _, _) =>
    case Deleting(_, _, _) =>
    case Continue(_) =>
  }

  lemma ElementsKeptOnGo<V(!new)>(s: State<V>, a: Action<V>)
    requires Inv(s) && Enabled(s, a) && a.Go?
    ensures ElementsKept(s, EffectOf(s, a), Step(s, a))
  {
    forall x | x in s.refs
      ensures HasElement(s, s.refs[x]) && s.blocks[s.refs[x]].count > 0
    {
      LinkedIsInUse(s, x);
    }
    ElementsKeptOnAdvance(s, a.t, s.threads[a.t], a.unused);
  }

  lemma RefStepOnGo<V(!new)>(s: State<V>, a: Action<V>)
    requires Inv(s) && Enabled(s, a) && a.Go?
    ensures RefStep(s, EffectOf(s, a), Step(s, a))
  {
    var pc := s.threads[a.t];
    assert PcOk(s.handles, a.t, pc) && FlightOk(s.threads, s.refs, a.t);
    match pc
    case Splitting(h) =>
      assert LinkOk(s.handles, s.threads, s.refs, h);
      LinkedIsInUse(s, InHandle(h));
    case Overwriting(dst, _, _) =>
      assert LinkOk(s.handles, s.threads, s.refs, dst);
      if s.handles[dst].block.Some? {
        LinkedIsInUse(s, InHandle(dst));
      }
    case Continue(Install(dst, _, _)) => assert LinkOk(s.handles, s.threads, s.refs, dst);
    case Continue(Take(dst, src)) =>
      assert LinkOk(s.handles, s.threads, s.refs, dst) && LinkOk(s.handles, s.threads, s.refs, src);
    case _ =>
  }

  lemma ElementsKeptOnWrite<V(!new)>(s: State<V>, a: Action<V>)
    requires Inv(s) && Enabled(s, a) && a.Write?
    ensures ElementsKept(s, EffectOf(s, a), Step(s, a))
  {
    var h := s.threads[a.t].h;
    assert PcOk(s.handles, a.t, s.threads[a.t]) && SoleOk(s.refs, a.t, s.threads[a.t]);
    assert LinkOk(s.handles, s.threads, s.refs, h);
    forall x | x in s.refs && s.refs[x] == s.refs[InHandle(h)]
      ensures x == InHandle(h)
    {
      SoleHolder(s.refs, x, InHandle(h));
    }
  }

  lemma ElementsKeptOnCall<V(!new)>(s: State<V>, a: Action<V>)
    requires Backed(s) && Enabled(s, a) && !a.Go? && !a.Write?
    ensures ElementsKept(s, EffectOf(s, a), Step(s, a))
  {
    forall x | x in s.refs
      ensures ElementAt(Step(s, a), s.refs[x]) == ElementAt(s, s.refs[x])
    {
      assert s.refs[x] in s.blocks;
    }
  }

  lemma RefStepOnCopy<V(!new)>(s: State<V>, a: Action<V>)
    requires Enabled(s, a) && (a.CopyConstruct? || a.CopyAssign?)
    requires InHandle(a.src) in s.refs && InFlight(a.t) !in s.refs
    requires s.handles[a.src].block == Some(s.refs[InHandle(a.src)]) && HasElement(s, s.refs[InHandle(a.src)])
    ensures RefStep(s, EffectOf(s, a), Step(s, a))
  {
  }

  lemma RefStepOnMove<V(!new)>(s: State<V>, a: Action<V>)
    requires Enabled(s, a) && (a.MoveConstruct? || a.MoveAssign?)
    requires a.MoveConstruct? ==> LinkOk(s.handles, s.threads, s.refs, a.src) && InHandle(a.dst) !in s.refs
    requires a.MoveAssign? && s.handles[a.dst].block.Some? ==>
               InHandle(a.dst) in s.refs && IsAlive(s, s.handles[a.dst].block.value)
    ensures RefStep(s, EffectOf(s, a), Step(s, a))
  {
  }

  lemma RefStepOnDestroy<V(!new)>(s: State<V>, a: Action<V>)
    requires Enabled(s, a) && a.Destroy?
    requires s.handles[a.h].block.Some? ==> InHandle(a.h) in s.refs && IsAlive(s, s.handles[a.h].block.value)
    ensures RefStep(s, EffectOf(s, a), Step(s, a))
  {
  }

  lemma RefStepOnWrite<V(!new)>(s: State<V>, a: Action<V>)
    requires Enabled(s, a) && a.Write?
    requires var x := InHandle(s.threads[a.t].h);
             x in s.refs && BlockOf(s, x.h) == Some(s.refs[x]) && HasElement(s, s.refs[x])
    ensures RefStep(s, EffectOf(s, a), Step(s, a))
  {
  }

  lemma RefStepOnUse<V(!new)>(s: State<V>, a: Action<V>)
    requires Enabled(s, a) && (a.Make? || a.Give? || a.Unique? || a.Read? || a.Finish?)
    requires a.Make? ==> InHandle(a.h) !in s.refs
    ensures RefStep(s, EffectOf(s, a), Step(s, a))
  {
  }

  lemma RefStepOnCall<V(!new)>(s: State<V>, a: Action<V>)
    requires Inv(s) && Enabled(s, a) && !a.Go?
    ensures RefStep(s, EffectOf(s, a), Step(s, a))
  {
    assert FlightOk(s.threads, s.refs, a.t);
    if a.CopyConstruct? || a.CopyAssign? {
      IdleIsLinked(s, a.t, a.src);
      RefStepOnCopy(s, a);
    } else if a.MoveConstruct? || a.MoveAssign? {
      assert LinkOk(s.handles, s.threads, s.refs, a.src);
      if a.MoveAssign? && s.handles[a.dst].block.Some? {
        IdleIsLinked(s, a.t, a.dst);
      }
      RefStepOnMove(s, a);
    } else if a.Destroy? {
      if s.handles[a.h].block.Some? {
        IdleIsLinked(s, a.t, a.h);
      }
      RefStepOnDestroy(s, a);
    } else if a.Write? {
      var h := s.threads[a.t].h;
      assert PcOk(s.handles, a.t, s.threads[a.t]) && LinkOk(s.handles, s.threads, s.refs, h);
      LinkedIsInUse(s, InHandle(h));
      RefStepOnWrite(s, a);
    } else {
      RefStepOnUse(s, a);
    }
  }

  lemma StepIsEffect<V(!new)>(s: State<V>, a: Action<V>)
    requires Inv(s) && Enabled(s, a)
    ensures RefStep(s, EffectOf(s, a), Step(s, a)) && ElementsKept(s, EffectOf(s, a), Step(s, a))
  {
    AllBacked(s);
    if a.Go? {
      RefStepOnGo(s, a);
      ElementsKeptOnGo(s, a);
    } else {
      RefStepOnCall(s, a);
      if a.Write? {
        ElementsKeptOnWrite(s, a);
      } else {
        ElementsKeptOnCall(s, a);
      }
    }
  }

  /** The thread whose references the slot holds. */
  function OwnerOf<V>(s: State<V>, x: Slot): Option<Thread> {
    match x
    case InFlight(t) => Some(t)
    case InHandle(h) => if h in s.handles then Some(s.handles[h].owner) else None
  }

  predicate Concerns<V>(e: Effect<V>, x: Slot) {
    match e
    case Silent => false
    case New(y, _) => x == y
    case CopyTo(_, y) => x == y
    case MoveTo(y, z) => x == y || x == z
    case Drop(y) => x == y
    case Assign(y, _) => x == y
  }

  lemma EffectsAreOwn<V(!new)>(s: State<V>, a: Action<V>, x: Slot)
    requires Inv(s) && Enabled(s, a) && Concerns(EffectOf(s, a), x)
    ensures OwnerOf(s, x) == Some(a.t) || OwnerOf(s, x).None?
  {
  }

  // ---------- operations take effect at once ----------

  /** The slot that holds the value of `h` while its thread is about to do `next`. */
  function CarrierBefore(next: Next, t: Thread, h: Handle): Option<Slot> {
    match next
    case Nothing => Some(InHandle(h))
    case Install(dst, _, _) => Some(if dst == h then InFlight(t) else InHandle(h))
    case Take(dst, src) => if h == dst then Some(InHandle(src)) else if h == src then None else Some(InHandle(h))
  }

  /** The slot that holds the value of `h`: its own, or the one that is going to be moved to it. */
  function Carrier(threads: map<Thread, Pc>, t: Thread, h: Handle): Option<Slot> {
    if t !in threads then Some(InHandle(h))
    else
      match threads[t]
      case Overwriting(dst, _, _) => Some(if dst == h then InFlight(t) else InHandle(h))
      case Deleting(_, _, next) => CarrierBefore(next, t, h)
      case Continue(next) => CarrierBefore(next, t, h)
      case _ => Some(InHandle(h))
  }

  ghost function SlotValue<V>(s: State<V>, x: Slot): Option<V> {
    if x in s.refs then ElementAt(s, s.refs[x]) else None
  }

  /** The value that instance `h` stands for, if it has one. */
  ghost function Meaning<V>(s: State<V>, h: Handle): Option<V> {
    if h !in s.handles then None
    else
      var carrier := Carrier(s.threads, s.handles[h].owner, h);
      if carrier.Some? then SlotValue(s, carrier.value) else None
  }

  /** What a call does to the values of the instances, at once. */
  ghost function MeaningAfter<V>(s: State<V>, a: Action<V>, h: Handle): Option<V>
    requires Enabled(s, a)
  {
    match a
    case Make(_, dst, value, _) => if h == dst then Some(value) else Meaning(s, h)
    case CopyConstruct(_, dst, src) => Meaning(s, if h == dst then src else h)
    case CopyAssign(_, dst, src) => Meaning(s, if h == dst then src else h)
    case MoveConstruct(_, dst, src) => if h == src then None else Meaning(s, if h == dst then src else h)
    case MoveAssign(_, dst, src) => if h == src != dst then None else Meaning(s, if h == dst then src else h)
    case Destroy(_, dst) => if h == dst then None else Meaning(s, h)
    case Write(t, value) => if h == s.threads[t].h then Some(value) else Meaning(s, h)
    case _ => Meaning(s, h)
  }

  /** What the effect of a step does to the value of a slot. */
  ghost function SlotAfter<V>(s: State<V>, e: Effect<V>, x: Slot): Option<V> {
    match e
    case Silent => SlotValue(s, x)
    case New(y, v) => if x == y then Some(v) else SlotValue(s, x)
    case CopyTo(y, z) => SlotValue(s, if x == z then y else x)
    case MoveTo(y, z) => if x == y then None else SlotValue(s, if x == z then y else x)
    case Drop(y) => if x == y then None else SlotValue(s, x)
    case Assign(y, v) => if x == y then Some(v) else SlotValue(s, x)
  }

  lemma SlotFollows<V>(s: State<V>, e: Effect<V>, s': State<V>, x: Slot)
    requires RefStep(s, e, s') && ElementsKept(s, e, s')
    ensures SlotValue(s', x) == SlotAfter(s, e, x)
  {
  }

  lemma SlotStep<V(!new)>(s: State<V>, a: Action<V>, x: Slot)
    requires Inv(s) && Enabled(s, a)
    ensures SlotValue(Step(s, a), x) == SlotAfter(s, EffectOf(s, a), x)
  {
    StepIsEffect(s, a);
    SlotFollows(s, EffectOf(s, a), Step(s, a), x);
  }

  lemma InstancesStayOnGo<V>(s: State<V>, t: Thread, pc: Pc, unused: BlockId, h: Handle)
    requires !pc.Reading? && !pc.Writing? && PcOk(s.handles, t, pc) && h in s.handles && s.handles[h].owner != t
    ensures var handles := Advance(s, t, pc, unused).handles;
            h in handles && handles[h] == s.handles[h]
  {
    match pc
    case Splitting(_) =>
    case Overwriting(_, _, _) =>
    case Deleting(_, _, _) =>
    case Continue(Nothing) =>
    case Continue(Install(_, _, _)) =>
    case Continue(Take(_, _)) =>
  }

  /** And their instances. */
  lemma InstancesStay<V(!new)>(s: State<V>, a: Action<V>, h: Handle)
    requires Enabled(s, a) && h in s.handles && s.handles[h].owner != a.t
    requires a.Go? ==> PcOk(s.handles, a.t, s.threads[a.t])
    ensures h in Step(s, a).handles && Step(s, a).handles[h] == s.handles[h]
  {
    if a.Go? {
      InstancesStayOnGo(s, a.t, s.threads[a.t], a.unused, h);
    }
  }

  /** An instance's value is held by a slot of its own thread. */
  lemma CarrierIsOwn<V(!new)>(s: State<V>, h: Handle)
    requires Inv(s) && h in s.handles
    ensures var x := Carrier(s.threads, s.handles[h].owner, h);
            x.Some? ==> OwnerOf(s, x.value) == Some(s.handles[h].owner)
  {
    var t := s.handles[h].owner;
    if t in s.threads {
      assert PcOk(s.handles, t, s.threads[t]);
    }
  }

  lemma Unconcerned<V>(s: State<V>, e: Effect<V>, x: Slot)
    requires !Concerns(e, x)
    ensures SlotAfter(s, e, x) == SlotValue(s, x)
  {
  }

  lemma SlotOfOthers<V(!new)>(s: State<V>, a: Action<V>, x: Slot)
    requires Inv(s) && Enabled(s, a) && OwnerOf(s, x).Some? && OwnerOf(s, x) != Some(a.t)
    ensures SlotValue(Step(s, a), x) == SlotValue(s, x)
  {
    SlotStep(s, a, x);
    if Concerns(EffectOf(s, a), x) {
      EffectsAreOwn(s, a, x);
    }
    Unconcerned(s, EffectOf(s, a), x);
  }

  /** The value depends on the instance, the state of its thread and the slot that holds it. */
  lemma MeaningIsCarried<V>(s: State<V>, s': State<V>, h: Handle)
    requires h in s.handles && h in s'.handles && s'.handles[h] == s.handles[h]
    requires var t := s.handles[h].owner;
             && (t in s'.threads <==> t in s.threads) && (t in s.threads ==> s'.threads[t] == s.threads[t])
             && var x := Carrier(s.threads, t, h); x.Some? ==> SlotValue(s', x.value) == SlotValue(s, x.value)
    ensures Meaning(s', h) == Meaning(s, h)
  {
    assert Carrier(s'.threads, s.handles[h].owner, h) == Carrier(s.threads, s.handles[h].owner, h);
  }

  /** No step of a thread changes the value of another thread's instance. */
  lemma MeaningOfOthers<V(!new)>(s: State<V>, a: Action<V>, h: Handle)
    requires Inv(s) && Enabled(s, a) && h in s.handles && s.handles[h].owner != a.t
    ensures Meaning(Step(s, a), h) == Meaning(s, h)
  {
    var t := s.handles[h].owner;
    assert a.Go? ==> PcOk(s.handles, a.t, s.threads[a.t]);
    InstancesStay(s, a, h);
    ThreadsStay(s, a, t);
    CarrierIsOwn(s, h);
    var x := Carrier(s.threads, t, h);
    if x.Some? {
      SlotOfOthers(s, a, x.value);
    }
    MeaningIsCarried(s, Step(s, a), h);
  }

  /** The value of `h` after a step with this effect. */
  ghost function NextMeaning<V>(s: State<V>, e: Effect<V>, s': State<V>, h: Handle): Option<V> {
    if h !in s'.handles then None
    else
      var carrier := Carrier(s'.threads, s'.handles[h].owner, h);
      if carrier.Some? then SlotAfter(s, e, carrier.value) else None
  }

  lemma MeaningFollows<V(!new)>(s: State<V>, a: Action<V>, h: Handle)
    requires Inv(s) && Enabled(s, a)
    ensures Meaning(Step(s, a), h) == NextMeaning(s, EffectOf(s, a), Step(s, a), h)
  {
    if h in Step(s, a).handles {
      var x := Carrier(Step(s, a).threads, Step(s, a).handles[h].owner, h);
      if x.Some? {
        SlotStep(s, a, x.value);
      }
    }
  }

  lemma CarriesOnInstall<V>(s: State<V>, t: Thread, pc: Pc, unused: BlockId, h: Handle)
    requires t in s.threads && s.threads[t] == pc && pc.Continue? && pc.next.Install?
    requires h in s.handles && s.handles[h].owner == t
    ensures NextMeaning(s, EffectOfGo(s, t, pc), Advance(s, t, pc, unused), h) == Meaning(s, h)
  {
  }

  lemma CarriesOnTake<V>(s: State<V>, t: Thread, pc: Pc, unused: BlockId, h: Handle)
    requires t in s.threads && s.threads[t] == pc && pc.Continue? && pc.next.Take?
    requires h in s.handles && s.handles[h].owner == t && PcOk(s.handles, t, pc)
    requires LinkOk(s.handles, s.threads, s.refs, pc.next.src) && LinkOk(s.handles, s.threads, s.refs, pc.next.dst)
    ensures NextMeaning(s, EffectOfGo(s, t, pc), Advance(s, t, pc, unused), h) == Meaning(s, h)
  {
  }

  lemma CarriesOnOther<V>(s: State<V>, t: Thread, pc: Pc, unused: BlockId, h: Handle)
    requires t in s.threads && s.threads[t] == pc && !pc.Reading? && !pc.Writing?
    requires pc.Continue? ==> pc.next.Nothing?
    requires h in s.handles && s.handles[h].owner == t
    requires FlightOk(s.threads, s.refs, t) && !Advance(s, t, pc, unused).faulted
    ensures NextMeaning(s, EffectOfGo(s, t, pc), Advance(s, t, pc, unused), h) == Meaning(s, h)
  {
    match pc
    case Splitting(_) =>
    case Overwriting(_, _, _) =>
    case Deleting(_, _, _) =>
    case Continue(_) =>
  }

  lemma MeaningOnGo<V(!new)>(s: State<V>, a: Action<V>, h: Handle)
    requires Inv(s) && Enabled(s, a) && a.Go? && h in s.handles && s.handles[h].owner == a.t
    requires !Step(s, a).faulted
    ensures NextMeaning(s, EffectOf(s, a), Step(s, a), h) == Meaning(s, h)
  {
    var pc := s.threads[a.t];
    assert PcOk(s.handles, a.t, pc) && FlightOk(s.threads, s.refs, a.t);
    if pc.Continue? && pc.next.Install? {
      CarriesOnInstall(s, a.t, pc, a.unused, h);
    } else if pc.Continue? && pc.next.Take? {
      CarriesOnTake(s, a.t, pc, a.unused, h);
    } else {
      CarriesOnOther(s, a.t, pc, a.unused, h);
    }
  }

  lemma CarriesOnConstruct<V(!new)>(s: State<V>, a: Action<V>, h: Handle)
    requires Enabled(s, a) && (a.Make? || a.CopyConstruct? || a.MoveConstruct?)
    requires h in s.handles ==> s.handles[h].owner == a.t
    requires a.MoveConstruct? ==> LinkOk(s.handles, s.threads, s.refs, a.src) && InHandle(a.dst) !in s.refs
    requires !Step(s, a).faulted
    ensures NextMeaning(s, EffectOf(s, a), Step(s, a), h) == MeaningAfter(s, a, h)
  {
  }

  lemma CarriesOnCopyAssign<V(!new)>(s: State<V>, a: Action<V>, h: Handle)
    requires Enabled(s, a) && a.CopyAssign? && !Step(s, a).faulted
    requires h in s.handles ==> s.handles[h].owner == a.t
    requires LinkOk(s.handles, s.threads, s.refs, a.src) && LinkOk(s.handles, s.threads, s.refs, a.dst)
    ensures NextMeaning(s, EffectOf(s, a), Step(s, a), h) == MeaningAfter(s, a, h)
  {
  }

  lemma CarriesOnMoveAssign<V(!new)>(s: State<V>, a: Action<V>, h: Handle)
    requires Enabled(s, a) && a.MoveAssign? && !Step(s, a).faulted
    requires h in s.handles ==> s.handles[h].owner == a.t
    requires LinkOk(s.handles, s.threads, s.refs, a.src) && LinkOk(s.handles, s.threads, s.refs, a.dst)
    ensures NextMeaning(s, EffectOf(s, a), Step(s, a), h) == MeaningAfter(s, a, h)
  {
  }

  lemma CarriesOnDestroy<V(!new)>(s: State<V>, a: Action<V>, h: Handle)
    requires Enabled(s, a) && a.Destroy? && !Step(s, a).faulted
    requires h in s.handles ==> s.handles[h].owner == a.t
    ensures NextMeaning(s, EffectOf(s, a), Step(s, a), h) == MeaningAfter(s, a, h)
  {
  }

  lemma CarriesOnGive<V(!new)>(s: State<V>, a: Action<V>, h: Handle)
    requires Enabled(s, a) && a.Give?
    requires h in s.handles ==> s.handles[h].owner == a.t
    requires a.to in s.threads ==> PcOk(s.handles, a.to, s.threads[a.to])
    ensures NextMeaning(s, EffectOf(s, a), Step(s, a), h) == MeaningAfter(s, a, h)
  {
  }

  lemma CarriesOnWrite<V(!new)>(s: State<V>, a: Action<V>, h: Handle)
    requires Enabled(s, a) && a.Write? && !Step(s, a).faulted
    requires h in s.handles ==> s.handles[h].owner == a.t
    requires s.threads[a.t].h in s.handles
    ensures NextMeaning(s, EffectOf(s, a), Step(s, a), h) == MeaningAfter(s, a, h)
  {
  }

  lemma CarriesOnUse<V(!new)>(s: State<V>, a: Action<V>, h: Handle)
    requires Enabled(s, a) && (a.Unique? || a.Read? || a.Finish?) && !Step(s, a).faulted
    requires h in s.handles ==> s.handles[h].owner == a.t
    ensures NextMeaning(s, EffectOf(s, a), Step(s, a), h) == MeaningAfter(s, a, h)
  {
  }

  /** A call does not concern the instances of other threads. */
  lemma ForeignMeaning<V(!new)>(s: State<V>, a: Action<V>, h: Handle)
    requires Inv(s) && Enabled(s, a) && h in s.handles && s.handles[h].owner != a.t
    ensures MeaningAfter(s, a, h) == Meaning(s, h)
  {
    if a.Write? {
      assert PcOk(s.handles, a.t, s.threads[a.t]);
    }
  }

  lemma GoIsSilent<V(!new)>(s: State<V>, a: Action<V>, h: Handle)
    requires Inv(s) && Enabled(s, a) && a.Go? && !Step(s, a).faulted
    requires h in s.handles ==> s.handles[h].owner == a.t
    ensures NextMeaning(s, EffectOf(s, a), Step(s, a), h) == Meaning(s, h)
  {
    if h in s.handles {
      MeaningOnGo(s, a, h);
    } else {
      assert PcOk(s.handles, a.t, s.threads[a.t]);
    }
  }

  /** Every call takes effect on the values of the instances at its first step, as if copies were
      made there and then; none of the steps that follow, and nothing other threads do in between,
      is visible in any value. */
  lemma CallsAreAtomic<V(!new)>(s: State<V>, a: Action<V>, h: Handle)
    requires Inv(s) && Enabled(s, a) && InRange(Step(s, a))
    ensures Meaning(Step(s, a), h) == MeaningAfter(s, a, h)
  {
    StepKeeps(s, a);
    MeaningFollows(s, a, h);
    if h in s.handles && s.handles[h].owner != a.t {
      MeaningOfOthers(s, a, h);
      ForeignMeaning(s, a, h);
    } else if a.Go? {
      GoIsSilent(s, a, h);
    } else {
      assert a.MoveConstruct? ==> InHandle(a.dst) !in s.refs;
      if a.Make? || a.CopyConstruct? || a.MoveConstruct? {
        CarriesOnConstruct(s, a, h);
      } else if a.CopyAssign? {
        CarriesOnCopyAssign(s, a, h);
      } else if a.MoveAssign? {
        CarriesOnMoveAssign(s, a, h);
      } else if a.Destroy? {
        CarriesOnDestroy(s, a, h);
      } else if a.Give? {
        assert a.to in s.threads ==> PcOk(s.handles, a.to, s.threads[a.to]);
        CarriesOnGive(s, a, h);
      } else if a.Write? {
        assert PcOk(s.handles, a.t, s.threads[a.t]);
        CarriesOnWrite(s, a, h);
      } else {
        CarriesOnUse(s, a, h);
      }
    }
  }

  lemma NextIsAtomic<V(!new)>(states: seq<State<V>>, actions: seq<Action<V>>, i: nat, h: Handle)
    requires i < |actions| && |states| == |actions| + 1 && StepAt(states, actions, i) && Inv(states[i])
    ensures Meaning(states[i + 1], h) == MeaningAfter(states[i], actions[i], h)
  {
    CallsAreAtomic(states[i], actions[i], h);
  }

  /** Every run, however its steps interleave, is a run of atomic calls on private values. */
  lemma EveryRunIsAtomic<V(!new)>(states: seq<State<V>>, actions: seq<Action<V>>, i: nat, h: Handle)
    requires IsRun(states, actions) && i < |actions|
    ensures StepAt(states, actions, i)
    ensures Meaning(states[i + 1], h) == MeaningAfter(states[i], actions[i], h)
  {
    EveryRunKeeps(states, actions, i);
    NextIsAtomic(states, actions, i, h);
  }

  /** The element that a thread reads or writes, or leaves behind in an instance, is the value that
      the instance stands for. */
  lemma PointersShowMeaning<V(!new)>(s: State<V>, h: Handle)
    requires Inv(s) && h in s.handles
    requires var t := s.handles[h].owner; t in s.threads ==> s.threads[t].Reading? || s.threads[t].Writing?
    ensures s.handles[h].block.Some? ==>
              HasElement(s, s.handles[h].block.value)
              && Meaning(s, h) == s.blocks[s.handles[h].block.value].element
    ensures s.handles[h].block.None? ==> Meaning(s, h).None?
  {
    assert LinkOk(s.handles, s.threads, s.refs, h);
    if s.handles[h].block.Some? {
      LinkedIsInUse(s, InHandle(h));
    }
  }

  // ---------- copies share ----------

  /** About to make `dst` refer to block `b`, which the thread holds a reference to. */
  predicate Sharing(pc: Pc, dst: Handle, b: BlockId) {
    match pc
    case Overwriting(x, y, unique) => x == dst && y == b && !unique
    case Deleting(_, _, Install(x, y, unique)) => x == dst && y == b && !unique
    case Continue(Install(x, y, unique)) => x == dst && y == b && !unique
    case _ => false
  }

  /** The thread is on its way there, or idle again with `dst` referring to the block. */
  predicate ComesToShare(handles: map<Handle, Instance>, threads: map<Thread, Pc>, t: Thread, dst: Handle, b: BlockId) {
    dst in handles && handles[dst].owner == t
    && if t in threads then Sharing(threads[t], dst, b) else handles[dst].block == Some(b)
  }

  lemma ShareComes<V>(s: State<V>, t: Thread, pc: Pc, unused: BlockId, dst: Handle, b: BlockId)
    requires Sharing(pc, dst, b) && !Advance(s, t, pc, unused).faulted && dst in s.handles && s.handles[dst].owner == t
    ensures var s' := Advance(s, t, pc, unused); ComesToShare(s'.handles, s'.threads, t, dst, b)
  {
    match pc
    case Overwriting(_, _, _) =>
    case Deleting(_, _, _) =>
    case Continue(Install(_, _, _)) =>
  }

  lemma NextShares<V(!new)>(states: seq<State<V>>, actions: seq<Action<V>>, i: nat, t: Thread, dst: Handle, b: BlockId)
    requires IsRun(states, actions) && i < |actions|
    requires ComesToShare(states[i].handles, states[i].threads, t, dst, b) && (actions[i].t == t ==> actions[i].Go?)
    ensures ComesToShare(states[i + 1].handles, states[i + 1].threads, t, dst, b)
  {
    EveryRunKeeps(states, actions, i);
    EveryRunKeeps(states, actions, i + 1);
    var s, a := states[i], actions[i];
    assert StepAt(states, actions, i);
    if a.t == t {
      ShareComes(s, t, s.threads[t], a.unused, dst, b);
    } else {
      assert a.Go? ==> PcOk(s.handles, a.t, s.threads[a.t]);
      ThreadsStay(s, a, t);
      InstancesStay(s, a, dst);
    }
  }

  lemma {:induction false} KeepsSharing<V(!new)>(states: seq<State<V>>, actions: seq<Action<V>>, t: Thread,
                                                 dst: Handle, b: BlockId, i: nat, k: nat)
    requires IsRun(states, actions) && i <= k <= |actions|
    requires ComesToShare(states[i].handles, states[i].threads, t, dst, b)
    requires forall j | i <= j < k && actions[j].t == t :: actions[j].Go?
    ensures ComesToShare(states[k].handles, states[k].threads, t, dst, b)
  {
    if i < k {
      KeepsSharing(states, actions, t, dst, b, i, k - 1);
      NextShares(states, actions, k - 1, t, dst, b);
    }
  }

  lemma CopyBegins<V(!new)>(s: State<V>, a: Action<V>)
    requires Inv(s) && Enabled(s, a) && (a.CopyConstruct? || a.CopyAssign?)
    ensures var s' := Step(s, a); ComesToShare(s'.handles, s'.threads, a.t, a.dst, s.handles[a.src].block.value)
  {
    IdleIsLinked(s, a.t, a.src);
  }

  /** A copy construction or assignment shares: after at most four more steps of its own thread the operation
      is over, and the target refers to the very block that the source referred to when it began. */
  lemma CopiesShare<V(!new)>(states: seq<State<V>>, actions: seq<Action<V>>, i: nat, k: nat)
    requires IsRun(states, actions) && i < k <= |actions| && (actions[i].CopyConstruct? || actions[i].CopyAssign?)
    requires forall j | i < j < k && actions[j].t == actions[i].t :: actions[j].Go?
    ensures var t, dst, src := actions[i].t, actions[i].dst, actions[i].src;
            && OwnsBlock(states[i], t, src)
            && dst in states[k].handles && states[k].handles[dst].owner == t
            && (OwnSteps(actions, t, i + 1, k) >= 4 ==> t !in states[k].threads)
            && (t !in states[k].threads ==> states[k].handles[dst].block == states[i].handles[src].block)
  {
    var t, dst, src := actions[i].t, actions[i].dst, actions[i].src;
    EveryRunKeeps(states, actions, i);
    assert StepAt(states, actions, i);
    CopyBegins(states[i], actions[i]);
    KeepsSharing(states, actions, t, dst, states[i].handles[src].block.value, i + 1, k);
    OperationsEnd(states, actions, t, i + 1, k);
  }

  // ---------- every run can come to rest ----------

  /** Steps that only finish operations in progress. */
  ghost predicate Finishes<V(!new)>(states: seq<State<V>>, actions: seq<Action<V>>) {
    && |states| == |actions| + 1
    && forall i | 0 <= i < |actions| :: (actions[i].Go? || actions[i].Finish?) && StepAt(states, actions, i)
  }

  lemma CopiesArePrivate<V(!new)>(s: State<V>, a: Action<V>)
    requires Inv(s) && Enabled(s, a) && a.Go?
    ensures var e := EffectOf(s, a);
            !e.New? && (e.CopyTo? ==> Step(s, a).refs == s.refs[e.target := a.unused] && Count(s.refs, a.unused) == 0)
  {
    assert PcOk(s.handles, a.t, s.threads[a.t]);
    if s.threads[a.t].Splitting? {
      var h := s.threads[a.t].h;
      assert LinkOk(s.handles, s.threads, s.refs, h);
      LinkedIsInUse(s, InHandle(h));
      assert Holders(s.refs, a.unused) == {};
    }
  }

  lemma CountAfter<V>(s: State<V>, e: Effect<V>, s': State<V>, unused: BlockId, b: BlockId)
    requires InRange(s) && RefStep(s, e, s') && !e.New?
    requires e.CopyTo? ==> s'.refs == s.refs[e.target := unused] && Count(s.refs, unused) == 0
    ensures Count(s'.refs, b) < COUNT_RANGE
  {
    assert Count(s.refs, b) < COUNT_RANGE;
    match e
    case CopyTo(_, y) => CountAdd(s.refs, y, unused, b);
    case MoveTo(x, y) => CountMove(s.refs, x, y, b);
    case Drop(x) => CountDrop(s.refs, x, b);
    case _ =>
  }

  /** Finishing an operation takes a reference only to a private copy, so no counter can run out. */
  lemma FinishingStaysInRange<V(!new)>(s: State<V>, a: Action<V>)
    requires Inv(s) && InRange(s) && Enabled(s, a) && (a.Go? || a.Finish?)
    ensures InRange(Step(s, a))
  {
    if a.Go? {
      RefStepOnGo(s, a);
      CopiesArePrivate(s, a);
      forall b
        ensures Count(Step(s, a).refs, b) < COUNT_RANGE
      {
        CountAfter(s, EffectOf(s, a), Step(s, a), a.unused, b);
      }
    }
  }

  lemma {:induction false} Above(s: set<nat>) returns (b: nat)
    ensures forall x | x in s :: x < b
  {
    if s == {} {
      b := 0;
    } else {
      var x :| x in s;
      b := Above(s - {x});
      if b <= x {
        b := x + 1;
      }
      forall y | y in s
        ensures y < b
      {
        assert y == x || y in s - {x};
      }
    }
  }

  lemma Unused<V>(blocks: map<BlockId, Block<V>>) returns (b: BlockId)
    ensures b !in blocks
  {
    b := Above(blocks.Keys);
  }

  lemma OnlyThreads<V(!new)>(s: State<V>, a: Action<V>)
    requires Enabled(s, a) && a.t in s.threads
    ensures Step(s, a).threads.Keys <= s.threads.Keys
  {
    forall u | u in Step(s, a).threads
      ensures u in s.threads
    {
      if u != a.t {
        ThreadsStay(s, a, u);
      }
    }
  }

  lemma OneMoreStep<V(!new)>(s: State<V>, t: Thread) returns (a: Action<V>)
    requires Inv(s) && InRange(s) && t in s.threads
    ensures (a.Go? || a.Finish?) && a.t == t && Enabled(s, a)
    ensures IsStep(s, a, Step(s, a)) && Inv(Step(s, a))
    ensures t !in Step(s, a).threads || StepsLeft(Step(s, a).threads[t]) < StepsLeft(s.threads[t])
    ensures Step(s, a).threads.Keys <= s.threads.Keys
  {
    if s.threads[t].Reading? || s.threads[t].Writing? {
      a := Finish(t);
      FinishKeeps(s, t);
    } else {
      var b := Unused(s.blocks);
      a := Go(t, b);
      AdvanceKeeps(s, a);
      GoAdvances(s, t, s.threads[t], b);
    }
    FinishingStaysInRange(s, a);
    OnlyThreads(s, a);
  }

  /** The operations in progress can be finished one after the other, without starting any. */
  lemma {:induction false} ComesToRest<V(!new)>(s: State<V>) returns (states: seq<State<V>>, actions: seq<Action<V>>)
    requires Inv(s) && InRange(s)
    ensures Finishes(states, actions) && states[0] == s
    ensures Inv(states[|actions|]) && states[|actions|].threads == map[]
    decreases s.threads.Keys, 1, 0, 0
  {
    if s.threads == map[] {
      states, actions := [s], [];
    } else {
      var t :| t in s.threads;
      states, actions := RestsAfter(s, t);
    }
  }

  lemma Prepended<V(!new)>(s: State<V>, a: Action<V>, rest: seq<State<V>>, more: seq<Action<V>>)
    requires Finishes(rest, more) && (a.Go? || a.Finish?) && IsStep(s, a, rest[0])
    ensures Finishes([s] + rest, [a] + more)
    ensures ([s] + rest)[|more| + 1] == rest[|more|]
  {
    forall i | 0 <= i < |more| + 1
      ensures StepAt([s] + rest, [a] + more, i)
    {
      if i > 0 {
        assert StepAt(rest, more, i - 1);
      }
    }
  }

  lemma {:induction false} RestsAfter<V(!new)>(s: State<V>, t: Thread)
    returns (states: seq<State<V>>, actions: seq<Action<V>>)
    requires Inv(s) && InRange(s) && t in s.threads
    ensures Finishes(states, actions) && states[0] == s
    ensures Inv(states[|actions|]) && states[|actions|].threads == map[]
    decreases s.threads.Keys, 0, StepsLeft(s.threads[t]), 1
  {
    var a := OneMoreStep(s, t);
    var rest, more := RestsNext(s, t, Step(s, a));
    states, actions := [s] + rest, [a] + more;
    Prepended(s, a, rest, more);
  }

  lemma RestsNext<V(!new)>(s: State<V>, t: Thread, next: State<V>)
    returns (states: seq<State<V>>, actions: seq<Action<V>>)
    requires t in s.threads && Inv(next) && InRange(next) && next.threads.Keys <= s.threads.Keys
    requires t !in next.threads || StepsLeft(next.threads[t]) < StepsLeft(s.threads[t])
    ensures Finishes(states, actions) && states[0] == next
    ensures Inv(states[|actions|]) && states[|actions|].threads == map[]
    decreases s.threads.Keys, 0, StepsLeft(s.threads[t]), 0
  {
    if t in next.threads {
      states, actions := RestsAfter(next, t);
    } else {
      states, actions := ComesToRest(next);
    }
  }

  lemma StepJoined<V(!new)>(states: seq<State<V>>, actions: seq<Action<V>>, rest: seq<State<V>>, last: seq<Action<V>>,
                            i: nat)
    requires |states| == |actions| + 1 && |rest| == |last| + 1 && rest[0] == states[|actions|] && i < |actions| + |last|
    requires if i < |actions| then StepAt(states, actions, i) else StepAt(rest, last, i - |actions|)
    ensures StepAt(states + rest[1..], actions + last, i)
  {
    var n, longer := |actions|, states + rest[1..];
    if i < n {
      assert longer[i] == states[i] && longer[i + 1] == states[i + 1];
    } else {
      assert longer[i] == rest[i - n] && longer[i + 1] == rest[i - n + 1];
    }
  }

  lemma RunsAreInRange<V(!new)>(states: seq<State<V>>, actions: seq<Action<V>>)
    requires IsRun(states, actions)
    ensures InRange(states[|actions|])
  {
    if actions == [] {
      assert forall b :: Holders(map[], b) == {};
    } else {
      assert StepAt(states, actions, |actions| - 1);
    }
  }

  /** Every run can be continued, by steps that only finish operations, to one that ends with no
      operation in progress; nothing is leaked then. */
  lemma EveryRunCanRest<V(!new)>(states: seq<State<V>>, actions: seq<Action<V>>)
    returns (longer: seq<State<V>>, more: seq<Action<V>>)
    requires IsRun(states, actions)
    ensures IsRun(longer, more) && states <= longer && actions <= more
    ensures forall i | |actions| <= i < |more| :: more[i].Go? || more[i].Finish?
    ensures Inv(longer[|more|]) && longer[|more|].threads == map[]
  {
    var n := |actions|;
    EveryRunKeeps(states, actions, n);
    RunsAreInRange(states, actions);
    var rest, last := ComesToRest(states[n]);
    longer, more := states + rest[1..], actions + last;
    forall i | 0 <= i < |more|
      ensures StepAt(longer, more, i)
    {
      StepJoined(states, actions, rest, last, i);
    }
    assert longer[|more|] == rest[|last|];
  }
}
