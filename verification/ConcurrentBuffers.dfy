/** Byte buffers used by many threads at once: distinct buffers that share blocks through the concurrent
    copy-on-write protocol. The atomic steps of the protocol interleave freely; a step here is one of
    them, or the use that a thread makes of the pointer it got. */
module ConcurrentBuffers {
  import opened BufferModel
  import Cow = CowProtocol
  import Eager = EagerModel
  import opened Options
  import opened Sizes
  import opened Storage

  type Thread = Cow.Thread

  type Handle = Cow.Handle

  datatype Cursors = Cursors(reader: Size, writer: Size)

  /** The cursors belong to the buffers themselves, and are not shared. `failed` is set by a cursor
      assertion. */
  datatype State = State(cow: Cow.State<Memory>, cursors: map<Handle, Cursors>, failed: bool)

  datatype Action =
    | Protocol(step: Cow.Action<Memory>)
    | SetBytes(t: Thread, source: Memory, growth: Memory)  // the rest of writeBytes after unique()
    | MoveToFront(t: Thread)                               // the rest of discardReadBytes after unique()
    | TakeBytes(t: Thread, destination: bool, size: Size)  // the rest of readBytes or readString after read()
    | Skip(t: Thread, h: Handle, size: Size)
    | Clear(t: Thread, h: Handle)                          // also discardReadBytes with nothing left to read

  function Initial(): State {
    State(Cow.Initial(), map[], false)
  }

  // ---------- steps ----------

  /** What the pointer of `h` leads to. */
  function MemoryOf(s: State, h: Handle): Memory {
    var b := Cow.BlockOf(s.cow, h);
    if b.Some? && Cow.HasElement(s.cow, b.value) then s.cow.blocks[b.value].element.value else None
  }

  /** The buffer as its own thread sees it. */
  function Local(s: State, h: Handle): Buffer {
    var c := if h in s.cursors then s.cursors[h] else Cursors(0, 0);
    Buffer(c.reader, c.writer, MemoryOf(s, h))
  }

  predicate Writing(s: State, t: Thread) {
    t in s.cow.threads && s.cow.threads[t].Writing? && s.cow.threads[t].h in s.cursors
  }

  predicate Reading(s: State, t: Thread) {
    t in s.cow.threads && s.cow.threads[t].Reading? && s.cow.threads[t].h in s.cursors
  }

  predicate Idle(s: State, t: Thread, h: Handle) {
    t !in s.cow.threads && Cow.OwnsBlock(s.cow, t, h) && h in s.cursors
  }

  /** The threads keep to the protocol, which hands out what they use here, and a fresh block is one that
      an allocator may return. */
  ghost predicate Enabled(s: State, a: Action) {
    match a
    case Protocol(step) =>
      Cow.Enabled(s.cow, step) && !step.Write? && (step.Make? ==> IsBlock(step.value))
    case SetBytes(t, source, growth) =>
      && Writing(s, t)
      && CanAppend(Local(s, s.cow.threads[t].h), source, growth)
    case MoveToFront(t) =>
      Writing(s, t) && var b := Local(s, s.cow.threads[t].h); b.Valid() && Moves(ShapeOf(b))
    case TakeBytes(t, _, _) => Reading(s, t) && Local(s, s.cow.threads[t].h).Valid()
    case Skip(t, h, _) => Idle(s, t, h)
    case Clear(t, h) => Idle(s, t, h)
  }

  /** The cursors are copied and moved along with the handle. */
  function CursorsAfter(cursors: map<Handle, Cursors>, step: Cow.Action<Memory>): map<Handle, Cursors> {
    match step
    case Make(_, h, _, _) => cursors[h := Cursors(0, 0)]
    case CopyConstruct(_, dst, src) => if src in cursors then cursors[dst := cursors[src]] else cursors
    case MoveConstruct(_, dst, src) => if src in cursors then cursors[dst := cursors[src]] else cursors
    case CopyAssign(_, dst, src) => if src in cursors then cursors[dst := cursors[src]] else cursors
    case MoveAssign(_, dst, src) => if src in cursors then cursors[dst := cursors[src]] else cursors
    case Destroy(_, h) => cursors - {h}
    case _ => cursors
  }

  /** The bytes that `copyBytesTo` or the string constructor take from a block. */
  function BytesTaken(b: Buffer, destination: bool, size: Size): seq<byte>
    requires CapacityOf(b.memory) <= SIZE_MAX
  {
    var count := MinimumOf(size, b.ReadableBytes());
    if count == 0 || !destination || b.memory.None? || b.readerIndex >= |b.memory.value| then []
    else b.memory.value[b.readerIndex..b.readerIndex + MinimumOf(count, |b.memory.value| - b.readerIndex)]
  }

  /** A thread has written through its pointer, and set the cursors. */
  function Stored(s: State, t: Thread, b: Buffer, ok: bool): State
    requires Writing(s, t)
  {
    State(Cow.Step(s.cow, Cow.Write(t, b.memory)),
          s.cursors[s.cow.threads[t].h := Cursors(b.readerIndex, b.writerIndex)], s.failed || !ok)
  }

  /** The step, and what the call reports in it. */
  ghost function Step(s: State, a: Action): (State, Eager.Reply)
    requires Enabled(s, a)
  {
    match a
    case Protocol(step) => (s.(cow := Cow.Step(s.cow, step), cursors := CursorsAfter(s.cursors, step)), Eager.Nothing)
    case SetBytes(t, source, growth) =>
      var h := s.cow.threads[t].h;
      var (b, outcome) := AppendEffect(Local(s, h), source, growth);
      (Stored(s, t, b, outcome.Done?), Eager.Moved(if outcome.Done? then outcome.value else 0))
    case MoveToFront(t) =>
      var h := s.cow.threads[t].h;
      (Stored(s, t, DiscardEffect(Local(s, h), false, Answers(true, None)).0, true), Eager.Nothing)
    case TakeBytes(t, destination, size) =>
      var h := s.cow.threads[t].h;
      var read := BytesTaken(Local(s, h), destination, size);
      var index := WrappingAdd(s.cursors[h].reader, if |read| <= SIZE_MAX then |read| else 0);
      (s.(cursors := s.cursors[h := s.cursors[h].(reader := index)], failed := s.failed || index > s.cursors[h].writer),
       Eager.Bytes(read))
    case Skip(t, h, size) =>
      var count := MinimumOf(size, Local(s, h).ReadableBytes());
      var index := WrappingAdd(s.cursors[h].reader, count);
      (s.(cursors := s.cursors[h := s.cursors[h].(reader := index)], failed := s.failed || index > s.cursors[h].writer),
       Eager.Moved(count))
    case Clear(t, h) => (s.(cursors := s.cursors[h := Cursors(0, 0)]), Eager.Nothing)
  }

  // ---------- what the buffers stand for ----------

  function BufferWith(memory: Option<Memory>, cursors: map<Handle, Cursors>, h: Handle): Option<Buffer> {
    if memory.None? || h !in cursors then None
    else Some(Buffer(cursors[h].reader, cursors[h].writer, memory.value))
  }

  /** The value of a buffer, wherever a step in progress keeps it. */
  ghost function BufferOf(s: State, h: Handle): Option<Buffer> {
    BufferWith(Cow.Meaning(s.cow, h), s.cursors, h)
  }

  ghost predicate IsValid(b: Option<Buffer>) {
    b.Some? ==> b.value.Valid()
  }

  ghost function CellOf(b: Option<Buffer>): Eager.Cell
    requires IsValid(b)
  {
    if b.None? then Eager.MovedFrom else Eager.Live(b.value.Readable())
  }

  /** Every handle has its cursors, and they fit the value of its buffer. */
  ghost predicate Sound(s: State) {
    && !s.failed
    && s.cursors.Keys == s.cow.handles.Keys
    && forall h | h in s.cursors :: IsValid(BufferOf(s, h))
  }

  ghost predicate Inv(s: State) {
    Cow.Inv(s.cow) && Sound(s)
  }

  /** One private queue of bytes per buffer. */
  ghost function ModelOf(s: State): Eager.Model
    requires Sound(s)
  {
    map h | h in s.cursors :: CellOf(BufferOf(s, h))
  }

  /** The command that takes effect in this step, if one does. */
  function CommandOf(s: State, a: Action): Option<Eager.Command> {
    match a
    case Protocol(Make(_, h, value, _)) => Some(Eager.Make(h, 0))
    case Protocol(CopyConstruct(_, dst, src)) => Some(Eager.Copy(dst, src))
    case Protocol(MoveConstruct(_, dst, src)) => Some(Eager.Move(dst, src))
    case Protocol(CopyAssign(_, dst, src)) => Some(Eager.CopyAssign(dst, src))
    case Protocol(MoveAssign(_, dst, src)) => Some(Eager.MoveAssign(dst, src))
    case Protocol(Destroy(_, h)) => Some(Eager.Destroy(h))
    case Protocol(_) => None
    case SetBytes(t, source, _) => if Writing(s, t) then Some(Eager.Write(s.cow.threads[t].h, source)) else None
    case MoveToFront(t) => if Writing(s, t) then Some(Eager.Discard(s.cow.threads[t].h)) else None
    case TakeBytes(t, destination, size) =>
      if Reading(s, t) then Some(Eager.Read(s.cow.threads[t].h, destination, size)) else None
    case Skip(_, h, size) => Some(Eager.Skip(h, size))
    case Clear(_, h) => Some(Eager.Clear(h))
  }

  // ---------- protocol steps ----------

  /** The handles there are after a step of the protocol. */
  function HandlesAfter<V>(keys: set<Handle>, step: Cow.Action<V>): set<Handle> {
    match step
    case Make(_, h, _, _) => keys + {h}
    case CopyConstruct(_, dst, _) => keys + {dst}
    case MoveConstruct(_, dst, _) => keys + {dst}
    case Destroy(_, h) => keys - {h}
    case _ => keys
  }

  lemma HandlesOnGo<V>(s: Cow.State<V>, t: Thread, pc: Cow.Pc, unused: Cow.BlockId)
    requires !pc.Reading? && !pc.Writing? && Cow.PcOk(s.handles, t, pc)
    ensures Cow.Advance(s, t, pc, unused).handles.Keys == s.handles.Keys
  {
    match pc
    case Splitting(_) =>
    case Overwriting(_, _, _) =>
    case Deleting(_, _, _) =>
    case Continue(Nothing) =>
    case Continue(Install(_, _, _)) =>
    case Continue(Take(_, _)) =>
  }

  lemma HandlesOnCall<V>(s: Cow.State<V>, step: Cow.Action<V>)
    requires Cow.Enabled(s, step) && !step.Go? && !Cow.Step(s, step).faulted
    ensures Cow.Step(s, step).handles.Keys == HandlesAfter(s.handles.Keys, step)
  {
    match step
    case Make(_, _, _, _) =>
    case CopyConstruct(_, _, _) =>
    case MoveConstruct(_, _, _) =>
    case MoveAssign(_, _, _) =>
    case Destroy(_, _) =>
    case _ =>
  }

  /** The value of a buffer after a step of the protocol. */
  ghost function BufferAfter(s: State, step: Cow.Action<Memory>, h: Handle): Option<Buffer> {
    match step
    case Make(_, dst, value, _) => if h == dst then Some(Buffer(0, 0, value)) else BufferOf(s, h)
    case CopyConstruct(_, dst, src) => BufferOf(s, if h == dst then src else h)
    case CopyAssign(_, dst, src) => BufferOf(s, if h == dst then src else h)
    case MoveConstruct(_, dst, src) => if h == src then None else BufferOf(s, if h == dst then src else h)
    case MoveAssign(_, dst, src) => if h == src != dst then None else BufferOf(s, if h == dst then src else h)
    case _ => BufferOf(s, h)
  }

  lemma CursorsGoAlong(s: State, step: Cow.Action<Memory>, h: Handle)
    requires Cow.Enabled(s.cow, step) && !step.Write? && s.cursors.Keys == s.cow.handles.Keys
    requires h in HandlesAfter(s.cow.handles.Keys, step)
    ensures BufferWith(Cow.MeaningAfter(s.cow, step, h), CursorsAfter(s.cursors, step), h) == BufferAfter(s, step, h)
    ensures CursorsAfter(s.cursors, step).Keys == HandlesAfter(s.cow.handles.Keys, step)
  {
    match step
    case Make(_, _, _, _) =>
    case CopyConstruct(_, _, _) =>
    case CopyAssign(_, _, _) =>
    case MoveConstruct(_, _, _) =>
    case MoveAssign(_, _, _) =>
    case Destroy(_, _) =>
    case _ =>
  }

  lemma ProtocolHandles(cow: Cow.State<Memory>, step: Cow.Action<Memory>)
    requires Cow.Inv(cow) && Cow.Enabled(cow, step) && Cow.InRange(Cow.Step(cow, step))
    ensures Cow.Inv(Cow.Step(cow, step))
    ensures Cow.Step(cow, step).handles.Keys == HandlesAfter(cow.handles.Keys, step)
  {
    Cow.StepKeeps(cow, step);
    if step.Go? {
      assert Cow.PcOk(cow.handles, step.t, cow.threads[step.t]);
      HandlesOnGo(cow, step.t, cow.threads[step.t], step.unused);
    } else {
      HandlesOnCall(cow, step);
    }
  }

  /** The model follows from the values of the buffers. */
  ghost predicate ShowsAll(m: Eager.Model, after: map<Handle, Option<Buffer>>) {
    m.Keys == after.Keys && forall h | h in after :: IsValid(after[h]) && m[h] == CellOf(after[h])
  }

  ghost function BuffersAfter(s: State, step: Cow.Action<Memory>): map<Handle, Option<Buffer>> {
    map h | h in HandlesAfter(s.cow.handles.Keys, step) :: BufferAfter(s, step, h)
  }

  lemma CursorKeys(cow: Cow.State<Memory>, cursors: map<Handle, Cursors>, step: Cow.Action<Memory>)
    requires Cow.Enabled(cow, step) && !step.Write? && cursors.Keys == cow.handles.Keys
    ensures CursorsAfter(cursors, step).Keys == HandlesAfter(cow.handles.Keys, step)
  {
    match step
    case MoveAssign(_, _, _) =>
    case _ =>
  }

  lemma BufferAfterIsValid(s: State, step: Cow.Action<Memory>, h: Handle)
    requires Inv(s) && Enabled(s, Protocol(step))
    ensures IsValid(BufferAfter(s, step, h))
  {
    assert forall k :: IsValid(BufferOf(s, k));
  }

  lemma ProtocolKeeps(s: State, step: Cow.Action<Memory>)
    requires Inv(s) && Enabled(s, Protocol(step)) && Cow.InRange(Cow.Step(s.cow, step))
    ensures Inv(Step(s, Protocol(step)).0)
    ensures ShowsAll(ModelOf(Step(s, Protocol(step)).0), BuffersAfter(s, step))
  {
    ProtocolHandles(s.cow, step);
    var s' := Step(s, Protocol(step)).0;
    assert s'.cursors.Keys == HandlesAfter(s.cow.handles.Keys, step) by {
      CursorKeys(s.cow, s.cursors, step);
    }
    forall h | h in s'.cursors
      ensures BufferOf(s', h) == BufferAfter(s, step, h) && IsValid(BufferOf(s', h))
    {
      Cow.CallsAreAtomic(s.cow, step, h);
      CursorsGoAlong(s, step, h);
      BufferAfterIsValid(s, step, h);
    }
  }

  /** An instance that is not in the middle of an operation holds its value. */
  lemma HeldIsLive(s: State, h: Handle)
    requires Inv(s) && h in s.cow.handles && s.cow.handles[h].block.Some?
    requires var t := s.cow.handles[h].owner;
             t in s.cow.threads ==> s.cow.threads[t].Reading? || s.cow.threads[t].Writing?
    ensures BufferOf(s, h) == Some(Local(s, h)) && Local(s, h).Valid()
    ensures Eager.IsLive(ModelOf(s), h) && ModelOf(s)[h] == Eager.Live(Local(s, h).Readable())
  {
    Cow.PointersShowMeaning(s.cow, h);
    assert IsValid(BufferOf(s, h));
  }

  /** The buffer takes the bytes: there are some, their end is a machine size, and it is within the capacity or
      the growth request was granted. */
  predicate TakesBytes(b: Buffer, source: Memory, growth: Memory) {
    && 0 < CapacityOf(source) && b.writerIndex + CapacityOf(source) <= SIZE_MAX
    && (b.writerIndex + CapacityOf(source) <= CapacityOf(b.memory) || growth.Some?)
  }

  /** The step is a write that goes through, as its own thread's buffer decides before the step. */
  predicate Accepted(s: State, a: Action) {
    a.SetBytes? && a.t in s.cow.threads && s.cow.threads[a.t].Writing?
    && TakesBytes(Local(s, s.cow.threads[a.t].h), a.source, a.growth)
  }

  /** The step is the command, or changes nothing that can be seen. */
  ghost predicate Refines(m: Eager.Model, c: Option<Eager.Command>, accepted: bool, after: Eager.Model,
                          reply: Eager.Reply)
  {
    if c.None? then after == m
    else Eager.Legal(m, c.value) && Eager.Step(m, c.value, accepted) == (after, reply)
  }

  lemma ProtocolIsLegal(s: State, step: Cow.Action<Memory>)
    requires Inv(s) && Enabled(s, Protocol(step))
    ensures var c := CommandOf(s, Protocol(step)); c.Some? ==> Eager.Legal(ModelOf(s), c.value)
  {
    if step.CopyConstruct? || step.CopyAssign? {
      HeldIsLive(s, step.src);
    }
  }

  lemma CopyAsCommanded(s: State, step: Cow.Action<Memory>, after: Eager.Model)
    requires Sound(s) && (step.CopyConstruct? || step.CopyAssign?) && step.src in s.cursors
    requires step.CopyAssign? ==> step.dst in s.cursors
    requires ShowsAll(after, BuffersAfter(s, step))
    ensures after == ModelOf(s)[step.dst := ModelOf(s)[step.src]]
  {
  }

  ghost function BuffersOf(s: State): map<Handle, Option<Buffer>> {
    map h | h in s.cursors :: BufferOf(s, h)
  }

  lemma ShownMove(m: Eager.Model, buffers: map<Handle, Option<Buffer>>, after: Eager.Model, dst: Handle, src: Handle)
    requires src in buffers && src != dst && ShowsAll(m, buffers)
    requires ShowsAll(after, buffers[dst := buffers[src]][src := None])
    ensures after == m[dst := m[src]][src := Eager.MovedFrom]
  {
  }

  lemma BuffersMove(s: State, step: Cow.Action<Memory>)
    requires step.MoveConstruct? || step.MoveAssign?
    requires s.cursors.Keys == s.cow.handles.Keys && step.src in s.cursors && step.src != step.dst
    requires step.MoveAssign? ==> step.dst in s.cursors
    ensures BuffersAfter(s, step) == BuffersOf(s)[step.dst := BuffersOf(s)[step.src]][step.src := None]
  {
  }

  lemma MoveAsCommanded(s: State, step: Cow.Action<Memory>, after: Eager.Model)
    requires Sound(s) && (step.MoveConstruct? || step.MoveAssign?) && step.src in s.cursors && step.src != step.dst
    requires step.MoveAssign? ==> step.dst in s.cursors
    requires ShowsAll(after, BuffersAfter(s, step))
    ensures after == ModelOf(s)[step.dst := ModelOf(s)[step.src]][step.src := Eager.MovedFrom]
  {
    BuffersMove(s, step);
    ShownMove(ModelOf(s), BuffersOf(s), after, step.dst, step.src);
  }

  lemma MakeAsCommanded(s: State, step: Cow.Action<Memory>, after: Eager.Model)
    requires Sound(s) && step.Make? && ShowsAll(after, BuffersAfter(s, step))
    ensures after == ModelOf(s)[step.h := Eager.Live([])]
  {
  }

  lemma DestroyAsCommanded(s: State, step: Cow.Action<Memory>, after: Eager.Model)
    requires Sound(s) && step.Destroy? && ShowsAll(after, BuffersAfter(s, step))
    ensures after == ModelOf(s) - {step.h}
  {
  }

  lemma NothingCommanded(s: State, step: Cow.Action<Memory>, after: Eager.Model)
    requires Sound(s) && ShowsAll(after, BuffersAfter(s, step))
    requires HandlesAfter(s.cow.handles.Keys, step) == s.cow.handles.Keys
    requires forall h | h in s.cursors :: BufferAfter(s, step, h) == BufferOf(s, h)
    ensures after == ModelOf(s)
  {
  }

  lemma AfterAsCommanded(s: State, step: Cow.Action<Memory>, after: Eager.Model)
    requires Sound(s) && Cow.Enabled(s.cow, step) && !step.Write? && ShowsAll(after, BuffersAfter(s, step))
    requires var c := CommandOf(s, Protocol(step)); c.Some? ==> Eager.Legal(ModelOf(s), c.value)
    ensures Refines(ModelOf(s), CommandOf(s, Protocol(step)), false, after, Eager.Nothing)
  {
    match step
    case Make(_, _, _, _) => MakeAsCommanded(s, step, after);
    case CopyConstruct(_, _, _) => CopyAsCommanded(s, step, after);
    case CopyAssign(_, _, _) => CopyAsCommanded(s, step, after);
    case MoveConstruct(_, _, _) => MoveAsCommanded(s, step, after);
    case MoveAssign(_, dst, src) =>
      if dst == src {
        NothingCommanded(s, step, after);
      } else {
        MoveAsCommanded(s, step, after);
      }
    case Destroy(_, _) => DestroyAsCommanded(s, step, after);
    case _ => NothingCommanded(s, step, after);
  }

  lemma ProtocolRefines(s: State, step: Cow.Action<Memory>)
    requires Inv(s) && Enabled(s, Protocol(step)) && Cow.InRange(Cow.Step(s.cow, step))
    ensures Inv(Step(s, Protocol(step)).0)
    ensures Refines(ModelOf(s), CommandOf(s, Protocol(step)), false, ModelOf(Step(s, Protocol(step)).0), Eager.Nothing)
  {
    ProtocolKeeps(s, step);
    ProtocolIsLegal(s, step);
    AfterAsCommanded(s, step, ModelOf(Step(s, Protocol(step)).0));
  }

  // ---------- steps on bytes ----------

  /** One buffer has a new value. */
  lemma OneBufferChanges(s: State, s': State, h: Handle, b: Buffer)
    requires Sound(s) && s'.cow.handles.Keys == s.cow.handles.Keys && h in s.cursors && !s'.failed
    requires s'.cursors == s.cursors[h := Cursors(b.readerIndex, b.writerIndex)] && b.Valid()
    requires forall k :: Cow.Meaning(s'.cow, k) == if k == h then Some(b.memory) else Cow.Meaning(s.cow, k)
    ensures Sound(s') && ModelOf(s') == ModelOf(s)[h := Eager.Live(b.Readable())]
  {
    forall k | k in s'.cursors
      ensures BufferOf(s', k) == if k == h then Some(b) else BufferOf(s, k)
    {
    }
  }

  /** Writing through the pointer of a thread changes the value of its own buffer only. */
  lemma WriteThrough(cow: Cow.State<Memory>, t: Thread, memory: Memory)
    requires Cow.Inv(cow) && Cow.InRange(cow) && t in cow.threads && cow.threads[t].Writing?
    ensures var cow' := Cow.Step(cow, Cow.Write(t, memory));
            && Cow.Inv(cow') && cow'.handles == cow.handles
            && forall k :: Cow.Meaning(cow', k) == if k == cow.threads[t].h then Some(memory) else Cow.Meaning(cow, k)
  {
    var a := Cow.Write(t, memory);
    assert Cow.InRange(Cow.Step(cow, a));
    Cow.StepKeeps(cow, a);
    forall k
      ensures Cow.Meaning(Cow.Step(cow, a), k) == if k == cow.threads[t].h then Some(memory) else Cow.Meaning(cow, k)
    {
      Cow.CallsAreAtomic(cow, a, k);
    }
  }

  lemma WriterHolds(s: State, t: Thread)
    requires Inv(s) && (Writing(s, t) || Reading(s, t))
    ensures var h := s.cow.threads[t].h;
            && h in s.cow.handles && h in s.cursors
            && BufferOf(s, h) == Some(Local(s, h)) && Local(s, h).Valid()
            && Eager.IsLive(ModelOf(s), h) && ModelOf(s)[h] == Eager.Live(Local(s, h).Readable())
  {
    var h := s.cow.threads[t].h;
    assert Cow.PcOk(s.cow.handles, t, s.cow.threads[t]);
    HeldIsLive(s, h);
  }

  /** A write to an unshared buffer appends all of its bytes, or none and leaves the buffer as it was. */
  lemma AppendsExactlyWhen(before: Buffer, source: Memory, growth: Memory)
    requires before.Valid() && CanAppend(before, source, growth)
    ensures var (b, outcome) := AppendEffect(before, source, growth);
            if TakesBytes(before, source, growth)
            then outcome == Done(|source.value|) && b.Valid() && b.Readable() == before.Readable() + source.value
            else outcome == Done(0) && b == before
  {
    var answers := Answers(true, growth);
    assert IsAnswer(before, false, CapacityOf(source), before.writerIndex, answers);
    if TakesBytes(before, source, growth) {
      SuccessfulWrite(before, false, source, answers);
    } else {
      RefusedWrite(before, false, source, answers);
    }
  }

  lemma StoredModel(s: State, t: Thread, b: Buffer, ok: bool)
    requires Inv(s) && Cow.InRange(s.cow) && Writing(s, t) && b.Valid() && ok
    ensures Inv(Stored(s, t, b, ok))
    ensures ModelOf(Stored(s, t, b, ok)) == ModelOf(s)[s.cow.threads[t].h := Eager.Live(b.Readable())]
  {
    WriteThrough(s.cow, t, b.memory);
    OneBufferChanges(s, Stored(s, t, b, ok), s.cow.threads[t].h, b);
  }

  lemma WrittenModel(m: Eager.Model, h: Handle, content: seq<byte>, source: Memory, accepted: bool)
    requires h in m && m[h] == Eager.Live(content) && CapacityOf(source) <= SIZE_MAX && (accepted ==> source.Some?)
    ensures Refines(m, Some(Eager.Write(h, source)), accepted,
                    m[h := Eager.Live(if accepted then content + source.value else content)],
                    Eager.Moved(if accepted then |source.value| else 0))
  {
    assert !accepted ==> m[h := Eager.Live(content)] == m;
  }

  lemma SetState(s: State, t: Thread, source: Memory, growth: Memory)
    requires Inv(s) && Cow.InRange(s.cow) && Enabled(s, SetBytes(t, source, growth))
    requires Local(s, s.cow.threads[t].h).Valid()
    ensures var (s', reply) := Step(s, SetBytes(t, source, growth));
            var h, before := s.cow.threads[t].h, Local(s, s.cow.threads[t].h);
            Inv(s')
            && if TakesBytes(before, source, growth)
               then reply == Eager.Moved(|source.value|)
                    && ModelOf(s') == ModelOf(s)[h := Eager.Live(before.Readable() + source.value)]
               else reply == Eager.Moved(0) && ModelOf(s') == ModelOf(s)[h := Eager.Live(before.Readable())]
  {
    var before := Local(s, s.cow.threads[t].h);
    AppendsExactlyWhen(before, source, growth);
    var (b, outcome) := AppendEffect(before, source, growth);
    StoredModel(s, t, b, outcome.Done?);
  }

  /** The rest of `writeBytes`: the bytes are appended and their number is reported exactly when there are some,
      their end is a machine size, and it is within the capacity or the growth request was granted; otherwise
      nothing is, and the report is zero. */
  lemma SetBytesAppendsExactlyWhen(s: State, t: Thread, source: Memory, growth: Memory)
    requires Inv(s) && Cow.InRange(s.cow) && Enabled(s, SetBytes(t, source, growth))
    ensures var (s', reply) := Step(s, SetBytes(t, source, growth));
            var h, size := s.cow.threads[t].h, CapacityOf(source);
            var before := Local(s, h);
            var takes := 0 < size && before.writerIndex + size <= SIZE_MAX
                         && (before.writerIndex + size <= CapacityOf(before.memory) || growth.Some?);
            && Inv(s') && before.Valid()
            && reply == Eager.Moved(if takes then size else 0)
            && ModelOf(s') == ModelOf(s)[h := Eager.Live(if takes then before.Readable() + source.value
                                                         else before.Readable())]
  {
    WriterHolds(s, t);
    SetState(s, t, source, growth);
  }

  /** In either case this is the eager write. */
  lemma SetBytesRefines(s: State, t: Thread, source: Memory, growth: Memory)
    requires Inv(s) && Cow.InRange(s.cow) && Enabled(s, SetBytes(t, source, growth))
    ensures var a := SetBytes(t, source, growth); var (s', reply) := Step(s, a);
            Inv(s') && Refines(ModelOf(s), CommandOf(s, a), Accepted(s, a), ModelOf(s'), reply)
  {
    var h := s.cow.threads[t].h;
    WriterHolds(s, t);
    var before := Local(s, h);
    SetState(s, t, source, growth);
    WrittenModel(ModelOf(s), h, before.Readable(), source, TakesBytes(before, source, growth));
  }

  lemma DiscardedModel(m: Eager.Model, h: Handle, content: seq<byte>)
    requires h in m && m[h] == Eager.Live(content)
    ensures Refines(m, Some(Eager.Discard(h)), false, m[h := Eager.Live(content)], Eager.Nothing)
  {
    assert m[h := Eager.Live(content)] == m;
  }

  lemma ReadModel(m: Eager.Model, h: Handle, content: seq<byte>, destination: bool, size: Size)
    requires h in m && m[h] == Eager.Live(content)
    ensures var k := MinimumOf(if destination then size else 0, |content|);
            Refines(m, Some(Eager.Read(h, destination, size)), false, m[h := Eager.Live(content[k..])],
                    Eager.Bytes(content[..k]))
  {
    var c, k := Eager.Read(h, destination, size), MinimumOf(if destination then size else 0, |content|);
    assert Eager.Content(m, h) == content && Eager.Taken(m, c) == k;
  }

  lemma SkippedModel(m: Eager.Model, h: Handle, content: seq<byte>, size: Size)
    requires h in m && m[h] == Eager.Live(content)
    ensures var k := MinimumOf(size, |content|);
            Refines(m, Some(Eager.Skip(h, size)), false, m[h := Eager.Live(content[k..])], Eager.Moved(k))
  {
    var c, k := Eager.Skip(h, size), MinimumOf(size, |content|);
    assert Eager.Content(m, h) == content && Eager.Taken(m, c) == k;
  }

  lemma MoveToFrontRefines(s: State, t: Thread)
    requires Inv(s) && Cow.InRange(s.cow) && Enabled(s, MoveToFront(t))
    ensures var a := MoveToFront(t); var (s', reply) := Step(s, a);
            Inv(s') && Refines(ModelOf(s), CommandOf(s, a), false, ModelOf(s'), reply)
  {
    var h := s.cow.threads[t].h;
    WriterHolds(s, t);
    var before := Local(s, h);
    var b := DiscardEffect(before, false, Answers(true, None)).0;
    DiscardReclaims(before, false, Answers(true, None));
    StoredModel(s, t, b, true);
    DiscardedModel(ModelOf(s), h, before.Readable());
  }

  /** The rest of `discardReadBytes`: the readable bytes are at the front of the same block afterwards, and the
      space of all the others can be written to. */
  lemma MoveToFrontReclaims(s: State, t: Thread)
    requires Inv(s) && Cow.InRange(s.cow) && Enabled(s, MoveToFront(t))
    ensures var s' := Step(s, MoveToFront(t)).0;
            var h := s.cow.threads[t].h;
            var before, after := Local(s, h), BufferOf(s', h);
            && before.Valid() && after.Some? && after.value.Valid()
            && after.value.readerIndex == 0 && after.value.writerIndex == before.writerIndex - before.readerIndex
            && CapacityOf(after.value.memory) == CapacityOf(before.memory)
            && after.value.Readable() == before.Readable()
  {
    var h := s.cow.threads[t].h;
    WriterHolds(s, t);
    var before := Local(s, h);
    var b := DiscardEffect(before, false, Answers(true, None)).0;
    DiscardReclaims(before, false, Answers(true, None));
    WriteThrough(s.cow, t, b.memory);
  }

  /** What the protocol hands out can be used: a thread with a pointer from `unique()` may append any bytes,
      whatever memory it gets, and one with a pointer from `read()` may take any number. */
  lemma UsesAreEnabled(s: State, t: Thread, source: Memory, growth: Memory, destination: bool, size: Size)
    requires Inv(s) && t in s.cow.threads && (s.cow.threads[t].Writing? || s.cow.threads[t].Reading?)
    ensures var h := s.cow.threads[t].h;
            && h in s.cursors && Local(s, h).Valid()
            && (s.cow.threads[t].Reading? ==> Enabled(s, TakeBytes(t, destination, size)))
            && (s.cow.threads[t].Writing? && CapacityOf(source) <= SIZE_MAX
                && (growth.Some? && s.cursors[h].writer + CapacityOf(source) <= SIZE_MAX ==>
                      IsGrowth(MemoryOf(s, h), s.cursors[h].writer + CapacityOf(source), growth))
                ==> Enabled(s, SetBytes(t, source, growth)))
            && (s.cow.threads[t].Writing? && 0 < s.cursors[h].reader < s.cursors[h].writer ==>
                  Enabled(s, MoveToFront(t)))
  {
    assert Cow.PcOk(s.cow.handles, t, s.cow.threads[t]);
    WriterHolds(s, t);
  }

  /** Only the cursors of one buffer change. */
  lemma CursorsChange(s: State, h: Handle, c: Cursors)
    requires Sound(s) && h in s.cursors && BufferOf(s, h) == Some(Local(s, h))
    requires c.reader <= c.writer <= CapacityOf(MemoryOf(s, h))
    ensures var s', b := s.(cursors := s.cursors[h := c]), Buffer(c.reader, c.writer, MemoryOf(s, h));
            b.Valid() && Sound(s') && ModelOf(s') == ModelOf(s)[h := Eager.Live(b.Readable())]
  {
    assert IsValid(BufferOf(s, h));
    OneBufferChanges(s, s.(cursors := s.cursors[h := c]), h, Buffer(c.reader, c.writer, MemoryOf(s, h)));
  }

  /** Taking bytes off the front of a buffer. */
  lemma ReaderAdvances(s: State, h: Handle, k: nat)
    requires Sound(s) && h in s.cursors && BufferOf(s, h) == Some(Local(s, h))
    requires Local(s, h).Valid() && k <= Local(s, h).ReadableBytes()
    ensures var b, c := Local(s, h), s.cursors[h];
            && c.reader + k <= c.writer
            && WrappingAdd(c.reader, k) == c.reader + k
            && var s' := s.(cursors := s.cursors[h := c.(reader := c.reader + k)]);
               Sound(s') && ModelOf(s') == ModelOf(s)[h := Eager.Live(b.Readable()[k..])]
  {
    var b, c := Local(s, h), s.cursors[h];
    ReadTakesPrefix(b, k);
    CursorsChange(s, h, Cursors(c.reader + k, c.writer));
  }

  lemma TakesPrefix(b: Buffer, destination: bool, size: Size)
    requires b.Valid()
    ensures var read := BytesTaken(b, destination, size);
            var k := MinimumOf(if destination then size else 0, b.ReadableBytes());
            |read| == k && read == b.Readable()[..k]
  {
    ReadTakesPrefix(b, MinimumOf(if destination then size else 0, b.ReadableBytes()));
  }

  /** What a read does, as a state. */
  lemma TakenState(s: State, h: Handle, destination: bool, size: Size)
    requires Sound(s) && h in s.cursors && BufferOf(s, h) == Some(Local(s, h)) && Local(s, h).Valid()
    requires ModelOf(s)[h] == Eager.Live(Local(s, h).Readable())
    ensures var read, c := BytesTaken(Local(s, h), destination, size), s.cursors[h];
            && |read| <= SIZE_MAX
            && var index := WrappingAdd(c.reader, |read|);
               var s' := s.(cursors := s.cursors[h := c.(reader := index)], failed := s.failed || index > c.writer);
               Sound(s')
               && Refines(ModelOf(s), Some(Eager.Read(h, destination, size)), false, ModelOf(s'), Eager.Bytes(read))
  {
    var b := Local(s, h);
    var k := MinimumOf(if destination then size else 0, b.ReadableBytes());
    TakesPrefix(b, destination, size);
    ReaderAdvances(s, h, k);
    ReadModel(ModelOf(s), h, b.Readable(), destination, size);
  }

  lemma TakeBytesRefines(s: State, t: Thread, destination: bool, size: Size)
    requires Inv(s) && Enabled(s, TakeBytes(t, destination, size))
    ensures var a := TakeBytes(t, destination, size); var (s', reply) := Step(s, a);
            Inv(s') && Refines(ModelOf(s), CommandOf(s, a), false, ModelOf(s'), reply)
  {
    WriterHolds(s, t);
    TakenState(s, s.cow.threads[t].h, destination, size);
  }

  lemma IdleHolds(s: State, t: Thread, h: Handle)
    requires Inv(s) && Idle(s, t, h)
    ensures BufferOf(s, h) == Some(Local(s, h)) && Local(s, h).Valid()
    ensures Eager.IsLive(ModelOf(s), h) && ModelOf(s)[h] == Eager.Live(Local(s, h).Readable())
  {
    HeldIsLive(s, h);
  }

  lemma SkippedState(s: State, h: Handle, size: Size)
    requires Sound(s) && h in s.cursors && BufferOf(s, h) == Some(Local(s, h)) && Local(s, h).Valid()
    requires ModelOf(s)[h] == Eager.Live(Local(s, h).Readable())
    ensures var c, count := s.cursors[h], MinimumOf(size, Local(s, h).ReadableBytes());
            var index := WrappingAdd(c.reader, count);
            var s' := s.(cursors := s.cursors[h := c.(reader := index)], failed := s.failed || index > c.writer);
            Sound(s') && Refines(ModelOf(s), Some(Eager.Skip(h, size)), false, ModelOf(s'), Eager.Moved(count))
  {
    var b := Local(s, h);
    ReaderAdvances(s, h, MinimumOf(size, b.ReadableBytes()));
    SkippedModel(ModelOf(s), h, b.Readable(), size);
  }

  lemma SkipRefines(s: State, t: Thread, h: Handle, size: Size)
    requires Inv(s) && Enabled(s, Skip(t, h, size))
    ensures var a := Skip(t, h, size); var (s', reply) := Step(s, a);
            Inv(s') && Refines(ModelOf(s), CommandOf(s, a), false, ModelOf(s'), reply)
  {
    IdleHolds(s, t, h);
    SkippedState(s, h, size);
  }

  lemma ClearRefines(s: State, t: Thread, h: Handle)
    requires Inv(s) && Enabled(s, Clear(t, h))
    ensures Step(s, Clear(t, h)).0.cursors[h] == Cursors(0, 0)
    ensures var a := Clear(t, h); var (s', reply) := Step(s, a);
            Inv(s') && Refines(ModelOf(s), CommandOf(s, a), false, ModelOf(s'), reply)
  {
    IdleHolds(s, t, h);
    CursorsChange(s, h, Cursors(0, 0));
  }

  // ---------- runs ----------

  ghost predicate IsStep(s: State, a: Action, s': State, reply: Eager.Reply) {
    Enabled(s, a) && Step(s, a) == (s', reply) && Cow.InRange(s.cow) && Cow.InRange(s'.cow)
  }

  /** Every step is one command on private queues, with its reply, or cannot be seen; and no cursor
      assertion fails. */
  lemma StepRefines(s: State, a: Action, s': State, reply: Eager.Reply)
    requires Inv(s) && IsStep(s, a, s', reply)
    ensures Inv(s') && Refines(ModelOf(s), CommandOf(s, a), Accepted(s, a), ModelOf(s'), reply)
  {
    match a
    case Protocol(step) => ProtocolRefines(s, step);
    case SetBytes(t, source, growth) => SetBytesRefines(s, t, source, growth);
    case MoveToFront(t) => MoveToFrontRefines(s, t);
    case TakeBytes(t, destination, size) => TakeBytesRefines(s, t, destination, size);
    case Skip(t, h, size) => SkipRefines(s, t, h, size);
    case Clear(t, h) => ClearRefines(s, t, h);
  }

  /** The steps of all threads in the order they happened, and what they reported. */
  ghost predicate IsRun(states: seq<State>, actions: seq<Action>, replies: seq<Eager.Reply>) {
    && |states| == |actions| + 1 && |replies| == |actions| && states[0] == Initial()
    && forall i | 0 <= i < |actions| :: IsStep(states[i], actions[i], states[i + 1], replies[i])
  }

  /** The commands that took effect in the first `k` steps. */
  function Commands(states: seq<State>, actions: seq<Action>, k: nat): seq<Eager.Command>
    requires k <= |actions| && |states| == |actions| + 1
  {
    if k == 0 then []
    else
      var c := CommandOf(states[k - 1], actions[k - 1]);
      Commands(states, actions, k - 1) + if c.Some? then [c.value] else []
  }

  /** What they reported. */
  function Replies(states: seq<State>, actions: seq<Action>, replies: seq<Eager.Reply>, k: nat): (r: seq<Eager.Reply>)
    requires k <= |actions| == |replies| && |states| == |actions| + 1
    ensures |r| == |Commands(states, actions, k)|
  {
    if k == 0 then []
    else
      Replies(states, actions, replies, k - 1)
      + if CommandOf(states[k - 1], actions[k - 1]).Some? then [replies[k - 1]] else []
  }

  /** Which of them are writes that go through, as the buffers decide before each step. */
  function Verdicts(states: seq<State>, actions: seq<Action>, k: nat): (accepted: seq<bool>)
    requires k <= |actions| && |states| == |actions| + 1
    ensures |accepted| == |Commands(states, actions, k)|
  {
    if k == 0 then []
    else
      Verdicts(states, actions, k - 1)
      + if CommandOf(states[k - 1], actions[k - 1]).Some? then [Accepted(states[k - 1], actions[k - 1])] else []
  }

  lemma InitialKeeps()
    ensures Inv(Initial()) && ModelOf(Initial()) == map[]
  {
    Cow.InitialKeeps<Memory>();
  }

  lemma AppendCommand(start: Eager.Model, cs: seq<Eager.Command>, accepted: seq<bool>, c: Eager.Command, a: bool,
                      m: Eager.Model, rs: seq<Eager.Reply>, after: Eager.Model, reply: Eager.Reply)
    requires |cs| == |accepted| && Eager.LegalRun(start, cs, accepted) && Eager.Run(start, cs, accepted) == (m, rs)
    requires Eager.Legal(m, c) && Eager.Step(m, c, a) == (after, reply)
    ensures Eager.LegalRun(start, cs + [c], accepted + [a])
    ensures Eager.Run(start, cs + [c], accepted + [a]) == (after, rs + [reply])
  {
    assert (cs + [c])[..|cs|] == cs && (cs + [c])[..|cs| + 1] == cs + [c];
    Eager.RunSnoc(start, cs + [c], accepted, a);
  }

  /** However the steps of the threads interleave: the commands, in the order in which they took effect,
      are a legal program whose run on the eager model, with one private queue per buffer, gives all the
      replies and ends in the contents of all buffers. Which writes are accepted is decided before each of them,
      by the cursors and the capacity of the buffer and by whether its growth request is granted. */
  lemma {:induction false} EveryRunIsEager(states: seq<State>, actions: seq<Action>, replies: seq<Eager.Reply>, k: nat)
    requires IsRun(states, actions, replies) && k <= |actions|
    ensures Inv(states[k])
    ensures var cs, accepted := Commands(states, actions, k), Verdicts(states, actions, k);
            && Eager.LegalRun(map[], cs, accepted)
            && Eager.Run(map[], cs, accepted) == (ModelOf(states[k]), Replies(states, actions, replies, k))
  {
    if k == 0 {
      InitialKeeps();
    } else {
      EveryRunIsEager(states, actions, replies, k - 1);
      var s, a, s', reply := states[k - 1], actions[k - 1], states[k], replies[k - 1];
      assert IsStep(s, a, s', reply);
      StepRefines(s, a, s', reply);
      var c := CommandOf(s, a);
      var cs, accepted := Commands(states, actions, k - 1), Verdicts(states, actions, k - 1);
      var rs := Replies(states, actions, replies, k - 1);
      if c.Some? {
        AppendCommand(map[], cs, accepted, c.value, Accepted(s, a), ModelOf(s), rs, ModelOf(s'), reply);
      } else {
        assert cs + [] == cs && accepted + [] == accepted && rs + [] == rs;
      }
    }
  }
}
