/** A program over many byte buffers, run on the copy-on-write implementation and on the eager model. */
module Session {
  import opened BufferModel
  import opened ByteBuffers
  import opened EagerModel
  import opened Ledger
  import opened NamedBuffers
  import opened Options
  import opened Sizes
  import opened Storage

  /** What is to be true of the buffers of a program: their contents as in the eager model, and the
      books. */
  datatype Spec = Spec(contents: Model, books: Books)

  const NOTHING_YET := Spec(map[], NO_BOOKS)

  /** What a command does and answers. Nothing but the command, the books and what the allocator is
      going to say has a part in it. */
  ghost function Next(s: Spec, c: Command, g: Grants): (Spec, Reply)
    requires Legal(s.contents, c)
  {
    var (contents, reply) := Step(s.contents, c, Accepted(s.books, c, g));
    (Spec(contents, After(s.books, c, g)), reply)
  }

  /** A buffer holds what it is said to hold. */
  ghost predicate Shows(buffer: Option<Buffer>, cell: Cell, entry: Entry) {
    match buffer
    case None => cell.MovedFrom? && entry.Vacant?
    case Some(b) => b.Valid() && cell == Live(b.Readable()) && entry.Holding? && entry.shape == ShapeOf(b)
  }

  ghost predicate AllShow(view: View, s: Spec) {
    && s.contents.Keys == view.Keys && s.books.entries.Keys == view.Keys
    && forall n | n in view :: Shows(view[n].buffer, s.contents[n], s.books.entries[n])
  }

  /** The block of each buffer, and its number in the books. */
  ghost function BlocksIn(view: View): map<Name, Block?> {
    map n | n in view :: view[n].block
  }

  function NumberOf(e: Entry): Option<nat> {
    if e.Holding? then Some(e.block) else None
  }

  ghost function NumbersIn(l: Books): map<Name, Option<nat>> {
    map n | n in l.entries :: NumberOf(l.entries[n])
  }

  /** Two names have the same block exactly where they have the same number. */
  ghost predicate Alike(blocks: map<Name, Block?>, numbers: map<Name, Option<nat>>, m: Name, n: Name)
    requires m in blocks && n in blocks && m in numbers && n in numbers
  {
    blocks[m] == blocks[n] <==> numbers[m] == numbers[n]
  }

  /** The numbers stand for the blocks, and those from `next` on are unused. */
  ghost predicate WellNumbered(blocks: map<Name, Block?>, numbers: map<Name, Option<nat>>, next: nat) {
    && blocks.Keys == numbers.Keys
    && (forall n | n in numbers :: numbers[n].None? <==> blocks[n] == null)
    && (forall n | n in numbers && numbers[n].Some? :: numbers[n].value < next)
    && (forall m, n | m in numbers && n in numbers :: Alike(blocks, numbers, m, n))
  }

  ghost predicate Matches(view: View, s: Spec) {
    AllShow(view, s) && WellNumbered(BlocksIn(view), NumbersIn(s.books), s.books.next)
  }

  // ---------- numbering ----------

  lemma NumberedAnew(blocks: map<Name, Block?>, numbers: map<Name, Option<nat>>, next: nat, name: Name, b: Block)
    requires WellNumbered(blocks, numbers, next) && forall n | n in blocks && n != name :: blocks[n] != b
    ensures WellNumbered(blocks[name := b], numbers[name := Some(next)], next + 1)
  {
    var blocks', numbers' := blocks[name := b], numbers[name := Some(next)];
    forall m, n | m in numbers' && n in numbers'
      ensures Alike(blocks', numbers', m, n)
    {
      assert m != name && n != name ==> Alike(blocks, numbers, m, n);
    }
  }

  lemma NumberedLike(blocks: map<Name, Block?>, numbers: map<Name, Option<nat>>, next: nat, name: Name, other: Name)
    requires WellNumbered(blocks, numbers, next) && other in numbers
    ensures WellNumbered(blocks[name := blocks[other]], numbers[name := numbers[other]], next)
  {
    var blocks', numbers' := blocks[name := blocks[other]], numbers[name := numbers[other]];
    forall m, n | m in numbers' && n in numbers'
      ensures Alike(blocks', numbers', m, n)
    {
      assert Alike(blocks, numbers, if m == name then other else m, if n == name then other else n);
    }
  }

  lemma NumberedNoMore(blocks: map<Name, Block?>, numbers: map<Name, Option<nat>>, next: nat, name: Name)
    requires WellNumbered(blocks, numbers, next) && name in numbers
    ensures WellNumbered(blocks[name := null], numbers[name := None], next)
    ensures WellNumbered(blocks - {name}, numbers - {name}, next)
  {
    forall m, n | m in numbers && n in numbers
      ensures Alike(blocks[name := null], numbers[name := None], m, n)
      ensures m != name && n != name ==> Alike(blocks - {name}, numbers - {name}, m, n)
    {
      assert Alike(blocks, numbers, m, n);
    }
  }

  lemma SharingMatches(view: View, s: Spec, name: Name)
    requires Matches(view, s) && name in view && view[name].block != null
    ensures SharedIn(view, name) <==> IsShared(s.books, name)
  {
    var blocks, numbers := BlocksIn(view), NumbersIn(s.books);
    if SharedIn(view, name) {
      var other :| other in view && other != name && view[other].block == view[name].block;
      assert Alike(blocks, numbers, name, other);
      assert Together(s.books, name, other);
    }
    if IsShared(s.books, name) {
      var other :| other in s.books.entries && other != name && Together(s.books, name, other);
      assert Alike(blocks, numbers, name, other);
      assert view[other].block == view[name].block;
    }
  }

  // ---------- one buffer changes ----------

  lemma ShowsOne(view: View, s: Spec, name: Name, seen: Seen, cell: Cell, entry: Entry, next: nat)
    requires AllShow(view, s) && Shows(seen.buffer, cell, entry)
    ensures AllShow(view[name := seen], Spec(s.contents[name := cell], Books(s.books.entries[name := entry], next)))
  {
  }

  lemma Projections(view: View, l: Books, name: Name, seen: Seen, entry: Entry, next: nat)
    ensures BlocksIn(view[name := seen]) == BlocksIn(view)[name := seen.block]
    ensures NumbersIn(Books(l.entries[name := entry], next)) == NumbersIn(l)[name := NumberOf(entry)]
    ensures BlocksIn(view - {name}) == BlocksIn(view) - {name}
    ensures NumbersIn(Books(l.entries - {name}, next)) == NumbersIn(l) - {name}
  {
  }

  ghost function Put(s: Spec, name: Name, cell: Cell, entry: Entry, next: nat): Spec {
    Spec(s.contents[name := cell], Books(s.books.entries[name := entry], next))
  }

  /** A buffer with the same block. */
  lemma SameBlockMatches(view: View, s: Spec, name: Name, seen: Seen, cell: Cell, entry: Entry, next: nat)
    requires Matches(view, s) && name in view && seen.block == view[name].block
    requires NumberOf(entry) == NumberOf(s.books.entries[name]) && next >= s.books.next
    requires Shows(seen.buffer, cell, entry)
    ensures Matches(view[name := seen], Put(s, name, cell, entry, next))
  {
    ShowsOne(view, s, name, seen, cell, entry, next);
    Projections(view, s.books, name, seen, entry, next);
    var blocks, numbers := BlocksIn(view), NumbersIn(s.books);
    assert blocks[name := seen.block] == blocks && numbers[name := NumberOf(entry)] == numbers;
  }

  /** A buffer with a new block. */
  lemma NewBlockMatches(view: View, s: Spec, name: Name, seen: Seen, cell: Cell, shape: Shape)
    requires Matches(view, s) && seen.block != null && forall n | n in view :: view[n].block != seen.block
    requires Shows(seen.buffer, cell, Holding(shape, s.books.next))
    ensures Matches(view[name := seen], Put(s, name, cell, Holding(shape, s.books.next), s.books.next + 1))
  {
    var entry, next := Holding(shape, s.books.next), s.books.next + 1;
    ShowsOne(view, s, name, seen, cell, entry, next);
    Projections(view, s.books, name, seen, entry, next);
    NumberedAnew(BlocksIn(view), NumbersIn(s.books), s.books.next, name, seen.block);
  }

  /** A buffer like another one. */
  lemma LikeAnotherMatches(view: View, s: Spec, name: Name, other: Name)
    requires Matches(view, s) && other in view
    ensures Matches(view[name := view[other]], Put(s, name, s.contents[other], s.books.entries[other], s.books.next))
  {
    var entry := s.books.entries[other];
    ShowsOne(view, s, name, view[other], s.contents[other], entry, s.books.next);
    Projections(view, s.books, name, view[other], entry, s.books.next);
    NumberedLike(BlocksIn(view), NumbersIn(s.books), s.books.next, name, other);
  }

  /** A buffer that is moved from, or destroyed. */
  lemma WithoutMatches(view: View, s: Spec, name: Name)
    requires Matches(view, s) && name in view
    ensures Matches(view[name := Seen(None, null)], Put(s, name, MovedFrom, Vacant, s.books.next))
    ensures Matches(view - {name}, Spec(s.contents - {name}, Books(s.books.entries - {name}, s.books.next)))
  {
    ShowsOne(view, s, name, Seen(None, null), MovedFrom, Vacant, s.books.next);
    Projections(view, s.books, name, Seen(None, null), Vacant, s.books.next);
    NumberedNoMore(BlocksIn(view), NumbersIn(s.books), s.books.next, name);
  }

  // ---------- one command ----------

  /** The implementation is consistent, and every buffer is as specified. */
  ghost predicate Simulates(named: Names, s: Spec)
    reads *
  {
    Consistent(named) && Matches(ViewOf(named), s)
  }

  /** All buffers but one are as specified. */
  ghost predicate OthersSimulate(named: Names, s: Spec, name: Name)
    reads *
  {
    && s.contents.Keys == named.Keys && s.books.entries.Keys == named.Keys
    && forall n | n in named && n != name :: Shows(named[n].Snapshot(), s.contents[n], s.books.entries[n])
  }

  lemma LiveIsUsable(named: Names, s: Spec, name: Name)
    requires Matches(ViewOf(named), s) && IsLive(s.contents, name)
    ensures IsUsable(named, name)
    ensures s.contents[name] == Live(named[name].Value().Readable())
    ensures Holds(s.books, name) && ShapeIn(s.books, name) == ShapeOf(named[name].Value())
    ensures ViewOf(named)[name] == Seen(Some(named[name].Value()), named[name].block)
  {
    assert Shows(ViewOf(named)[name].buffer, s.contents[name], s.books.entries[name]);
  }

  // ---------- commands and views ----------

  lemma MakeMatches(view: View, s: Spec, name: Name, capacity: Size, g: Grants, made: Seen)
    requires Matches(view, s) && Legal(s.contents, Command.Make(name, capacity))
    requires made.buffer.Some? && made.block != null && forall n | n in view :: view[n].block != made.block
    requires made.buffer.value.Valid() && made.buffer.value.Readable() == []
    requires ShapeOf(made.buffer.value) == Shape(0, 0, if g.growth then Rounded(capacity) else 0)
    ensures Matches(view[name := made], Next(s, Command.Make(name, capacity), g).0)
  {
    NewBlockMatches(view, s, name, made, Live([]), ShapeOf(made.buffer.value));
  }

  lemma CopyMatches(view: View, s: Spec, c: Command, g: Grants)
    requires Matches(view, s) && (c.Copy? || c.CopyAssign?) && Legal(s.contents, c)
    ensures Matches(view[c.name := view[c.other]], Next(s, c, g).0)
  {
    LikeAnotherMatches(view, s, c.name, c.other);
  }

  lemma MoveMatches(view: View, s: Spec, c: Command, g: Grants)
    requires Matches(view, s) && (c.Move? || c.MoveAssign?) && Legal(s.contents, c) && c.name != c.other
    ensures Matches(view[c.name := view[c.other]][c.other := Seen(None, null)], Next(s, c, g).0)
  {
    LikeAnotherMatches(view, s, c.name, c.other);
    WithoutMatches(view[c.name := view[c.other]],
                   Put(s, c.name, s.contents[c.other], s.books.entries[c.other], s.books.next), c.other);
  }

  lemma DestroyMatches(view: View, s: Spec, name: Name, g: Grants)
    requires Matches(view, s) && Legal(s.contents, Command.Destroy(name))
    ensures Matches(view - {name}, Next(s, Command.Destroy(name), g).0)
  {
    WithoutMatches(view, s, name);
  }

  // ---------- what the specification says of each command ----------

  /** A cell and an entry that belong together. */
  ghost predicate IsBooked(s: Spec, name: Name) {
    && IsLive(s.contents, name) && Holds(s.books, name)
    && var shape := s.books.entries[name].shape;
       shape.reader <= shape.writer && |s.contents[name].content| == shape.writer - shape.reader
  }

  /** The reader cursor has moved on. */
  function Advanced(entry: Entry, k: nat): Entry
    requires entry.Holding? && entry.shape.reader + k <= SIZE_MAX
  {
    Holding(entry.shape.(reader := entry.shape.reader + k), entry.block)
  }

  lemma NextTaking(s: Spec, c: Command, g: Grants, content: seq<byte>, entry: Entry, k: nat)
    requires (c.Read? || c.ReadString? || c.Skip?) && c.name in s.contents && c.name in s.books.entries
    requires s.contents[c.name] == Live(content) && s.books.entries[c.name] == entry && entry.Holding?
    requires entry.shape.reader <= entry.shape.writer && |content| == entry.shape.writer - entry.shape.reader
    requires k == MinimumOf(if c.Read? && !c.destination then 0 else c.size, |content|)
    ensures entry.shape.reader + k <= SIZE_MAX
    ensures Next(s, c, g) == (Put(s, c.name, Live(content[k..]), Advanced(entry, k), s.books.next),
                              if c.Skip? then Moved(k) else Bytes(content[..k]))
  {
  }

  lemma NextWrite(s: Spec, name: Name, source: Memory, g: Grants)
    requires IsBooked(s, name) && CapacityOf(source) <= SIZE_MAX
    ensures var c, content := Command.Write(name, source), s.contents[name].content;
            var shared, shape := IsShared(s.books, name), s.books.entries[name].shape;
            && Accepted(s.books, c, g) == Accepts(shape, shared, CapacityOf(source), g)
            && Next(s, c, g) == (Put(s, name,
                                     if Accepted(s.books, c, g) then Live(content + source.value) else s.contents[name],
                                     Holding(ShapeAfterWrite(shape, shared, CapacityOf(source), g),
                                             OwnBlock(s.books, name)),
                                     s.books.next + 1),
                                 Moved(if Accepted(s.books, c, g) then CapacityOf(source) else 0))
  {
    assert s.contents[name := s.contents[name]] == s.contents;
  }

  lemma NextDiscard(s: Spec, name: Name, g: Grants)
    requires IsBooked(s, name)
    ensures var shape, block := s.books.entries[name].shape, s.books.entries[name].block;
            Next(s, Command.Discard(name), g).0
            == if Moves(shape)
               then Put(s, name, s.contents[name], Holding(ShapeAfterDiscard(shape), OwnBlock(s.books, name)),
                        s.books.next + 1)
               else Put(s, name, s.contents[name], Holding(ShapeAfterDiscard(shape), block), s.books.next)
  {
    assert s.contents[name := s.contents[name]] == s.contents;
  }

  lemma ShowsBuffer(view: View, s: Spec, name: Name)
    requires Matches(view, s) && IsLive(s.contents, name)
    ensures view[name].buffer.Some? && view[name].block != null && Holds(s.books, name)
    ensures var b := view[name].buffer.value;
            b.Valid() && s.contents[name] == Live(b.Readable()) && s.books.entries[name].shape == ShapeOf(b)
    ensures IsBooked(s, name)
  {
    assert Shows(view[name].buffer, s.contents[name], s.books.entries[name]);
    assert NumbersIn(s.books)[name].Some? && BlocksIn(view)[name] != null;
  }

  lemma TakenShows(before: Buffer, k: nat, block: nat)
    requires before.Valid() && k <= before.ReadableBytes()
    ensures before.readerIndex + k <= SIZE_MAX
    ensures Shows(Some(before.(readerIndex := before.readerIndex + k)), Live(before.Readable()[k..]),
                  Advanced(Holding(ShapeOf(before), block), k))
  {
    ReadTakesPrefix(before, k);
  }

  /** A read, a string read or a skip took `k` bytes off the front. */
  lemma TakingMatches(view: View, s: Spec, c: Command, g: Grants, before: Buffer, k: nat, seen: Seen)
    requires Matches(view, s) && (c.Read? || c.ReadString? || c.Skip?) && Legal(s.contents, c)
    requires view[c.name].buffer == Some(before) && before.Valid()
    requires k == MinimumOf(if c.Read? && !c.destination then 0 else c.size, before.ReadableBytes())
    requires seen == Seen(Some(before.(readerIndex := before.readerIndex + k)), view[c.name].block)
    ensures Matches(view[c.name := seen], Next(s, c, g).0)
    ensures Next(s, c, g).1 == if c.Skip? then Moved(k) else Bytes(before.Readable()[..k])
  {
    ShowsBuffer(view, s, c.name);
    var entry := Holding(ShapeOf(before), s.books.entries[c.name].block);
    NextTaking(s, c, g, before.Readable(), entry, k);
    TakenShows(before, k, entry.block);
    SameBlockMatches(view, s, c.name, seen, Live(before.Readable()[k..]), Advanced(entry, k), s.books.next);
  }

  lemma ClearMatches(view: View, s: Spec, name: Name, g: Grants, before: Buffer)
    requires Matches(view, s) && Legal(s.contents, Command.Clear(name)) && view[name].buffer == Some(before)
    ensures Matches(view[name := Seen(Some(before.(readerIndex := 0, writerIndex := 0)), view[name].block)],
                    Next(s, Command.Clear(name), g).0)
  {
    ShowsBuffer(view, s, name);
    var after := before.(readerIndex := 0, writerIndex := 0);
    SameBlockMatches(view, s, name, Seen(Some(after), view[name].block), Live([]),
                     Holding(ShapeOf(after), s.books.entries[name].block), s.books.next);
  }

  /** A write or a discard has left the buffer with a block of its own. */
  lemma OwnBlockMatches(view: View, s: Spec, name: Name, seen: Seen, cell: Cell, shape: Shape)
    requires Matches(view, s) && Holds(s.books, name) && seen.block != null
    requires name in view && if SharedIn(view, name) then forall n | n in view :: view[n].block != seen.block
             else seen.block == view[name].block
    requires Shows(seen.buffer, cell, Holding(shape, OwnBlock(s.books, name)))
    ensures Matches(view[name := seen], Put(s, name, cell, Holding(shape, OwnBlock(s.books, name)), s.books.next + 1))
  {
    assert NumbersIn(s.books)[name].Some? && BlocksIn(view)[name] != null;
    SharingMatches(view, s, name);
    if IsShared(s.books, name) {
      NewBlockMatches(view, s, name, seen, cell, shape);
    } else {
      SameBlockMatches(view, s, name, seen, cell, Holding(shape, OwnBlock(s.books, name)), s.books.next + 1);
    }
  }

  /** Whether bytes are lost can be told from the buffer. */
  lemma LosesMatches(view: View, s: Spec, name: Name, g: Grants)
    requires Matches(view, s) && IsLive(s.contents, name)
    ensures view[name].buffer.Some? && view[name].buffer.value.Valid()
    ensures var b := view[name].buffer.value;
            && (forall source :: Loses(s.books, Command.Write(name, source), g)
                                 <==> WriteLoses(ShapeOf(b), SharedIn(view, name), CapacityOf(source), g))
            && (Loses(s.books, Command.Discard(name), g) <==> DiscardLoses(ShapeOf(b), SharedIn(view, name), g))
  {
    ShowsBuffer(view, s, name);
    SharingMatches(view, s, name);
  }

  lemma WriteMatches(view: View, s: Spec, name: Name, source: Memory, g: Grants,
                     before: Buffer, a: Answers, seen: Seen, outcome: Outcome<Size>)
    requires Matches(view, s) && Legal(s.contents, Command.Write(name, source))
    requires view[name].buffer == Some(before) && before.Valid() && seen.buffer.Some? && seen.block != null
    requires Follows(before, SharedIn(view, name), CapacityOf(source), before.writerIndex, g, a)
    requires (seen.buffer.value, outcome) == WriteEffect(before, SharedIn(view, name), source, a)
    requires if SharedIn(view, name) then forall n | n in view :: view[n].block != seen.block
             else seen.block == view[name].block
    requires !Loses(s.books, Command.Write(name, source), g)
    ensures outcome.Done?
    ensures Matches(view[name := seen], Next(s, Command.Write(name, source), g).0)
    ensures Moved(outcome.value) == Next(s, Command.Write(name, source), g).1
    ensures outcome.value > 0 <==> Accepted(s.books, Command.Write(name, source), g)
  {
    ShowsBuffer(view, s, name);
    LosesMatches(view, s, name, g);
    SharingMatches(view, s, name);
    WriteIsDecided(before, SharedIn(view, name), source, g, a);
    NextWrite(s, name, source, g);
    OwnBlockMatches(view, s, name, seen,
                    if outcome.value > 0 then Live(s.contents[name].content + source.value) else s.contents[name],
                    ShapeOf(seen.buffer.value));
  }

  lemma DiscardMatches(view: View, s: Spec, name: Name, g: Grants, before: Buffer, a: Answers, seen: Seen)
    requires Matches(view, s) && Legal(s.contents, Command.Discard(name))
    requires view[name].buffer == Some(before) && before.Valid() && seen.buffer.Some? && seen.block != null
    requires IsAnswer(before, SharedIn(view, name), before.ReadableBytes(), 0, a) && a.split == g.split
    requires seen.buffer.value == DiscardEffect(before, SharedIn(view, name), a).0
    requires if SharedIn(view, name) && Moves(ShapeOf(before)) then forall n | n in view :: view[n].block != seen.block
             else seen.block == view[name].block
    requires !Loses(s.books, Command.Discard(name), g)
    ensures Matches(view[name := seen], Next(s, Command.Discard(name), g).0)
  {
    ShowsBuffer(view, s, name);
    LosesMatches(view, s, name, g);
    DiscardIsDecided(before, SharedIn(view, name), g, a);
    NextDiscard(s, name, g);
    var shape := ShapeOf(seen.buffer.value);
    if Moves(ShapeOf(before)) {
      OwnBlockMatches(view, s, name, seen, s.contents[name], shape);
    } else {
      SameBlockMatches(view, s, name, seen, s.contents[name], Holding(shape, s.books.entries[name].block),
                       s.books.next);
    }
  }

  // ---------- one command ----------

  method Make(ghost s: Spec, named: Names, ghost universe: set<object>, name: Name, capacity: Size, g: Grants)
    returns (after: Names, ghost grown: set<object>)
    requires Simulates(named, s) && Within(named, universe) && Legal(s.contents, Command.Make(name, capacity))
    ensures Simulates(after, Next(s, Command.Make(name, capacity), g).0)
    ensures Within(after, grown) && fresh(grown - universe)
  {
    ghost var made;
    after, grown, made := NamedBuffers.Make(named, universe, name, capacity, g.growth);
    MakeMatches(old(ViewOf(named)), s, name, capacity, g, made);
  }

  method Copy(ghost s: Spec, named: Names, ghost universe: set<object>, name: Name, other: Name, g: Grants)
    returns (after: Names, ghost grown: set<object>)
    requires Simulates(named, s) && Within(named, universe) && Legal(s.contents, Command.Copy(name, other))
    modifies named[other].block
    ensures Simulates(after, Next(s, Command.Copy(name, other), g).0)
    ensures Within(after, grown) && fresh(grown - universe)
  {
    LiveIsUsable(named, s, other);
    after, grown := NamedBuffers.Copy(named, universe, name, other);
    CopyMatches(old(ViewOf(named)), s, Command.Copy(name, other), g);
  }

  method Move(ghost s: Spec, named: Names, ghost universe: set<object>, name: Name, other: Name, g: Grants)
    returns (after: Names, ghost grown: set<object>)
    requires Simulates(named, s) && Within(named, universe) && Legal(s.contents, Command.Move(name, other))
    modifies named[other], named[other].block
    ensures Simulates(after, Next(s, Command.Move(name, other), g).0)
    ensures Within(after, grown) && fresh(grown - universe)
  {
    after, grown := NamedBuffers.Move(named, universe, name, other);
    MoveMatches(old(ViewOf(named)), s, Command.Move(name, other), g);
  }

  method Destroy(ghost s: Spec, named: Names, ghost universe: set<object>, name: Name, g: Grants) returns (after: Names)
    requires Simulates(named, s) && Within(named, universe) && Legal(s.contents, Command.Destroy(name))
    modifies named[name].block
    ensures Simulates(after, Next(s, Command.Destroy(name), g).0)
    ensures Within(after, universe)
  {
    after := NamedBuffers.Destroy(named, universe, name);
    DestroyMatches(old(ViewOf(named)), s, name, g);
  }

  method CopyAssign(ghost s: Spec, named: Names, ghost universe: set<object>, name: Name, other: Name, g: Grants)
    requires Simulates(named, s) && Within(named, universe) && Legal(s.contents, Command.CopyAssign(name, other))
    modifies named[name], named[name].block, named[other].block
    ensures Simulates(named, Next(s, Command.CopyAssign(name, other), g).0)
    ensures Within(named, universe)
  {
    LiveIsUsable(named, s, other);
    NamedBuffers.CopyAssign(named, universe, name, other);
    CopyMatches(old(ViewOf(named)), s, Command.CopyAssign(name, other), g);
  }

  method MoveAssign(ghost s: Spec, named: Names, ghost universe: set<object>, name: Name, other: Name, g: Grants)
    requires Simulates(named, s) && Within(named, universe) && Legal(s.contents, Command.MoveAssign(name, other))
    modifies named[name], named[name].block, named[other], named[other].block
    ensures Simulates(named, Next(s, Command.MoveAssign(name, other), g).0)
    ensures Within(named, universe)
  {
    NamedBuffers.MoveAssign(named, universe, name, other);
    if name != other {
      MoveMatches(old(ViewOf(named)), s, Command.MoveAssign(name, other), g);
    }
  }

  lemma TakenSimulates(named: Names, view: View, s: Spec, c: Command, g: Grants, before: Buffer, after: Buffer,
                       block: Block?, k: nat)
    requires Matches(view, s) && (c.Read? || c.ReadString? || c.Skip?) && Legal(s.contents, c)
    requires view[c.name] == Seen(Some(before), block) && before.Valid()
    requires k == MinimumOf(if c.Read? && !c.destination then 0 else c.size, before.ReadableBytes())
    requires after == before.(readerIndex := before.readerIndex + k)
    requires Consistent(named) && ViewOf(named) == view[c.name := Seen(Some(after), block)]
    ensures Simulates(named, Next(s, c, g).0)
    ensures Next(s, c, g).1 == if c.Skip? then Moved(k) else Bytes(before.Readable()[..k])
  {
    TakingMatches(view, s, c, g, before, k, Seen(Some(after), block));
  }

  method Read(ghost s: Spec, named: Names, ghost universe: set<object>, name: Name, destination: bool, size: Size,
              g: Grants)
    returns (reply: Reply)
    requires Simulates(named, s) && Within(named, universe) && Legal(s.contents, Command.Read(name, destination, size))
    modifies named[name]
    ensures Simulates(named, Next(s, Command.Read(name, destination, size), g).0)
    ensures reply == Next(s, Command.Read(name, destination, size), g).1
    ensures Within(named, universe)
  {
    LiveIsUsable(named, s, name);
    ghost var view, before, block := ViewOf(named), named[name].Value(), named[name].block;
    var read := NamedBuffers.Read(named, universe, name, destination, size);
    reply := Bytes(read);
    TakenSimulates(named, view, s, Command.Read(name, destination, size), g, before, named[name].Value(), block,
                   |read|);
  }

  method ReadString(ghost s: Spec, named: Names, ghost universe: set<object>, name: Name, size: Size, g: Grants)
    returns (reply: Reply)
    requires Simulates(named, s) && Within(named, universe) && Legal(s.contents, Command.ReadString(name, size))
    modifies named[name]
    ensures Simulates(named, Next(s, Command.ReadString(name, size), g).0)
    ensures reply == Next(s, Command.ReadString(name, size), g).1
    ensures Within(named, universe)
  {
    LiveIsUsable(named, s, name);
    ghost var view, before, block := ViewOf(named), named[name].Value(), named[name].block;
    var read := NamedBuffers.ReadString(named, universe, name, size);
    reply := Bytes(read);
    TakenSimulates(named, view, s, Command.ReadString(name, size), g, before, named[name].Value(), block, |read|);
  }

  method Skip(ghost s: Spec, named: Names, ghost universe: set<object>, name: Name, size: Size, g: Grants)
    returns (reply: Reply)
    requires Simulates(named, s) && Within(named, universe) && Legal(s.contents, Command.Skip(name, size))
    modifies named[name]
    ensures Simulates(named, Next(s, Command.Skip(name, size), g).0)
    ensures reply == Next(s, Command.Skip(name, size), g).1
    ensures Within(named, universe)
  {
    LiveIsUsable(named, s, name);
    ghost var view, before, block := ViewOf(named), named[name].Value(), named[name].block;
    var count := NamedBuffers.Skip(named, universe, name, size);
    reply := Moved(count);
    TakenSimulates(named, view, s, Command.Skip(name, size), g, before, named[name].Value(), block, count);
  }

  method Clear(ghost s: Spec, named: Names, ghost universe: set<object>, name: Name, g: Grants)
    requires Simulates(named, s) && Within(named, universe) && Legal(s.contents, Command.Clear(name))
    modifies named[name]
    ensures Simulates(named, Next(s, Command.Clear(name), g).0)
    ensures Within(named, universe)
  {
    LiveIsUsable(named, s, name);
    ghost var before := named[name].Value();
    NamedBuffers.Clear(named, universe, name);
    ClearMatches(old(ViewOf(named)), s, name, g, before);
  }

  /** What an operation on `name` alone leaves of the specification. */
  lemma OthersStill(view: View, s: Spec, named: Names, name: Name, seen: Seen)
    requires Matches(view, s) && name in view && ViewOf(named) == view[name := seen]
    ensures OthersSimulate(named, s, name)
  {
    assert ViewOf(named).Keys == named.Keys == view.Keys;
    forall n | n in named && n != name
      ensures Shows(named[n].Snapshot(), s.contents[n], s.books.entries[n])
    {
      assert ViewOf(named)[n] == view[n];
    }
  }

  /** `intact` is false when the split that the write needs finds no memory and bytes are lost. */
  method Write(ghost s: Spec, named: Names, ghost universe: set<object>, name: Name, source: Memory, g: Grants)
    returns (reply: Reply, accepted: bool, intact: bool, ghost grown: set<object>)
    requires Simulates(named, s) && Within(named, universe) && Legal(s.contents, Command.Write(name, source))
    modifies named[name], named[name].block, named[name].block.element
    ensures intact <==> !Loses(s.books, Command.Write(name, source), g)
    ensures intact ==> (accepted <==> Accepted(s.books, Command.Write(name, source), g))
    ensures intact ==> Simulates(named, Next(s, Command.Write(name, source), g).0)
    ensures intact ==> reply == Next(s, Command.Write(name, source), g).1
    ensures OthersSimulate(named, s, name)
    ensures Within(named, grown) && fresh(grown - universe)
  {
    ghost var view := ViewOf(named);
    LiveIsUsable(named, s, name);
    SharedIsCounted(named, name);
    LosesMatches(view, s, name, g);
    ghost var before := named[name].Value();
    var size := if source.None? then 0 else |source.value|;
    var drained := named[name].readerIndex == named[name].writerIndex;
    var fits := g.growth && 0 < size && named[name].writerIndex + size <= SIZE_MAX;
    intact := named[name].block.retainCount == 1 || g.split || named[name].writerIndex == 0 || (drained && fits);
    var outcome;
    ghost var answers;
    outcome, answers, grown := NamedBuffers.Write(named, universe, name, source, g);
    ghost var seen := Seen(Some(named[name].Value()), named[name].block);
    OthersStill(view, s, named, name, seen);
    reply := Moved(if outcome.Done? then outcome.value else 0);
    accepted := outcome.Done? && outcome.value > 0;
    if intact {
      WriteMatches(view, s, name, source, g, before, answers, seen, outcome);
    }
  }

  method Discard(ghost s: Spec, named: Names, ghost universe: set<object>, name: Name, g: Grants)
    returns (intact: bool, ghost grown: set<object>)
    requires Simulates(named, s) && Within(named, universe) && Legal(s.contents, Command.Discard(name))
    modifies named[name], named[name].block, named[name].block.element
    ensures intact <==> !Loses(s.books, Command.Discard(name), g)
    ensures intact ==> Simulates(named, Next(s, Command.Discard(name), g).0)
    ensures OthersSimulate(named, s, name)
    ensures Within(named, grown) && fresh(grown - universe)
  {
    ghost var view := ViewOf(named);
    LiveIsUsable(named, s, name);
    SharedIsCounted(named, name);
    LosesMatches(view, s, name, g);
    ghost var before := named[name].Value();
    var moves := 0 < named[name].readerIndex < named[name].writerIndex;
    intact := named[name].block.retainCount == 1 || g.split || !moves;
    ghost var answers;
    answers, grown := NamedBuffers.Discard(named, universe, name, g);
    ghost var seen := Seen(Some(named[name].Value()), named[name].block);
    OthersStill(view, s, named, name, seen);
    if intact {
      DiscardMatches(view, s, name, g, before, answers, seen);
    }
  }

  method Consume(ghost s: Spec, named: Names, ghost universe: set<object>, c: Command, g: Grants) returns (reply: Reply)
    requires Simulates(named, s) && Within(named, universe) && Legal(s.contents, c)
    requires c.Read? || c.ReadString? || c.Skip? || c.Clear?
    modifies named[c.name]
    ensures Simulates(named, Next(s, c, g).0) && reply == Next(s, c, g).1
    ensures Within(named, universe)
  {
    reply := Nothing;
    match c
    case Read(name, destination, size) => reply := Read(s, named, universe, name, destination, size, g);
    case ReadString(name, size) => reply := ReadString(s, named, universe, name, size, g);
    case Skip(name, size) => reply := Skip(s, named, universe, name, size, g);
    case Clear(name) => Clear(s, named, universe, name, g);
  }

  /** Carries out one command; `intact` is false when a copy-on-write split found no memory and the
      bytes of the buffer were lost. */
  method Perform(ghost s: Spec, named: Names, ghost universe: set<object>, c: Command, g: Grants)
    returns (after: Names, reply: Reply, accepted: bool, intact: bool, ghost grown: set<object>)
    requires Simulates(named, s) && Within(named, universe) && Legal(s.contents, c)
    modifies universe
    ensures intact <==> !Loses(s.books, c, g)
    ensures intact ==> Simulates(after, Next(s, c, g).0) && reply == Next(s, c, g).1
    ensures intact ==> (accepted <==> Accepted(s.books, c, g))
    ensures !intact ==> OthersSimulate(after, s, c.name)
    ensures Within(after, grown) && fresh(grown - universe)
  {
    after, grown := named, universe;
    reply, accepted, intact := Nothing, false, true;
    if c.Make? {
      after, grown := Make(s, named, universe, c.name, c.capacity, g);
    } else if c.Copy? {
      assert Inside(named[c.other], universe);
      after, grown := Copy(s, named, universe, c.name, c.other, g);
    } else if c.Move? {
      assert Inside(named[c.other], universe);
      after, grown := Move(s, named, universe, c.name, c.other, g);
    } else if c.Destroy? {
      assert Inside(named[c.name], universe);
      after := Destroy(s, named, universe, c.name, g);
    } else if c.CopyAssign? {
      assert Inside(named[c.name], universe) && Inside(named[c.other], universe);
      CopyAssign(s, named, universe, c.name, c.other, g);
    } else if c.MoveAssign? {
      assert Inside(named[c.name], universe) && Inside(named[c.other], universe);
      MoveAssign(s, named, universe, c.name, c.other, g);
    } else if c.Write? {
      assert Inside(named[c.name], universe);
      reply, accepted, intact, grown := Write(s, named, universe, c.name, c.source, g);
    } else if c.Discard? {
      assert Inside(named[c.name], universe);
      intact, grown := Discard(s, named, universe, c.name, g);
    } else {
      assert Inside(named[c.name], universe);
      reply := Consume(s, named, universe, c, g);
    }
  }

  // ---------- a whole program ----------

  /** What has been answered so far is what the specification says. */
  ghost predicate Answered(cs: seq<Command>, gs: seq<Grants>, accepted: seq<bool>, replies: seq<Reply>, s: Spec)
    requires |cs| == |gs|
  {
    && |accepted| <= |cs|
    && LegalRun(map[], cs[..|accepted|], accepted)
    && Run(map[], cs[..|accepted|], accepted) == (s.contents, replies)
    && s.books == BooksAt(cs, gs, |accepted|)
    && forall k | 0 <= k < |accepted| :: !LosesAt(cs, gs, k) && accepted[k] == AcceptedAt(cs, gs, k)
  }

  lemma AnsweredMore(cs: seq<Command>, gs: seq<Grants>, accepted: seq<bool>, replies: seq<Reply>, s: Spec,
                     after: Spec, reply: Reply)
    requires |cs| == |gs| && |accepted| < |cs| && Answered(cs, gs, accepted, replies, s)
    requires var n := |accepted|;
             && Legal(s.contents, cs[n]) && !Loses(s.books, cs[n], gs[n])
             && Step(s.contents, cs[n], Accepted(s.books, cs[n], gs[n])) == (after.contents, reply)
             && after.books == After(s.books, cs[n], gs[n])
    ensures Answered(cs, gs, accepted + [Accepted(s.books, cs[|accepted|], gs[|accepted|])], replies + [reply], after)
  {
    RunSnoc(map[], cs, accepted, Accepted(s.books, cs[|accepted|], gs[|accepted|]));
  }

  lemma NextAnswer(cs: seq<Command>, gs: seq<Grants>, accepted: seq<bool>, replies: seq<Reply>, s: Spec)
    requires |cs| == |gs| && LegalProgram(map[], cs) && Answered(cs, gs, accepted, replies, s) && |accepted| < |cs|
    ensures Legal(s.contents, cs[|accepted|])
    ensures var n := |accepted|;
            var c, g := cs[n], gs[n];
            if Loses(s.books, c, g) then LosesAt(cs, gs, n)
            else Answered(cs, gs, accepted + [Accepted(s.books, c, g)], replies + [Next(s, c, g).1], Next(s, c, g).0)
  {
    var n := |accepted|;
    NextIsLegal(map[], cs, accepted, true);
    if !Loses(s.books, cs[n], gs[n]) {
      AnsweredMore(cs, gs, accepted, replies, s, Next(s, cs[n], gs[n]).0, Next(s, cs[n], gs[n]).1);
    }
  }

  /** Whether the program gets to its end. */
  lemma StopsOnlyAfterCopying(cs: seq<Command>, gs: seq<Grants>, n: nat)
    requires n < |cs| == |gs| && LosesAt(cs, gs, n)
    ensures exists g :: g in gs && !g.split
    ensures exists c :: c in cs && Copies(c)
  {
    assert gs[n] in gs && !gs[n].split;
    if forall i | 0 <= i < n :: !Copies(cs[i]) {
      WithoutCopiesNothingIsLost(cs, gs, n);
    }
    var i :| 0 <= i < n && Copies(cs[i]);
    assert cs[i] in cs;
  }

  /** The buffer has the contents of its cell. */
  ghost predicate HoldsCell(b: ByteBuffer, cell: Cell)
    reads b, b.block, if b.block == null then {} else {b.block.element}
  {
    if cell.MovedFrom? then b.block == null
    else b.block != null && b.Value().Valid() && b.Value().Readable() == cell.content
  }

  lemma OthersHold(named: Names, s: Spec, name: Name)
    requires OthersSimulate(named, s, name)
    ensures forall n | n in named && n != name :: HoldsCell(named[n], s.contents[n])
  {
    forall n | n in named && n != name
      ensures HoldsCell(named[n], s.contents[n])
    {
      assert Shows(named[n].Snapshot(), s.contents[n], s.books.entries[n]);
    }
  }

  lemma AllHold(named: Names, s: Spec)
    requires Simulates(named, s)
    ensures named.Keys == s.contents.Keys && forall n | n in named :: HoldsCell(named[n], s.contents[n])
  {
    assert ViewOf(named).Keys == named.Keys;
    forall n | n in named
      ensures HoldsCell(named[n], s.contents[n])
    {
      assert Shows(ViewOf(named)[n].buffer, s.contents[n], s.books.entries[n]);
    }
  }

  /** Runs a program; `grants` says what the allocator is going to answer during each command, if it is
      asked. The run stops at the first command at which bytes are lost, because a copy-on-write split finds
      no memory for them, and nowhere else. Up to there all replies, and at its end the contents of all buffers, are
      those of the eager model, in which the books decide which writes are accepted. Where the run stops
      all buffers but the one being changed still hold what the eager model says. */
  method Execute(commands: seq<Command>, grants: seq<Grants>)
    returns (named: Names, replies: seq<Reply>, accepted: seq<bool>, completed: nat)
    requires LegalProgram(map[], commands) && |grants| == |commands|
    ensures completed <= |commands| && |accepted| == completed
    ensures forall k | 0 <= k < completed ::
              !LosesAt(commands, grants, k) && accepted[k] == AcceptedAt(commands, grants, k)
    ensures completed < |commands| ==> LosesAt(commands, grants, completed)
    ensures LegalRun(map[], commands[..completed], accepted)
    ensures replies == Run(map[], commands[..completed], accepted).1
    ensures var s := Spec(Run(map[], commands[..completed], accepted).0, BooksAt(commands, grants, completed));
            if completed == |commands| then Simulates(named, s)
            else OthersSimulate(named, s, commands[completed].name)
    ensures var m := Run(map[], commands[..completed], accepted).0;
            named.Keys == m.Keys
            && forall n | n in named && (completed < |commands| ==> n != commands[completed].name) ::
                 if m[n].MovedFrom? then named[n].block == null
                 else named[n].block != null && named[n].Value().Valid() && named[n].Value().Readable() == m[n].content
    ensures (forall g | g in grants :: g.split) ==> completed == |commands|
    ensures (forall c | c in commands :: !c.Copy? && !c.CopyAssign?) ==> completed == |commands|
  {
    named, replies, accepted, completed := map[], [], [], 0;
    ghost var s := NOTHING_YET;
    ghost var universe: set<object> := {};
    while completed < |commands|
      invariant completed == |accepted| && Answered(commands, grants, accepted, replies, s)
      invariant Simulates(named, s) && Within(named, universe) && fresh(universe)
    {
      NextAnswer(commands, grants, accepted, replies, s);
      var reply, a, intact;
      ghost var grown;
      named, reply, a, intact, grown := Perform(s, named, universe, commands[completed], grants[completed]);
      if !intact {
        StopsOnlyAfterCopying(commands, grants, completed);
        OthersHold(named, s, commands[completed].name);
        return;
      }
      s, universe := Next(s, commands[completed], grants[completed]).0, grown;
      replies, accepted, completed := replies + [reply], accepted + [a], completed + 1;
    }
    AllHold(named, s);
  }

  lemma RelayedInOrder(cs: seq<Command>, accepted: seq<bool>, name: Name, start: nat)
    requires |accepted| == |cs| && LegalRun(map[], cs, accepted)
    requires start < |cs| && cs[start].Make? && cs[start].name == name
    requires forall k | start < k < |cs| :: Relays(cs[k], name)
    ensures var (m, replies) := Run(map[], cs, accepted);
            && |replies| == |cs| && IsLive(m, name)
            && PutBetween(cs, accepted, name, start + 1, |cs|)
               == GotBetween(cs, replies, name, start + 1, |cs|) + Content(m, name)
  {
    var replies := Run(map[], cs, accepted).1;
    var ms := RunIsChain(map[], cs, accepted);
    assert IsLink(ms[start], cs[start], accepted[start], ms[start + 1], replies[start]);
    assert ms[start + 1][name] == Live([]);
    RepliesAreFifo(ms, cs, accepted, replies, name, start + 1, |cs|);
    assert Content(ms[start + 1], name) == [];
  }

  /** A program in which a buffer, once made, is only written, read and discarded: where splits find
      memory, the implementation's replies to its readers and the bytes it still holds are what the
      accepted writes put in, in order. */
  method Relay(commands: seq<Command>, grants: seq<Grants>, name: Name, start: nat)
    returns (named: Names, replies: seq<Reply>, accepted: seq<bool>)
    requires LegalProgram(map[], commands) && |grants| == |commands|
    requires start < |commands| && commands[start].Make? && commands[start].name == name
    requires forall k | start < k < |commands| :: Relays(commands[k], name)
    requires forall g | g in grants :: g.split
    ensures |replies| == |accepted| == |commands|
    ensures forall k | 0 <= k < |commands| :: accepted[k] == AcceptedAt(commands, grants, k)
    ensures IsUsable(named, name)
    ensures PutBetween(commands, accepted, name, start + 1, |commands|)
            == GotBetween(commands, replies, name, start + 1, |commands|) + named[name].Value().Readable()
  {
    var completed;
    named, replies, accepted, completed := Execute(commands, grants);
    assert commands[..completed] == commands && accepted[..completed] == accepted;
    RelayedInOrder(commands, accepted, name, start);
    LiveIsUsable(named, Spec(Run(map[], commands, accepted).0, BooksAt(commands, grants, completed)), name);
  }
}
