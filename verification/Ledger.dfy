/** What decides how a program over byte buffers goes, short of the bytes themselves: the cursors and the
    capacity of every buffer, which buffers share a block, and what the allocator is going to say. */
module Ledger {
  import opened BufferModel
  import opened EagerModel
  import opened Sizes
  import opened Storage

  /** A buffer's shape and the number of its block, or nothing once it has been moved from. */
  datatype Entry = Holding(shape: Shape, block: nat) | Vacant

  /** Blocks are numbered as they are made; `next` is unused. */
  datatype Books = Books(entries: map<Name, Entry>, next: nat)

  const NO_BOOKS := Books(map[], 0)

  predicate Holds(l: Books, name: Name) {
    name in l.entries && l.entries[name].Holding?
  }

  function ShapeIn(l: Books, name: Name): Shape {
    if Holds(l, name) then l.entries[name].shape else Shape(0, 0, 0)
  }

  function BlockIn(l: Books, name: Name): nat {
    if Holds(l, name) then l.entries[name].block else l.next
  }

  function EntryIn(l: Books, name: Name): Entry {
    if name in l.entries then l.entries[name] else Vacant
  }

  predicate Together(l: Books, a: Name, b: Name) {
    Holds(l, a) && Holds(l, b) && l.entries[a].block == l.entries[b].block
  }

  predicate IsShared(l: Books, name: Name) {
    exists other | other in l.entries :: other != name && Together(l, name, other)
  }

  /** The split that the command needs finds no memory, and bytes are lost. */
  predicate Loses(l: Books, c: Command, g: Grants) {
    match c
    case Write(name, source) => WriteLoses(ShapeIn(l, name), IsShared(l, name), CapacityOf(source), g)
    case Discard(name) => DiscardLoses(ShapeIn(l, name), IsShared(l, name), g)
    case _ => false
  }

  /** The command is a write that goes through. */
  predicate Accepted(l: Books, c: Command, g: Grants) {
    c.Write? && Accepts(ShapeIn(l, c.name), IsShared(l, c.name), CapacityOf(c.source), g)
  }

  /** The number of the block after an operation that needs it unshared. */
  function OwnBlock(l: Books, name: Name): nat {
    if IsShared(l, name) then l.next else BlockIn(l, name)
  }

  function AfterReading(l: Books, name: Name, wanted: nat): Books {
    var s := ShapeIn(l, name);
    var available := if s.writer > s.reader then s.writer - s.reader else 0;
    var taken := MinimumOf(wanted, available);
    l.(entries := l.entries[name := Holding(s.(reader := s.reader + taken), BlockIn(l, name))])
  }

  /** The command works on a buffer that has to have a block. */
  predicate Uses(c: Command) {
    c.Write? || c.Read? || c.ReadString? || c.Skip? || c.Discard? || c.Clear?
  }

  ghost function AfterLegal(l: Books, c: Command, g: Grants): Books {
    var s, block := ShapeIn(l, c.name), BlockIn(l, c.name);
    match c
    case Make(name, capacity) =>
      Books(l.entries[name := Holding(Shape(0, 0, if g.growth then Rounded(capacity) else 0), l.next)], l.next + 1)
    case Copy(name, other) => l.(entries := l.entries[name := EntryIn(l, other)])
    case Move(name, other) => l.(entries := l.entries[name := EntryIn(l, other)][other := Vacant])
    case CopyAssign(name, other) => l.(entries := l.entries[name := EntryIn(l, other)])
    case MoveAssign(name, other) =>
      if name == other then l else l.(entries := l.entries[name := EntryIn(l, other)][other := Vacant])
    case Destroy(name) => l.(entries := l.entries - {name})
    case Write(name, source) =>
      var after := ShapeAfterWrite(s, IsShared(l, name), CapacityOf(source), g);
      Books(l.entries[name := Holding(after, OwnBlock(l, name))], l.next + 1)
    case Read(name, destination, size) => AfterReading(l, name, if destination then size else 0)
    case ReadString(name, size) => AfterReading(l, name, size)
    case Skip(name, size) => AfterReading(l, name, size)
    case Discard(name) =>
      if Moves(s) then
        Books(l.entries[name := Holding(Shape(0, s.writer - s.reader, s.capacity), OwnBlock(l, name))], l.next + 1)
      else
        var after := if s.reader == 0 then s else Shape(0, 0, s.capacity);
        l.(entries := l.entries[name := Holding(after, block)])
    case Clear(name) => l.(entries := l.entries[name := Holding(Shape(0, 0, s.capacity), block)])
  }

  ghost function After(l: Books, c: Command, g: Grants): Books {
    if Uses(c) && !Holds(l, c.name) then l else AfterLegal(l, c, g)
  }

  // ---------- programs ----------

  /** The books after the first `k` commands. */
  ghost function BooksAt(cs: seq<Command>, gs: seq<Grants>, k: nat): Books
    requires k <= |cs| == |gs|
  {
    if k == 0 then NO_BOOKS else After(BooksAt(cs, gs, k - 1), cs[k - 1], gs[k - 1])
  }

  ghost predicate LosesAt(cs: seq<Command>, gs: seq<Grants>, k: nat)
    requires k < |cs| == |gs|
  {
    Loses(BooksAt(cs, gs, k), cs[k], gs[k])
  }

  ghost predicate AcceptedAt(cs: seq<Command>, gs: seq<Grants>, k: nat)
    requires k < |cs| == |gs|
  {
    Accepted(BooksAt(cs, gs, k), cs[k], gs[k])
  }

  /** Nothing is lost where every split finds memory. */
  lemma GrantedSplitsLoseNothing(cs: seq<Command>, gs: seq<Grants>, k: nat)
    requires k < |cs| == |gs| && gs[k].split
    ensures !LosesAt(cs, gs, k)
  {
  }

  predicate Copies(c: Command) {
    c.Copy? || c.CopyAssign?
  }

  /** No two buffers share a block. */
  ghost predicate Unshared(l: Books) {
    && (forall a | Holds(l, a) :: l.entries[a].block < l.next)
    && (forall a, b | Together(l, a, b) :: a == b)
  }

  lemma StaysUnshared(l: Books, c: Command, g: Grants)
    requires Unshared(l) && !Copies(c)
    ensures Unshared(After(l, c, g))
  {
    var l' := After(l, c, g);
    forall a, b | Together(l', a, b)
      ensures a == b
    {
      var x := if a == c.name && (c.Move? || c.MoveAssign?) then c.other else a;
      var y := if b == c.name && (c.Move? || c.MoveAssign?) then c.other else b;
      assert l'.entries[a].block == l.next || Together(l, x, x);
      assert l'.entries[b].block == l.next || Together(l, y, y);
      assert Together(l, x, y) ==> x == y;
    }
  }

  lemma {:induction false} UnsharedBooks(cs: seq<Command>, gs: seq<Grants>, k: nat)
    requires k <= |cs| == |gs|
    requires forall i | 0 <= i < k :: !Copies(cs[i])
    ensures Unshared(BooksAt(cs, gs, k))
  {
    if k > 0 {
      UnsharedBooks(cs, gs, k - 1);
      StaysUnshared(BooksAt(cs, gs, k - 1), cs[k - 1], gs[k - 1]);
    }
  }

  /** A program that copies no buffer loses nothing, whatever the allocator says. */
  lemma WithoutCopiesNothingIsLost(cs: seq<Command>, gs: seq<Grants>, k: nat)
    requires k < |cs| == |gs|
    requires forall i | 0 <= i < k :: !Copies(cs[i])
    ensures !LosesAt(cs, gs, k)
  {
    UnsharedBooks(cs, gs, k);
  }

  /** A write that fits the space the buffer has is accepted whatever the allocator says about growth,
      and one that does not fit is accepted exactly when the allocator grants it and its end is a size. */
  lemma RoomDecides(cs: seq<Command>, gs: seq<Grants>, k: nat)
    requires k < |cs| == |gs| && cs[k].Write? && CapacityOf(cs[k].source) > 0
    requires !IsShared(BooksAt(cs, gs, k), cs[k].name) || gs[k].split
    ensures var s, size := ShapeIn(BooksAt(cs, gs, k), cs[k].name), CapacityOf(cs[k].source);
            AcceptedAt(cs, gs, k) <==>
              s.writer + size <= s.capacity <= SIZE_MAX || (gs[k].growth && s.writer + size <= SIZE_MAX)
  {
  }
}
