/** The buffers of a program by name, and what each operation on one of them does to what can be seen of
    all of them. */
module NamedBuffers {
  import opened BufferModel
  import opened ByteBuffers
  import opened EagerModel
  import opened Options
  import opened Sizes
  import opened Storage

  type Names = map<Name, ByteBuffer>

  /** A buffer's value, unless it has been moved from, and the block that it shares. */
  datatype Seen = Seen(buffer: Option<Buffer>, block: Block?)

  type View = map<Name, Seen>

  ghost function ViewOf(named: Names): View
    reads *
  {
    map n | n in named :: Seen(named[n].Snapshot(), named[n].block)
  }

  ghost predicate Distinct(named: Names) {
    forall m, n | m in named && n in named && m != n :: named[m] != named[n]
  }

  /** The implementation is consistent. */
  ghost predicate Consistent(named: Names)
    reads *
  {
    AllLinked(named.Values) && Distinct(named)
  }

  /** A buffer with its block and its element. */
  ghost predicate Inside(b: ByteBuffer, universe: set<object>)
    reads *
  {
    b in universe && (b.block != null ==> b.block in universe && b.block.element in universe)
  }

  /** All objects the buffers consist of are in `universe`. */
  ghost predicate Within(named: Names, universe: set<object>)
    reads *
  {
    forall n | n in named :: Inside(named[n], universe)
  }

  ghost predicate IsUsable(named: Names, name: Name)
    reads *
  {
    name in named && named[name].block != null && named[name].Value().Valid()
  }

  /** Another buffer refers to the same block. */
  ghost predicate SharedIn(view: View, name: Name)
    requires name in view
  {
    exists other | other in view :: other != name && view[other].block == view[name].block
  }

  // ---------- sets and maps ----------

  lemma InsertValue(named: Names, name: Name, b: ByteBuffer)
    requires name !in named
    ensures named[name := b].Values == named.Values + {b}
  {
    forall x | x in named.Values
      ensures x in named[name := b].Values
    {
      var n :| n in named && named[n] == x;
      assert named[name := b][n] == x;
    }
    assert named[name := b][name] == b;
  }

  lemma RemoveValue(named: Names, name: Name)
    requires name in named && Distinct(named)
    ensures (named - {name}).Values == named.Values - {named[name]}
  {
    forall x | x in named.Values - {named[name]}
      ensures x in (named - {name}).Values
    {
      var n :| n in named && named[n] == x;
      assert (named - {name})[n] == x;
    }
  }

  lemma TwoMembers<T>(s: set<T>, x: T, y: T)
    requires x in s && y in s && x != y
    ensures |s| > 1
  {
    var rest := s - {x} - {y};
    assert s == rest + {x} + {y};
  }

  lemma AnotherMember<T>(s: set<T>, x: T) returns (y: T)
    requires |s| > 1
    ensures y in s && y != x
  {
    var rest := s - {x};
    assert s == if x in s then rest + {x} else rest;
    y :| y in rest;
  }

  /** The count of a block tells whether another buffer refers to it. */
  lemma SharedIsCounted(named: Names, name: Name)
    requires Consistent(named) && name in named && named[name].block != null
    ensures named[name].block.retainCount >= 1
    ensures named[name].block.retainCount > 1 <==> SharedIn(ViewOf(named), name)
  {
    var b, view := named[name], ViewOf(named);
    assert b.Linked(named.Values);
    if SharedIn(view, name) {
      var other :| other in view && other != name && view[other].block == view[name].block;
      assert named[other].Linked(named.Values);
      TwoMembers(b.block.holders, b, named[other]);
    }
    if b.block.retainCount > 1 {
      var x := AnotherMember(b.block.holders, b);
      var other :| other in named && named[other] == x;
      assert view[other].block == view[name].block;
    }
  }

  // ---------- what a change to few buffers leaves alone ----------

  /** One buffer was changed in place. */
  twostate lemma OneChanged(named: Names, new name: Name)
    requires name in named && Kept(named.Values - {named[name]}) && Distinct(named)
    ensures ViewOf(named) == old(ViewOf(named))[name := Seen(named[name].Snapshot(), named[name].block)]
  {
    forall n | n in named && n != name
      ensures ViewOf(named)[n] == old(ViewOf(named)[n])
    {
      assert named[n] in named.Values - {named[name]};
    }
  }

  /** One buffer was created. */
  twostate lemma OneCreated(named: Names, new name: Name, new b: ByteBuffer)
    requires name !in named && Kept(named.Values)
    ensures ViewOf(named[name := b]) == old(ViewOf(named))[name := Seen(b.Snapshot(), b.block)]
  {
    forall n | n in named
      ensures ViewOf(named[name := b])[n] == old(ViewOf(named)[n])
    {
      assert named[n] in named.Values;
    }
  }

  /** One buffer was created or changed, and one has lost its block. */
  twostate lemma TwoChanged(named: Names, new after: Names, new name: Name, new b: ByteBuffer, new other: Name)
    requires other in named && name != other && after == named[name := b] && Distinct(after)
    requires Kept(named.Values - {b, named[other]}) && named[other].block == null
    ensures ViewOf(after) == old(ViewOf(named))[name := Seen(b.Snapshot(), b.block)][other := Seen(None, null)]
  {
    forall n | n in after && n != name && n != other
      ensures ViewOf(after)[n] == old(ViewOf(named)[n])
    {
      assert after[n] == named[n] && after[n] != after[name] && after[n] != after[other];
      assert named[n] in named.Values - {b, named[other]};
    }
  }

  // ---------- operations ----------

  method Make(named: Names, ghost universe: set<object>, name: Name, capacity: Size, granted: bool)
    returns (after: Names, ghost grown: set<object>, ghost made: Seen)
    requires Consistent(named) && Within(named, universe) && name !in named
    ensures Consistent(after) && Within(after, grown) && fresh(grown - universe)
    ensures ViewOf(after) == old(ViewOf(named))[name := made]
    ensures made.buffer.Some? && made.block != null && fresh(made.block)
    ensures var b := made.buffer.value;
            && b.Valid() && b.Readable() == []
            && ShapeOf(b) == Shape(0, 0, if granted then Rounded(capacity) else 0)
  {
    var b := new ByteBuffer(capacity, granted, named.Values);
    InsertValue(named, name, b);
    OneCreated(named, name, b);
    after := named[name := b];
    grown := universe + {b, b.block, b.block.element};
    made := Seen(b.Snapshot(), b.block);
  }

  method Copy(named: Names, ghost universe: set<object>, name: Name, other: Name)
    returns (after: Names, ghost grown: set<object>)
    requires Consistent(named) && Within(named, universe) && name !in named && IsUsable(named, other)
    modifies named[other].block
    ensures Consistent(after) && Within(after, grown) && fresh(grown - universe)
    ensures ViewOf(after) == old(ViewOf(named))[name := old(ViewOf(named)[other])]
  {
    var b := new ByteBuffer.Copy(named[other], named.Values);
    InsertValue(named, name, b);
    OneCreated(named, name, b);
    after := named[name := b];
    grown := universe + {b};
  }

  method Move(named: Names, ghost universe: set<object>, name: Name, other: Name)
    returns (after: Names, ghost grown: set<object>)
    requires Consistent(named) && Within(named, universe) && name !in named && other in named
    modifies named[other], named[other].block
    ensures Consistent(after) && Within(after, grown) && fresh(grown - universe)
    ensures ViewOf(after) == old(ViewOf(named))[name := old(ViewOf(named)[other])][other := Seen(None, null)]
  {
    var b := new ByteBuffer.Move(named[other], named.Values);
    InsertValue(named, name, b);
    after := named[name := b];
    TwoChanged(named, after, name, b, other);
    grown := universe + {b};
  }

  method Destroy(named: Names, ghost universe: set<object>, name: Name) returns (after: Names)
    requires Consistent(named) && Within(named, universe) && name in named
    modifies named[name].block
    ensures Consistent(after) && Within(after, universe)
    ensures ViewOf(after) == old(ViewOf(named)) - {name}
  {
    named[name].Destroy(named.Values);
    RemoveValue(named, name);
    OneChanged(named, name);
    after := named - {name};
    assert ViewOf(after) == ViewOf(named) - {name};
  }

  method CopyAssign(named: Names, ghost universe: set<object>, name: Name, other: Name)
    requires Consistent(named) && Within(named, universe) && name in named && IsUsable(named, other)
    modifies named[name], named[name].block, named[other].block
    ensures Consistent(named) && Within(named, universe)
    ensures ViewOf(named) == old(ViewOf(named))[name := old(ViewOf(named)[other])]
  {
    named[name].CopyAssign(named[other], named.Values);
    OneChanged(named, name);
  }

  method MoveAssign(named: Names, ghost universe: set<object>, name: Name, other: Name)
    requires Consistent(named) && Within(named, universe) && name in named && other in named
    modifies named[name], named[name].block, named[other], named[other].block
    ensures Consistent(named) && Within(named, universe)
    ensures if name == other then ViewOf(named) == old(ViewOf(named))
            else ViewOf(named) == old(ViewOf(named))[name := old(ViewOf(named)[other])][other := Seen(None, null)]
  {
    named[name].MoveAssign(named[other], named.Values);
    if name == other {
      OneChanged(named, name);
    } else {
      assert named[name := named[name]] == named;
      TwoChanged(named, named, name, named[name], other);
    }
  }

  method Write(named: Names, ghost universe: set<object>, name: Name, source: Memory, g: Grants)
    returns (outcome: Outcome<Size>, ghost answers: Answers, ghost grown: set<object>)
    requires Consistent(named) && Within(named, universe) && IsUsable(named, name)
    requires CapacityOf(source) <= SIZE_MAX
    modifies named[name], named[name].block, named[name].block.element
    ensures Consistent(named) && Within(named, grown) && fresh(grown - universe)
    ensures named[name].block != null
    ensures ViewOf(named) == old(ViewOf(named))[name := Seen(Some(named[name].Value()), named[name].block)]
    ensures if old(SharedIn(ViewOf(named), name)) then fresh(named[name].block)
            else named[name].block == old(named[name].block)
    ensures var before, shared := old(named[name].Value()), old(SharedIn(ViewOf(named), name));
            Follows(before, shared, CapacityOf(source), before.writerIndex, g, answers)
            && (named[name].Value(), outcome) == WriteEffect(before, shared, source, answers)
  {
    var b := named[name];
    ghost var block := b.block;
    assert Inside(b, universe);
    SharedIsCounted(named, name);
    outcome, answers := b.WriteBytes(source, if source.None? then 0 else |source.value|, g, named.Values);
    grown := if b.block == block then universe else universe + {b.block, b.block.element};
    forall n | n in named
      ensures Inside(named[n], grown)
    {
      assert old(Inside(named[n], universe));
    }
    OneChanged(named, name);
  }

  method Discard(named: Names, ghost universe: set<object>, name: Name, g: Grants)
    returns (ghost answers: Answers, ghost grown: set<object>)
    requires Consistent(named) && Within(named, universe) && IsUsable(named, name)
    modifies named[name], named[name].block, named[name].block.element
    ensures Consistent(named) && Within(named, grown) && fresh(grown - universe)
    ensures named[name].block != null
    ensures ViewOf(named) == old(ViewOf(named))[name := Seen(Some(named[name].Value()), named[name].block)]
    ensures if old(SharedIn(ViewOf(named), name) && Moves(ShapeOf(named[name].Value()))) then fresh(named[name].block)
            else named[name].block == old(named[name].block)
    ensures var before, shared := old(named[name].Value()), old(SharedIn(ViewOf(named), name));
            IsAnswer(before, shared, before.ReadableBytes(), 0, answers) && answers.split == g.split
            && named[name].Value() == DiscardEffect(before, shared, answers).0
  {
    var b := named[name];
    ghost var block := b.block;
    assert Inside(b, universe);
    SharedIsCounted(named, name);
    var outcome, given := b.DiscardReadBytes(g, named.Values);
    answers := given;
    grown := if b.block == block then universe else universe + {b.block, b.block.element};
    forall n | n in named
      ensures Inside(named[n], grown)
    {
      assert old(Inside(named[n], universe));
    }
    OneChanged(named, name);
  }

  /** Only the cursors of one buffer have changed. */
  twostate lemma CursorsChanged(named: Names, new name: Name)
    requires old(Consistent(named)) && name in named && named[name].block == old(named[name].block) != null
    requires forall b | b in named.Values && b != named[name] :: unchanged(b)
    requires forall b | b in named.Values && b.block != null :: unchanged(b.block) && unchanged(b.block.element)
    ensures Consistent(named)
    ensures ViewOf(named) == old(ViewOf(named))[name := Seen(Some(named[name].Value()), named[name].block)]
  {
    named[name].OnlyOwnCursorsChanged(named.Values);
    OneChanged(named, name);
  }

  method Read(named: Names, ghost universe: set<object>, name: Name, destination: bool, size: Size)
    returns (read: seq<byte>)
    requires Consistent(named) && Within(named, universe) && IsUsable(named, name)
    modifies named[name]
    ensures Consistent(named) && Within(named, universe) && IsUsable(named, name)
    ensures ViewOf(named) == old(ViewOf(named))[name := Seen(Some(named[name].Value()), old(named[name].block))]
    ensures var before := old(named[name].Value());
            && |read| == MinimumOf(if destination then size else 0, before.ReadableBytes())
            && read == before.Readable()[..|read|]
            && named[name].Value() == before.(readerIndex := before.readerIndex + |read|)
  {
    var b := named[name];
    assert b.Linked(named.Values);
    read := b.ReadBytes(destination, size);
    CursorsChanged(named, name);
  }

  method ReadString(named: Names, ghost universe: set<object>, name: Name, size: Size) returns (read: seq<byte>)
    requires Consistent(named) && Within(named, universe) && IsUsable(named, name)
    modifies named[name]
    ensures Consistent(named) && Within(named, universe) && IsUsable(named, name)
    ensures ViewOf(named) == old(ViewOf(named))[name := Seen(Some(named[name].Value()), old(named[name].block))]
    ensures var before := old(named[name].Value());
            && |read| == MinimumOf(size, before.ReadableBytes())
            && read == before.Readable()[..|read|]
            && named[name].Value() == before.(readerIndex := before.readerIndex + |read|)
  {
    var b := named[name];
    assert b.Linked(named.Values);
    read := b.ReadString(size);
    CursorsChanged(named, name);
  }

  method Skip(named: Names, ghost universe: set<object>, name: Name, size: Size) returns (count: Size)
    requires Consistent(named) && Within(named, universe) && IsUsable(named, name)
    modifies named[name]
    ensures Consistent(named) && Within(named, universe) && IsUsable(named, name)
    ensures ViewOf(named) == old(ViewOf(named))[name := Seen(Some(named[name].Value()), old(named[name].block))]
    ensures var before := old(named[name].Value());
            count == MinimumOf(size, before.ReadableBytes())
            && named[name].Value() == before.(readerIndex := before.readerIndex + count)
  {
    count := named[name].SkipBytes(size);
    CursorsChanged(named, name);
  }

  method Clear(named: Names, ghost universe: set<object>, name: Name)
    requires Consistent(named) && Within(named, universe) && IsUsable(named, name)
    modifies named[name]
    ensures Consistent(named) && Within(named, universe) && IsUsable(named, name)
    ensures ViewOf(named) == old(ViewOf(named))[name := Seen(Some(named[name].Value()), old(named[name].block))]
    ensures named[name].Value() == old(named[name].Value()).(readerIndex := 0, writerIndex := 0)
  {
    named[name].Clear(named.Values);
    CursorsChanged(named, name);
  }
}
