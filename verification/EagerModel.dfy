/** The meaning of a program over byte buffers: every buffer owns a private queue of bytes, and
    copying a buffer copies its bytes there and then. */
module EagerModel {
  import opened Options
  import opened Sizes
  import opened Storage

  type Name = nat

  datatype Cell = Live(content: seq<byte>) | MovedFrom

  type Model = map<Name, Cell>

  datatype Command =
    | Make(name: Name, capacity: Size)
    | Copy(name: Name, other: Name)
    | Move(name: Name, other: Name)
    | CopyAssign(name: Name, other: Name)
    | MoveAssign(name: Name, other: Name)
    | Destroy(name: Name)
    | Write(name: Name, source: Memory)
    | Read(name: Name, destination: bool, size: Size)
    | ReadString(name: Name, size: Size)
    | Skip(name: Name, size: Size)
    | Discard(name: Name)
    | Clear(name: Name)

  /** What a call reports to its caller. */
  datatype Reply = Nothing | Moved(count: nat) | Bytes(bytes: seq<byte>)

  predicate IsLive(m: Model, name: Name) {
    name in m && m[name].Live?
  }

  /** What the language asks of the caller: operands exist, constructed names are new, and a buffer
      that was moved from is only destroyed, assigned to or moved again. */
  predicate Legal(m: Model, c: Command) {
    match c
    case Make(name, _) => name !in m
    case Copy(name, other) => name !in m && IsLive(m, other)
    case Move(name, other) => name !in m && other in m
    case CopyAssign(name, other) => name in m && IsLive(m, other)
    case MoveAssign(name, other) => name in m && other in m
    case Destroy(name) => name in m
    case Write(name, source) => IsLive(m, name) && CapacityOf(source) <= SIZE_MAX
    case _ => IsLive(m, c.name)
  }

  function Content(m: Model, name: Name): seq<byte> {
    if IsLive(m, name) then m[name].content else []
  }

  /** How many bytes a reading call takes from the front of the queue. */
  function Taken(m: Model, c: Command): (k: nat)
    ensures k <= |Content(m, c.name)|
  {
    var available := |Content(m, c.name)|;
    match c
    case Read(_, destination, size) => if destination then MinimumOf(size, available) else 0
    case ReadString(_, size) => MinimumOf(size, available)
    case Skip(_, size) => MinimumOf(size, available)
    case _ => 0
  }

  /** One command; `accepted` says whether a write got the memory it needed. */
  function Step(m: Model, c: Command, accepted: bool): (Model, Reply)
    requires Legal(m, c)
  {
    var content := Content(m, c.name);
    var k := Taken(m, c);
    match c
    case Make(name, _) => (m[name := Live([])], Nothing)
    case Copy(name, other) => (m[name := m[other]], Nothing)
    case Move(name, other) => (m[name := m[other]][other := MovedFrom], Nothing)
    case CopyAssign(name, other) => (m[name := m[other]], Nothing)
    case MoveAssign(name, other) =>
      (if name == other then m else m[name := m[other]][other := MovedFrom], Nothing)
    case Destroy(name) => (m - {name}, Nothing)
    case Write(name, source) =>
      if accepted && source.Some? then (m[name := Live(content + source.value)], Moved(|source.value|))
      else (m, Moved(0))
    case Read(name, _, _) => (m[name := Live(content[k..])], Bytes(content[..k]))
    case ReadString(name, _) => (m[name := Live(content[k..])], Bytes(content[..k]))
    case Skip(name, _) => (m[name := Live(content[k..])], Moved(k))
    case Discard(_) => (m, Nothing)
    case Clear(name) => (m[name := Live([])], Nothing)
  }

  /** Every command is legal when its turn comes. */
  predicate LegalRun(m: Model, cs: seq<Command>, accepted: seq<bool>)
    requires |accepted| == |cs|
    decreases |cs|, 0
  {
    cs == [] ||
    var n := |cs| - 1;
    LegalRun(m, cs[..n], accepted[..n]) && Legal(Run(m, cs[..n], accepted[..n]).0, cs[n])
  }

  function Run(m: Model, cs: seq<Command>, accepted: seq<bool>): (r: (Model, seq<Reply>))
    requires |accepted| == |cs| && LegalRun(m, cs, accepted)
    decreases |cs|, 1
  {
    if cs == [] then (m, [])
    else
      var n := |cs| - 1;
      var (before, replies) := Run(m, cs[..n], accepted[..n]);
      var (after, reply) := Step(before, cs[n], accepted[n]);
      (after, replies + [reply])
  }

  /** A program that is legal whatever its writes get is legal step by step. */
  ghost predicate LegalProgram(m: Model, cs: seq<Command>) {
    forall accepted: seq<bool> | |accepted| == |cs| :: LegalRun(m, cs, accepted)
  }

  lemma {:induction false} LegalPrefix(m: Model, cs: seq<Command>, accepted: seq<bool>, k: nat)
    requires |accepted| == |cs| && LegalRun(m, cs, accepted) && k < |cs|
    ensures LegalRun(m, cs[..k], accepted[..k])
    ensures Legal(Run(m, cs[..k], accepted[..k]).0, cs[k])
    decreases |cs|
  {
    var n := |cs| - 1;
    if k < n {
      LegalPrefix(m, cs[..n], accepted[..n], k);
      assert cs[..n][..k] == cs[..k] && accepted[..n][..k] == accepted[..k];
    }
  }

  lemma NextIsLegal(m: Model, cs: seq<Command>, accepted: seq<bool>, a: bool)
    requires LegalProgram(m, cs) && |accepted| < |cs|
    ensures LegalRun(m, cs[..|accepted|], accepted)
    ensures Legal(Run(m, cs[..|accepted|], accepted).0, cs[|accepted|])
  {
    var k := |accepted|;
    var full := accepted + seq(|cs| - k, _ => a);
    assert full[..k] == accepted;
    LegalPrefix(m, cs, full, k);
  }

  /** The run of one more command. */
  lemma RunSnoc(m: Model, cs: seq<Command>, accepted: seq<bool>, a: bool)
    requires |accepted| < |cs| && LegalRun(m, cs[..|accepted|], accepted)
    requires Legal(Run(m, cs[..|accepted|], accepted).0, cs[|accepted|])
    ensures var (before, replies) := Run(m, cs[..|accepted|], accepted);
            var (after, reply) := Step(before, cs[|accepted|], a);
            && LegalRun(m, cs[..|accepted| + 1], accepted + [a])
            && Run(m, cs[..|accepted| + 1], accepted + [a]) == (after, replies + [reply])
  {
    var k := |accepted|;
    assert cs[..k + 1][..k] == cs[..k] && (accepted + [a])[..k] == accepted;
  }

  // ---------- first in, first out ----------

  /** The command leaves the queue of `name` to writes and reads. */
  predicate Keeps(c: Command, name: Name) {
    match c
    case Move(_, other) => c.name != name && other != name
    case MoveAssign(_, other) => c.name != name && other != name
    case Write(_, _) => true
    case Read(_, _, _) => true
    case ReadString(_, _) => true
    case Skip(_, _) => true
    case Discard(_) => true
    case _ => c.name != name
  }

  function Appended(c: Command, accepted: bool, name: Name): seq<byte> {
    if c.Write? && c.name == name && accepted && c.source.Some? then c.source.value else []
  }

  function Consumed(m: Model, c: Command, name: Name): seq<byte> {
    if c.name == name then Content(m, name)[..Taken(m, c)] else []
  }

  function AllAppended(cs: seq<Command>, accepted: seq<bool>, name: Name): seq<byte>
    requires |accepted| == |cs|
  {
    if cs == [] then []
    else
      var n := |cs| - 1;
      AllAppended(cs[..n], accepted[..n], name) + Appended(cs[n], accepted[n], name)
  }

  function AllConsumed(m: Model, cs: seq<Command>, accepted: seq<bool>, name: Name): seq<byte>
    requires |accepted| == |cs| && LegalRun(m, cs, accepted)
  {
    if cs == [] then []
    else
      var n := |cs| - 1;
      AllConsumed(m, cs[..n], accepted[..n], name) + Consumed(Run(m, cs[..n], accepted[..n]).0, cs[n], name)
  }

  lemma Rearrange<T>(a: seq<T>, b: seq<T>, rest: seq<T>, c: seq<T>, d: seq<T>, e: seq<T>, f: seq<T>)
    requires a + b == c + d && d + rest == e + f
    ensures a + (b + rest) == (c + e) + f
  {
    assert a + (b + rest) == (a + b) + rest;
    assert (c + d) + rest == c + (d + rest);
    assert c + (e + f) == (c + e) + f;
  }

  lemma OwnStepIsFifo(m: Model, c: Command, a: bool)
    requires Legal(m, c) && IsLive(m, c.name) && Keeps(c, c.name)
    ensures IsLive(Step(m, c, a).0, c.name)
    ensures Content(m, c.name) + Appended(c, a, c.name)
            == Consumed(m, c, c.name) + Content(Step(m, c, a).0, c.name)
  {
    var content, k := Content(m, c.name), Taken(m, c);
    assert content == content[..k] + content[k..];
    match c
    case Write(_, _) => assert k == 0;
    case Discard(_) => assert k == 0;
    case _ =>
  }

  lemma OtherStepIsFifo(m: Model, c: Command, a: bool, name: Name)
    requires Legal(m, c) && IsLive(m, name) && Keeps(c, name) && c.name != name
    ensures name in Step(m, c, a).0 && Step(m, c, a).0[name] == m[name]
  {
    match c
    case Move(_, _) =>
    case MoveAssign(_, _) =>
    case Destroy(_) =>
    case _ =>
  }

  lemma OneStepIsFifo(m: Model, c: Command, a: bool, name: Name)
    requires Legal(m, c) && IsLive(m, name) && Keeps(c, name)
    ensures IsLive(Step(m, c, a).0, name)
    ensures Content(m, name) + Appended(c, a, name) == Consumed(m, c, name) + Content(Step(m, c, a).0, name)
  {
    if c.name == name {
      OwnStepIsFifo(m, c, a);
    } else {
      OtherStepIsFifo(m, c, a, name);
    }
  }

  /** Whatever chunk sizes are read, skipped and discarded in between, and whatever happens to the
      other buffers, copies of this one included: the bytes put in are the bytes taken out followed
      by the bytes still there, in order. */
  lemma {:induction false} FirstInFirstOut(m: Model, cs: seq<Command>, accepted: seq<bool>, name: Name)
    requires |accepted| == |cs| && LegalRun(m, cs, accepted)
    requires IsLive(m, name) && forall c | c in cs :: Keeps(c, name)
    ensures IsLive(Run(m, cs, accepted).0, name)
    ensures Content(m, name) + AllAppended(cs, accepted, name)
            == AllConsumed(m, cs, accepted, name) + Content(Run(m, cs, accepted).0, name)
    decreases |cs|
  {
    if cs != [] {
      var n := |cs| - 1;
      var c, a := cs[n], accepted[n];
      var before := Run(m, cs[..n], accepted[..n]).0;
      assert c in cs;
      FirstInFirstOut(m, cs[..n], accepted[..n], name);
      OneStepIsFifo(before, c, a, name);
      Rearrange(Content(m, name), AllAppended(cs[..n], accepted[..n], name), Appended(c, a, name),
                AllConsumed(m, cs[..n], accepted[..n], name), Content(before, name), Consumed(before, c, name),
                Content(Step(before, c, a).0, name));
    }
  }

  // ---------- the bytes in the replies ----------

  ghost predicate IsLink(m: Model, c: Command, a: bool, after: Model, reply: Reply) {
    Legal(m, c) && Step(m, c, a) == (after, reply)
  }

  /** A run with all the states it passes through. */
  ghost predicate IsChain(ms: seq<Model>, cs: seq<Command>, accepted: seq<bool>, replies: seq<Reply>) {
    && |ms| == |cs| + 1 && |accepted| == |replies| == |cs|
    && forall k | 0 <= k < |cs| :: IsLink(ms[k], cs[k], accepted[k], ms[k + 1], replies[k])
  }

  lemma {:induction false} RunIsChain(m: Model, cs: seq<Command>, accepted: seq<bool>) returns (ms: seq<Model>)
    requires |accepted| == |cs| && LegalRun(m, cs, accepted)
    ensures IsChain(ms, cs, accepted, Run(m, cs, accepted).1)
    ensures ms[0] == m && ms[|cs|] == Run(m, cs, accepted).0
    decreases |cs|
  {
    if cs == [] {
      ms := [m];
    } else {
      var n := |cs| - 1;
      var before := RunIsChain(m, cs[..n], accepted[..n]);
      ms := before + [Run(m, cs, accepted).0];
      assert IsLink(before[n], cs[n], accepted[n], ms[n + 1], Run(m, cs, accepted).1[n]);
    }
  }

  /** What the accepted writes from command `i` up to `k` put into a buffer. */
  function PutBetween(cs: seq<Command>, accepted: seq<bool>, name: Name, i: nat, k: nat): seq<byte>
    requires i <= k <= |cs| == |accepted|
  {
    if i == k then [] else PutBetween(cs, accepted, name, i, k - 1) + Appended(cs[k - 1], accepted[k - 1], name)
  }

  function Got(c: Command, reply: Reply, name: Name): seq<byte> {
    if c.name == name && reply.Bytes? then reply.bytes else []
  }

  /** What the replies to its readers give back. */
  function GotBetween(cs: seq<Command>, replies: seq<Reply>, name: Name, i: nat, k: nat): seq<byte>
    requires i <= k <= |cs| == |replies|
  {
    if i == k then []
    else
      GotBetween(cs, replies, name, i, k - 1) + Got(cs[k - 1], replies[k - 1], name)
  }

  predicate Relays(c: Command, name: Name) {
    Keeps(c, name) && !(c.Skip? && c.name == name)
  }

  /** One command keeps what a buffer had and was given, less what was given back. */
  ghost predicate Balances(m: Model, c: Command, a: bool, after: Model, reply: Reply, name: Name) {
    IsLive(m, name) && Relays(c, name) ==>
      IsLive(after, name)
      && Content(m, name) + Appended(c, a, name) == Got(c, reply, name) + Content(after, name)
  }

  lemma RepliesAreConsumed(m: Model, c: Command, a: bool, name: Name)
    requires Legal(m, c) && IsLive(m, name) && Relays(c, name)
    ensures var reply := Step(m, c, a).1;
            Consumed(m, c, name) == Got(c, reply, name)
  {
  }

  lemma LinkBalances(m: Model, c: Command, a: bool, after: Model, reply: Reply, name: Name)
    requires IsLink(m, c, a, after, reply)
    ensures Balances(m, c, a, after, reply, name)
  {
    if IsLive(m, name) && Relays(c, name) {
      OneStepIsFifo(m, c, a, name);
      RepliesAreConsumed(m, c, a, name);
    }
  }

  lemma {:induction false} BalanceBetween(ms: seq<Model>, cs: seq<Command>, accepted: seq<bool>, replies: seq<Reply>,
                                          name: Name, i: nat, k: nat)
    requires |ms| == |cs| + 1 && |accepted| == |replies| == |cs| && i <= k <= |cs|
    requires forall j | i <= j < k :: Balances(ms[j], cs[j], accepted[j], ms[j + 1], replies[j], name)
    requires IsLive(ms[i], name) && forall j | i <= j < k :: Relays(cs[j], name)
    ensures IsLive(ms[k], name)
    ensures Content(ms[i], name) + PutBetween(cs, accepted, name, i, k)
            == GotBetween(cs, replies, name, i, k) + Content(ms[k], name)
    decreases k
  {
    if i < k {
      BalanceBetween(ms, cs, accepted, replies, name, i, k - 1);
      assert Balances(ms[k - 1], cs[k - 1], accepted[k - 1], ms[k], replies[k - 1], name);
      Rearrange(Content(ms[i], name), PutBetween(cs, accepted, name, i, k - 1),
                Appended(cs[k - 1], accepted[k - 1], name), GotBetween(cs, replies, name, i, k - 1),
                Content(ms[k - 1], name), Got(cs[k - 1], replies[k - 1], name), Content(ms[k], name));
    }
  }

  /** Between any two points of a run in which a buffer is only written, read and discarded, the bytes
      in the replies and those still there are the ones that were there and those put in, in order. */
  lemma RepliesAreFifo(ms: seq<Model>, cs: seq<Command>, accepted: seq<bool>, replies: seq<Reply>,
                       name: Name, i: nat, k: nat)
    requires IsChain(ms, cs, accepted, replies) && i <= k <= |cs|
    requires IsLive(ms[i], name) && forall j | i <= j < k :: Relays(cs[j], name)
    ensures IsLive(ms[k], name)
    ensures Content(ms[i], name) + PutBetween(cs, accepted, name, i, k)
            == GotBetween(cs, replies, name, i, k) + Content(ms[k], name)
  {
    forall j | i <= j < k
      ensures Balances(ms[j], cs[j], accepted[j], ms[j + 1], replies[j], name)
    {
      LinkBalances(ms[j], cs[j], accepted[j], ms[j + 1], replies[j], name);
    }
    BalanceBetween(ms, cs, accepted, replies, name, i, k);
  }
}
