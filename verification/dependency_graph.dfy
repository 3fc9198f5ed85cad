/** The dependency graph built as command buffers are created
    (FB/VMMetalBridge.cpp:694-739, 1016-1053, 1096-1145, 1295-1484, 1547-1620). */
module DependencyGraph {
  import opened Words

  const REGISTRY_SIZE := 256
  const TABLE_SIZE := 256
  const MAX_DEPENDENTS := 16
  const MAX_EDGES := 512

  /** A registered buffer; an id of 0 marks an unused slot. */
  datatype Slot = Slot(id: word, time: nat)

  /** The buffers one buffer depends on. */
  datatype Info = Info(id: word, dependents: seq<word>)

  datatype Kind = ReadAfterWrite | WriteAfterRead | WriteAfterWrite

  datatype Edge = Edge(source: word, target: word, kind: Kind, resolved: bool)

  /** The used parts of the three tables. */
  datatype Graph = Graph(registry: seq<Slot>, infos: seq<Info>, edges: seq<Edge>)

  /** The priority class; the dependency analysis applies it to buffer ids. */
  function Priority(id: word): nat {
    if id <= 2 then 3 else if id <= 8 then 2 else if id <= 32 then 1 else 0
  }

  predicate Conflict(id: word, other: word) {
    Priority(id) >= Priority(other)
  }

  function DependencyKind(source: word, target: word): Kind {
    if Priority(source) > Priority(target) then ReadAfterWrite
    else if Priority(source) < Priority(target) then WriteAfterRead
    else WriteAfterWrite
  }

  /** The first slot with the oldest time. */
  function Oldest(registry: seq<Slot>): (i: nat)
    requires registry != []
    ensures i < |registry|
    ensures forall j | 0 <= j < |registry| :: registry[i].time <= registry[j].time
    ensures forall j | 0 <= j < i :: registry[i].time < registry[j].time
  {
    if |registry| == 1 then 0
    else
      var i := Oldest(registry[..|registry| - 1]);
      if registry[|registry| - 1].time < registry[i].time then |registry| - 1 else i
  }

  function Register(registry: seq<Slot>, s: Slot): (r: seq<Slot>) {
    if |registry| < REGISTRY_SIZE then registry + [s] else registry[Oldest(registry) := s]
  }

  predicate DependsOn(id: word, other: word) {
    other != 0 && other != id && Conflict(id, other)
  }

  /** The first 16 registered buffers that conflict with a new one. */
  function Dependents(registry: seq<Slot>, id: word): seq<word> {
    if registry == [] then []
    else
      var found, other := Dependents(registry[..|registry| - 1], id), registry[|registry| - 1].id;
      if DependsOn(id, other) && |found| < MAX_DEPENDENTS then found + [other] else found
  }

  function AddEdges(edges: seq<Edge>, id: word, targets: seq<word>): seq<Edge>
    decreases |targets|
  {
    if targets == [] then edges
    else
      var es, target := AddEdges(edges, id, targets[..|targets| - 1]), targets[|targets| - 1];
      if target != 0 && |es| < MAX_EDGES then es + [Edge(id, target, DependencyKind(id, target), false)] else es
  }

  /** Synchronisation is configured for every edge that leaves the buffer. */
  function Resolve(edges: seq<Edge>, id: word): (r: seq<Edge>)
    ensures |r| == |edges|
  {
    seq(|edges|, i requires 0 <= i < |edges| => if edges[i].source == id then edges[i].(resolved := true) else edges[i])
  }

  /** A creation: the new id, the time, and whether it gets past the registration to dependency tracking. */
  datatype Creation = Creation(id: word, time: nat, tracked: bool)

  function Create(g: Graph, c: Creation): Graph {
    var g1 := g.(registry := Register(g.registry, Slot(c.id, c.time)));
    if !c.tracked || |g.infos| >= TABLE_SIZE then g1
    else
      var targets := Dependents(g1.registry, c.id);
      Graph(g1.registry, g.infos + [Info(c.id, targets)], Resolve(AddEdges(g.edges, c.id, targets), c.id))
  }

  // ---------------------------------------------------------------- in place

  /** Slots are used from the front: none is ever freed. */
  ghost predicate FilledTo(slots: seq<Slot>, n: nat) {
    n <= |slots| && (forall i | 0 <= i < n :: slots[i].id != 0) && forall i | n <= i < |slots| :: slots[i].id == 0
  }

  ghost predicate InfosFilledTo(infos: seq<Info>, n: nat) {
    n <= |infos| && (forall i | 0 <= i < n :: infos[i].id != 0) && forall i | n <= i < |infos| :: infos[i].id == 0
  }

  class Tracker {
    const registry: array<Slot>
    const infos: array<Info>
    const edges: array<Edge>
    var registrySize: nat
    var infoCount: nat
    var edgeCount: nat

    ghost predicate Valid()
      reads this, registry, infos
    {
      && registry.Length == REGISTRY_SIZE && infos.Length == TABLE_SIZE && edges.Length == MAX_EDGES
      && FilledTo(registry[..], registrySize) && InfosFilledTo(infos[..], infoCount) && edgeCount <= MAX_EDGES
    }

    ghost function Value(): Graph
      requires Valid()
      reads this, registry, infos, edges
    {
      Graph(registry[..registrySize], infos[..infoCount], edges[..edgeCount])
    }

    constructor ()
      ensures Valid() && Value() == Graph([], [], []) && fresh(registry) && fresh(infos) && fresh(edges)
    {
      registry := new Slot[REGISTRY_SIZE](i => Slot(0, 0));
      infos := new Info[TABLE_SIZE](i => Info(0, []));
      edges := new Edge[MAX_EDGES](i => Edge(0, 0, ReadAfterWrite, false));
      registrySize, infoCount, edgeCount := 0, 0, 0;
    }

    method FindLeastRecent() returns (lru: nat)
      requires Valid() && registrySize == REGISTRY_SIZE
      ensures lru == Oldest(registry[..registrySize])
    {
      lru := 0;
      var oldest := registry[0].time;
      var i := 1;
      while i < REGISTRY_SIZE
        invariant 1 <= i <= REGISTRY_SIZE && lru < i && oldest == registry[lru].time
        invariant forall j | 0 <= j < i :: oldest <= registry[j].time
        invariant forall j | 0 <= j < lru :: oldest < registry[j].time
      {
        if registry[i].time < oldest { oldest, lru := registry[i].time, i; }
        i := i + 1;
      }
      assert forall j | 0 <= j < registrySize :: registry[..registrySize][j] == registry[j];
    }

    method RegisterBuffer(s: Slot)
      requires Valid() && s.id != 0
      modifies this`registrySize, registry
      ensures Valid() && Value() == old(Value()).(registry := Register(old(Value()).registry, s))
    {
      var i := 0;
      while i < REGISTRY_SIZE && registry[i].id != 0
        invariant 0 <= i <= registrySize
      {
        i := i + 1;
      }
      if i == REGISTRY_SIZE { i := FindLeastRecent(); }
      ghost var before := registry[..registrySize];
      registry[i] := s;
      if registrySize < REGISTRY_SIZE { registrySize := registrySize + 1; }
      assert registry[..registrySize] == Register(before, s);
    }

    method StartTracking(id: word) returns (tracked: bool)
      requires Valid() && id != 0
      modifies this`infoCount, infos
      ensures Valid() && (tracked <==> old(infoCount) < TABLE_SIZE)
      ensures Value() == if tracked then old(Value()).(infos := old(Value()).infos + [Info(id, [])]) else old(Value())
    {
      var i := 0;
      while i < TABLE_SIZE && infos[i].id != 0
        invariant 0 <= i <= infoCount
      {
        i := i + 1;
      }
      if i == TABLE_SIZE { return false; }
      infos[i] := Info(id, []);
      infoCount := infoCount + 1;
      tracked := true;
    }

    /** The entry just added is the one found: ids are not used twice. */
    method FindInfo(id: word) returns (i: nat)
      requires Valid() && infoCount > 0 && id == infos[infoCount - 1].id
      requires forall j | 0 <= j < infoCount - 1 :: infos[j].id != id
      ensures i == infoCount - 1
    {
      i := 0;
      while infos[i].id != id
        invariant 0 <= i < infoCount
        decreases infoCount - i
      {
        i := i + 1;
      }
    }

    method AnalyzeDependencies(id: word) returns (targets: seq<word>)
      requires Valid()
      ensures targets == Dependents(registry[..registrySize], id)
    {
      targets := [];
      var i := 0;
      while i < registrySize && i < REGISTRY_SIZE
        invariant 0 <= i <= registrySize
        invariant targets == Dependents(registry[..i], id)
      {
        assert registry[..i + 1][..i] == registry[..i];
        var other := registry[i].id;
        if other != 0 && other != id && Conflict(id, other) {
          if |targets| < MAX_DEPENDENTS { targets := targets + [other]; }
        }
        i := i + 1;
      }
    }

    method ConstructGraph(id: word, targets: seq<word>)
      requires Valid() && |targets| <= MAX_DEPENDENTS
      modifies this`edgeCount, edges
      ensures Valid() && Value() == old(Value()).(edges := AddEdges(old(Value()).edges, id, targets))
    {
      var i := 0;
      while i < |targets| && i < MAX_DEPENDENTS
        invariant 0 <= i <= |targets| && edgeCount <= MAX_EDGES
        invariant edges[..edgeCount] == AddEdges(old(edges[..edgeCount]), id, targets[..i])
      {
        assert targets[..i + 1][..i] == targets[..i];
        var target := targets[i];
        if target != 0 && edgeCount < MAX_EDGES {
          edges[edgeCount] := Edge(id, target, DependencyKind(id, target), false);
          edgeCount := edgeCount + 1;
        }
        i := i + 1;
      }
      assert targets[..i] == targets;
    }

    method ConfigureSynchronization(id: word)
      requires Valid()
      modifies edges
      ensures Valid() && Value() == old(Value()).(edges := Resolve(old(Value()).edges, id))
    {
      ghost var before := edges[..edgeCount];
      var i := 0;
      while i < edgeCount && i < MAX_EDGES
        invariant 0 <= i <= edgeCount
        invariant forall j | 0 <= j < i :: edges[j] == Resolve(before, id)[j]
        invariant forall j | i <= j < edgeCount :: edges[j] == before[j]
      {
        if edges[i].source == id { edges[i] := edges[i].(resolved := true); }
        i := i + 1;
      }
      assert edges[..edgeCount] == Resolve(before, id);
    }

    method BuildGraph(id: word)
      requires Valid() && id != 0 && forall j | 0 <= j < infoCount :: infos[j].id != id
      modifies this`infoCount, this`edgeCount, infos, edges
      ensures Valid() && registry[..] == old(registry[..]) && Value() ==
                if old(infoCount) >= TABLE_SIZE then old(Value())
                else var targets := Dependents(old(Value()).registry, id);
                     Graph(old(Value()).registry, old(Value()).infos + [Info(id, targets)],
                           Resolve(AddEdges(old(Value()).edges, id, targets), id))
    {
      hide Dependents, AddEdges, Resolve;
      var tracked := StartTracking(id);
      if !tracked { return; }
      assert infos[infoCount - 1] == Value().infos[infoCount - 1];
      assert forall j | 0 <= j < infoCount - 1 :: infos[j] == Value().infos[j];
      var at := FindInfo(id);
      var targets := AnalyzeDependencies(id);
      infos[at] := infos[at].(dependents := targets);
      DependentsBounded(registry[..registrySize], id);
      ConstructGraph(id, targets);
      ConfigureSynchronization(id);
    }

    method CreateBuffer(c: Creation)
      requires Valid() && c.id != 0 && forall j | 0 <= j < infoCount :: infos[j].id != c.id
      modifies this, registry, infos, edges
      ensures Valid() && Value() == Create(old(Value()), c)
    {
      RegisterBuffer(Slot(c.id, c.time));
      assert forall j | 0 <= j < infoCount :: infos[j] == Value().infos[j];
      if c.tracked { BuildGraph(c.id); }
    }
  }

  lemma {:induction false} DependentsBounded(registry: seq<Slot>, id: word)
    ensures |Dependents(registry, id)| <= MAX_DEPENDENTS
    decreases |registry|
  {
    if registry != [] { DependentsBounded(registry[..|registry| - 1], id); }
  }

  // ---------------------------------------------------------------- runs

  function Run(cs: seq<Creation>): Graph
    decreases |cs|
  {
    if cs == [] then Graph([], [], []) else Create(Run(cs[..|cs| - 1]), cs[|cs| - 1])
  }

  /** Ids are handed out in increasing order from 1 and do not wrap. */
  predicate Increasing(cs: seq<Creation>) {
    (forall i | 0 <= i < |cs| :: 0 < cs[i].id) && forall i, j | 0 <= i < j < |cs| :: cs[i].id < cs[j].id
  }

  /** The classes by their ids: up to 2, from 3 to 8, from 9 to 32, and all others. */
  predicate SameClass(a: word, b: word) {
    (a <= 2 <==> b <= 2) && (a <= 8 <==> b <= 8) && (a <= 32 <==> b <= 32)
  }

  lemma ClassesAreRanges(a: word, b: word)
    ensures Priority(a) == Priority(b) <==> SameClass(a, b)
    ensures a < b ==> Priority(a) >= Priority(b)
  {}

  /** A buffer depends on an older one of its own class, for writing, and has been synchronised with it. */
  predicate SoundEdge(e: Edge) {
    0 < e.target < e.source && SameClass(e.source, e.target) && e.kind == WriteAfterWrite && e.resolved
  }

  function OutDegree(edges: seq<Edge>, id: word): nat {
    if edges == [] then 0
    else OutDegree(edges[..|edges| - 1], id) + if edges[|edges| - 1].source == id then 1 else 0
  }

  /** Everything known so far is below the next id. */
  ghost predicate Sound(g: Graph, bound: int) {
    && |g.registry| <= REGISTRY_SIZE && |g.infos| <= TABLE_SIZE && |g.edges| <= MAX_EDGES
    && (forall s <- g.registry :: 0 < s.id < bound)
    && (forall i <- g.infos :: 0 < i.id < bound)
    && (forall e <- g.edges :: SoundEdge(e) && e.source < bound)
    && (forall id: word :: OutDegree(g.edges, id) <= MAX_DEPENDENTS)
  }

  /** The conflicts of the newest buffer are the older buffers of its class: all of them if fewer than 16. */
  lemma {:induction false} DependentsAreOlderPeers(registry: seq<Slot>, id: word)
    requires forall s <- registry :: 0 < s.id <= id
    ensures |Dependents(registry, id)| <= MAX_DEPENDENTS
    ensures forall t <- Dependents(registry, id) :: 0 < t < id && SameClass(t, id)
    ensures |Dependents(registry, id)| < MAX_DEPENDENTS ==>
              forall s <- registry :: s.id < id && SameClass(s.id, id) ==> s.id in Dependents(registry, id)
    decreases |registry|
  {
    if registry != [] {
      var front, last := registry[..|registry| - 1], registry[|registry| - 1];
      assert last in registry && forall s <- front :: s in registry;
      DependentsAreOlderPeers(front, id);
      assert forall s <- registry :: s in front || s == last;
    }
  }

  /** The older buffers of a class, in the order of the slots. */
  function Peers(registry: seq<Slot>, id: word): seq<word> {
    if registry == [] then []
    else
      var other := registry[|registry| - 1].id;
      Peers(registry[..|registry| - 1], id) + if other < id && SameClass(other, id) then [other] else []
  }

  function First(ids: seq<word>, n: nat): seq<word> {
    if |ids| <= n then ids else ids[..n]
  }

  /** The conflicts kept are the first 16 of them. */
  lemma {:induction false} DependentsAreFirst(registry: seq<Slot>, id: word)
    requires forall s <- registry :: 0 < s.id <= id
    ensures Dependents(registry, id) == First(Peers(registry, id), MAX_DEPENDENTS)
    decreases |registry|
  {
    if registry != [] {
      var front, last := registry[..|registry| - 1], registry[|registry| - 1];
      assert last in registry && forall s <- front :: s in registry;
      DependentsAreFirst(front, id);
    }
  }

  // ---------------------------------------------------------------- what is registered

  /** Every buffer is registered at a later time than the one before. */
  predicate Timed(cs: seq<Creation>) {
    forall i, j | 0 <= i < j < |cs| :: cs[i].time < cs[j].time
  }

  function SlotOf(c: Creation): Slot {
    Slot(c.id, c.time)
  }

  /** The last of the first n numbers that leaves i over when divided by the number of slots. */
  function Latest(n: nat, i: nat): (j: nat)
    requires i < n
    ensures i <= j < n <= j + REGISTRY_SIZE && (j - i) % REGISTRY_SIZE == 0
  {
    i + (n - 1 - i) / REGISTRY_SIZE * REGISTRY_SIZE
  }

  lemma LatestIsUnique(n: nat, i: nat, j: nat)
    requires i < n && i <= j < n <= j + REGISTRY_SIZE && (j - i) % REGISTRY_SIZE == 0
    ensures j == Latest(n, i)
  {}

  lemma LatestMoves(n: nat, i: nat)
    requires i < n && i < REGISTRY_SIZE
    ensures Latest(n + 1, i) == if n % REGISTRY_SIZE == i then n else Latest(n, i)
    ensures n % REGISTRY_SIZE == i ==> n >= REGISTRY_SIZE && Latest(n, i) == n - REGISTRY_SIZE
  {
    var j := Latest(n, i);
    SameRemainder(n, i, j);
    if n % REGISTRY_SIZE == i { LatestIsUnique(n + 1, i, n); } else { LatestIsUnique(n + 1, i, j); }
  }

  lemma SameRemainder(n: nat, i: nat, j: nat)
    requires i < REGISTRY_SIZE && i <= j < n <= j + REGISTRY_SIZE && (j - i) % REGISTRY_SIZE == 0
    ensures n % REGISTRY_SIZE == i <==> n == j + REGISTRY_SIZE
    ensures n % REGISTRY_SIZE == i ==> (n - i) % REGISTRY_SIZE == 0
  {
    var q := (j - i) / REGISTRY_SIZE;
    assert j == REGISTRY_SIZE * q + i;
    var d := n - j;
    assert n == REGISTRY_SIZE * q + (i + d);
  }

  ghost predicate HoldsLatest(registry: seq<Slot>, cs: seq<Creation>) {
    && |registry| == (if |cs| < REGISTRY_SIZE then |cs| else REGISTRY_SIZE)
    && forall i | 0 <= i < |registry| :: registry[i] == SlotOf(cs[Latest(|cs|, i)])
  }

  /** A full registry gives up the slot whose turn it is. */
  lemma OldestTakesTurn(registry: seq<Slot>, cs: seq<Creation>)
    requires HoldsLatest(registry, cs) && Timed(cs) && |cs| >= REGISTRY_SIZE
    ensures Oldest(registry) == |cs| % REGISTRY_SIZE
  {
    var n := |cs|;
    var turn := n % REGISTRY_SIZE;
    LatestMoves(n, turn);
    forall i | 0 <= i < REGISTRY_SIZE && i != turn ensures registry[turn].time < registry[i].time {
      LatestMoves(n, i);
      SameRemainder(n, i, Latest(n, i));
      assert Latest(n, turn) < Latest(n, i);
    }
  }

  lemma RegisterHoldsLatest(registry: seq<Slot>, cs: seq<Creation>)
    requires cs != [] && HoldsLatest(registry, cs[..|cs| - 1]) && Timed(cs)
    ensures HoldsLatest(Register(registry, SlotOf(cs[|cs| - 1])), cs)
  {
    var n := |cs| - 1;
    var after := Register(registry, SlotOf(cs[n]));
    if n >= REGISTRY_SIZE { OldestTakesTurn(registry, cs[..n]); }
    forall i | 0 <= i < |after| ensures after[i] == SlotOf(cs[Latest(n + 1, i)]) {
      if i == n {
        LatestIsUnique(n + 1, i, n);
      } else {
        LatestMoves(n, i);
        if n < REGISTRY_SIZE { assert n % REGISTRY_SIZE == n; }
      }
    }
  }

  /** Over every run the registry holds the latest 256 buffers, each in the slot of its number modulo 256: so the
      first 256 in their order. */
  lemma {:induction false} RegistryHoldsLatest(cs: seq<Creation>)
    requires Timed(cs)
    ensures HoldsLatest(Run(cs).registry, cs)
    ensures |cs| <= REGISTRY_SIZE ==> Run(cs).registry == seq(|cs|, i requires 0 <= i < |cs| => SlotOf(cs[i]))
    decreases |cs|
  {
    if cs != [] {
      RegistryHoldsLatest(cs[..|cs| - 1]);
      RegisterHoldsLatest(Run(cs[..|cs| - 1]).registry, cs);
    }
    if |cs| <= REGISTRY_SIZE {
      forall i | 0 <= i < |cs| ensures Latest(|cs|, i) == i { LatestIsUnique(|cs|, i, i); }
    }
  }

  lemma {:induction false} NoneBefore(edges: seq<Edge>, id: word)
    requires forall e <- edges :: e.source != id
    ensures OutDegree(edges, id) == 0
    decreases |edges|
  {
    if edges != [] {
      assert edges[|edges| - 1] in edges;
      NoneBefore(edges[..|edges| - 1], id);
    }
  }

  /** Adding edges for a new buffer keeps the others and adds at most one for each target. */
  lemma {:induction false} AddedEdges(edges: seq<Edge>, id: word, targets: seq<word>)
    requires |edges| <= MAX_EDGES
    requires forall t <- targets :: 0 < t < id && SameClass(t, id)
    ensures var es := AddEdges(edges, id, targets);
            && |edges| <= |es| <= MAX_EDGES && es[..|edges|] == edges
            && (forall i | |edges| <= i < |es| ::
                  es[i].source == id && 0 < es[i].target < id && SameClass(es[i].target, id)
                  && es[i].kind == WriteAfterWrite)
            && (forall x: word :: OutDegree(es, x) <= OutDegree(edges, x) + if x == id then |targets| else 0)
    decreases |targets|
  {
    if targets != [] {
      var front := targets[..|targets| - 1];
      assert targets[|targets| - 1] in targets && forall t <- front :: t in targets;
      AddedEdges(edges, id, front);
      var es := AddEdges(edges, id, front);
      assert AddEdges(edges, id, targets) != es ==> AddEdges(edges, id, targets)[..|es|] == es;
    }
  }

  lemma {:induction false} ResolveKeepsDegree(edges: seq<Edge>, id: word, x: word)
    ensures OutDegree(Resolve(edges, id), x) == OutDegree(edges, x)
    decreases |edges|
  {
    if edges != [] {
      var front := edges[..|edges| - 1];
      assert Resolve(edges, id)[..|edges| - 1] == Resolve(front, id);
      ResolveKeepsDegree(front, id, x);
    }
  }

  lemma GraphStaysSound(edges: seq<Edge>, id: word, targets: seq<word>)
    requires |edges| <= MAX_EDGES && |targets| <= MAX_DEPENDENTS
    requires forall e <- edges :: SoundEdge(e) && e.source < id
    requires forall x: word :: OutDegree(edges, x) <= MAX_DEPENDENTS
    requires forall t <- targets :: 0 < t < id && SameClass(t, id)
    ensures var es := Resolve(AddEdges(edges, id, targets), id);
            && |es| <= MAX_EDGES && (forall e <- es :: SoundEdge(e) && e.source <= id)
            && forall x: word :: OutDegree(es, x) <= MAX_DEPENDENTS
  {
    AddedEdges(edges, id, targets);
    NoneBefore(edges, id);
    var added := AddEdges(edges, id, targets);
    forall x: word ensures OutDegree(Resolve(added, id), x) <= MAX_DEPENDENTS { ResolveKeepsDegree(added, id, x); }
    forall i | 0 <= i < |added| ensures SoundEdge(Resolve(added, id)[i]) && Resolve(added, id)[i].source <= id {
      if i < |edges| { assert added[i] == added[..|edges|][i] && added[i] in edges; }
    }
  }

  lemma CreateStaysSound(g: Graph, c: Creation)
    requires Sound(g, c.id) && 0 < c.id
    ensures Sound(Create(g, c), c.id + 1)
  {
    var registry := Register(g.registry, Slot(c.id, c.time));
    assert forall s <- registry :: s in g.registry || s == Slot(c.id, c.time);
    DependentsAreOlderPeers(registry, c.id);
    GraphStaysSound(g.edges, c.id, Dependents(registry, c.id));
  }

  lemma SoundBelow(g: Graph, low: int, high: int)
    requires Sound(g, low) && low <= high
    ensures Sound(g, high)
  {}

  lemma {:induction false} RunIsSound(cs: seq<Creation>, bound: int)
    requires Increasing(cs) && forall i | 0 <= i < |cs| :: cs[i].id < bound
    ensures Sound(Run(cs), bound)
    decreases |cs|
  {
    if cs != [] {
      var last := cs[|cs| - 1];
      RunIsSound(cs[..|cs| - 1], last.id);
      CreateStaysSound(Run(cs[..|cs| - 1]), last);
      SoundBelow(Run(cs), last.id + 1, bound);
    }
  }

  /** Over every run: each edge is sound, a buffer has at most 16 and there are at most 512. */
  lemma EdgesOverRuns(cs: seq<Creation>)
    requires Increasing(cs)
    ensures var edges := Run(cs).edges;
            && |edges| <= MAX_EDGES && (forall e <- edges :: SoundEdge(e))
            && forall id: word :: OutDegree(edges, id) <= MAX_DEPENDENTS
  {
    RunIsSound(cs, 0x1_0000_0000);
  }

  ghost predicate Joined(edges: seq<Edge>, a: word, b: word) {
    exists e <- edges :: e.source == a && e.target == b
  }

  /** Consecutive buffers are joined by edges. */
  ghost predicate IsPath(edges: seq<Edge>, nodes: seq<word>) {
    forall i | 0 < i < |nodes| :: Joined(edges, nodes[i - 1], nodes[i])
  }

  lemma {:induction false} PathsDescend(edges: seq<Edge>, nodes: seq<word>)
    requires (forall e <- edges :: SoundEdge(e)) && IsPath(edges, nodes) && |nodes| > 1
    ensures nodes[|nodes| - 1] < nodes[0] && SameClass(nodes[|nodes| - 1], nodes[0])
    decreases |nodes|
  {
    var n := |nodes| - 1;
    assert Joined(edges, nodes[n - 1], nodes[n]);
    if n > 1 { PathsDescend(edges, nodes[..n]); }
  }

  /** The graph is acyclic, and every path stays within one priority class. */
  lemma GraphIsAcyclic(cs: seq<Creation>, nodes: seq<word>)
    requires Increasing(cs) && IsPath(Run(cs).edges, nodes) && |nodes| > 1
    ensures nodes[|nodes| - 1] != nodes[0] && SameClass(nodes[|nodes| - 1], nodes[0])
  {
    EdgesOverRuns(cs);
    PathsDescend(Run(cs).edges, nodes);
  }

  lemma {:induction false} EveryTargetGetsAnEdge(edges: seq<Edge>, id: word, targets: seq<word>)
    requires |edges| + |targets| <= MAX_EDGES && 0 !in targets
    ensures var es := AddEdges(edges, id, targets);
            && |es| == |edges| + |targets|
            && forall k | 0 <= k < |targets| ::
                 es[|edges| + k] == Edge(id, targets[k], DependencyKind(id, targets[k]), false)
    decreases |targets|
  {
    if targets != [] {
      assert targets[|targets| - 1] in targets;
      EveryTargetGetsAnEdge(edges, id, targets[..|targets| - 1]);
    }
  }

  lemma OthersStay(edges: seq<Edge>, added: seq<Edge>, id: word)
    requires edges <= added && forall e <- edges :: e.source != id
    ensures Resolve(added, id)[..|edges|] == edges
  {
    forall i | 0 <= i < |edges| ensures Resolve(added, id)[i] == edges[i] { assert edges[i] in edges; }
  }

  /** A new buffer changes no edge that was there. */
  lemma OldEdgesStay(g: Graph, c: Creation)
    requires Sound(g, c.id) && 0 < c.id
    ensures g.edges <= Create(g, c).edges
  {
    var registry := Register(g.registry, Slot(c.id, c.time));
    assert forall s <- registry :: s in g.registry || s == Slot(c.id, c.time);
    DependentsAreOlderPeers(registry, c.id);
    AddedEdges(g.edges, c.id, Dependents(registry, c.id));
    OthersStay(g.edges, AddEdges(g.edges, c.id, Dependents(registry, c.id)), c.id);
    hide Register, Dependents, AddEdges, Resolve;
  }

  lemma FirstAreIn(ids: seq<word>, n: nat, k: nat)
    requires k < |First(ids, n)|
    ensures First(ids, n)[k] == ids[k] && First(ids, n)[k] in First(ids, n)
  {}

  /** While the tables have room, a new buffer is joined to every buffer it depends on, in order:
      those are the older buffers of its class, the first 16 of them. */
  lemma NewBufferIsConnected(g: Graph, c: Creation, k: nat)
    requires Sound(g, c.id) && 0 < c.id && c.tracked && |g.infos| < TABLE_SIZE && |g.edges| + MAX_DEPENDENTS <= MAX_EDGES
    requires k < |First(Peers(Create(g, c).registry, c.id), MAX_DEPENDENTS)|
    ensures var targets := First(Peers(Create(g, c).registry, c.id), MAX_DEPENDENTS);
            && |Create(g, c).edges| == |g.edges| + |targets|
            && Create(g, c).edges[|g.edges| + k] == Edge(c.id, targets[k], WriteAfterWrite, true)
  {
    var registry := Register(g.registry, Slot(c.id, c.time));
    assert forall s <- registry :: s in g.registry || s == Slot(c.id, c.time);
    DependentsAreOlderPeers(registry, c.id);
    DependentsAreFirst(registry, c.id);
    FirstAreIn(Peers(registry, c.id), MAX_DEPENDENTS, k);
    EveryTargetGetsAnEdge(g.edges, c.id, Dependents(registry, c.id));
    hide Register, Dependents, AddEdges, Peers;
    ClassesAreRanges(Dependents(registry, c.id)[k], c.id);
  }

  /** Once 256 buffers have been tracked, no later buffer gets an edge. */
  lemma TrackingIsNeverFreed(g: Graph, c: Creation)
    requires |g.infos| >= TABLE_SIZE
    ensures Create(g, c).edges == g.edges && Create(g, c).infos == g.infos
  {}
}
