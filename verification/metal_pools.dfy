/** The command-buffer pools of the Metal bridge: load balancing and growth
    (FB/VMMetalBridge.cpp:606-683, 824, 901-1013). */
module MetalPools {
  import opened Words

  datatype Pool = Pool(size: word, active: word)

  datatype Status = Success | BadArgument | NotFound | NoResources | Failed

  const POOL_SIZES: seq<word> := [64, 128, 32, 16]

  const CAPACITY := 512 + 128 + 32 + 16

  predicate HasRoom(p: Pool) {
    p.active < p.size
  }

  /** Every count is at most its pool's size; only the first pool's size is not the configured one. */
  ghost predicate Good(ps: seq<Pool>) {
    && |ps| == 4 && (forall i | 0 <= i < 4 :: ps[i].active <= ps[i].size)
    && ps[1].size == 128 && ps[2].size == 32 && ps[3].size == 16
    && ps[0].size in {64, 96, 144, 216, 324, 486, 512}
  }

  function Available(p: Pool): word {
    Wrap(p.size - p.active)
  }

  /** The first pool with the most room, or the first pool when none has any. */
  function MostAvailable(ps: seq<Pool>): (best: nat)
    requires ps != []
    ensures best < |ps|
    ensures forall i | 0 <= i < |ps| :: Available(ps[i]) <= Available(ps[best])
  {
    if |ps| == 1 then 0
    else
      var best := MostAvailable(ps[..|ps| - 1]);
      if Available(ps[|ps| - 1]) > Available(ps[best]) then |ps| - 1 else best
  }

  function Select(ps: seq<Pool>, queue: word): (i: nat)
    requires ps != []
    ensures i < |ps|
  {
    if HasRoom(ps[queue % |ps|]) then queue % |ps| else MostAvailable(ps)
  }

  /** While their own pools have room, four queues with consecutive ids are served by the four pools, and a queue keeps
      its pool whatever the others hold. */
  lemma QueuesShareOut(ps: seq<Pool>, qs: seq<Pool>, queue: word, other: word)
    requires |ps| == |qs| == 4 && forall i | 0 <= i < 4 :: HasRoom(ps[i]) && HasRoom(qs[i])
    ensures Select(ps, queue) == Select(qs, queue)
    ensures queue < other < queue + 4 ==> Select(ps, queue) != Select(ps, other)
    ensures queue + 4 < 0x1_0000_0000 ==> Select(ps, queue + 4) == Select(ps, queue)
  {
    assert queue < other < queue + 4 ==> (other - queue) % 4 != 0;
  }

  /** Whether all others are full or not, a queue with room in its own pool goes there. */
  lemma OwnPoolFirst(ps: seq<Pool>, full: seq<Pool>, queue: word)
    requires |ps| == |full| == 4 && (forall i | 0 <= i < 4 :: HasRoom(ps[i]))
    requires HasRoom(full[Select(ps, queue)])
    ensures Select(full, queue) == Select(ps, queue)
  {}

  lemma {:induction false} MostIsFirst(ps: seq<Pool>)
    requires ps != []
    ensures forall i | 0 <= i < MostAvailable(ps) :: Available(ps[i]) < Available(ps[MostAvailable(ps)])
    decreases |ps|
  {
    if |ps| > 1 { MostIsFirst(ps[..|ps| - 1]); }
  }

  /** A queue whose own pool is full goes to the first of the pools with the most room: strictly more than every
      earlier one, and no less than every other. */
  lemma OthersByRoom(ps: seq<Pool>, own: seq<Pool>, queue: word)
    requires |ps| == |own| == 4 && (forall i | 0 <= i < 4 :: HasRoom(own[i]) && ps[i].active <= ps[i].size)
    requires !HasRoom(ps[Select(own, queue)])
    ensures var best := Select(ps, queue);
            && (forall i | 0 <= i < best :: ps[i].size - ps[i].active < ps[best].size - ps[best].active)
            && forall i | 0 <= i < 4 :: ps[i].size - ps[i].active <= ps[best].size - ps[best].active
  {
    MostIsFirst(ps);
    assert forall i | 0 <= i < 4 :: Available(ps[i]) == ps[i].size - ps[i].active;
  }

  /** Half as much again, at least 8 more, at most 512. */
  function Grown(size: word): Option<word> {
    var target := Wrap(size + if size / 2 > 8 then size / 2 else 8);
    if target <= 512 then Some(target) else if size >= 512 then None else Some(512)
  }

  function FirstAvailable(ps: seq<Pool>): (i: nat)
    ensures i <= |ps| && (i < |ps| ==> HasRoom(ps[i]))
    ensures forall j | 0 <= j < i :: !HasRoom(ps[j])
  {
    if ps == [] then 0
    else
      var i := FirstAvailable(ps[..|ps| - 1]);
      if i < |ps| - 1 || HasRoom(ps[|ps| - 1]) then i else |ps|
  }

  /** The pool a request goes to and the pools after any growth. */
  function Place(ps: seq<Pool>, queue: word): (r: (seq<Pool>, Option<nat>))
    requires ps != []
    ensures |r.0| == |ps| && (r.1.Some? ==> r.1.value < |r.0|)
  {
    var i := Select(ps, queue);
    if HasRoom(ps[i]) then (ps, Some(i))
    else match Grown(ps[i].size)
      case Some(size) => (ps[i := ps[i].(size := size)], Some(i))
      case None => (ps, if FirstAvailable(ps) < |ps| then Some(FirstAvailable(ps)) else None)
  }

  /** A request of a queue: its id, whether the queue exists, and whether all later steps succeed. */
  datatype Request = Request(queue: word, known: bool, succeeds: bool)

  function Serve(ps: seq<Pool>, r: Request): (seq<Pool>, Status)
    requires ps != []
  {
    if r.queue == 0 then (ps, BadArgument)
    else if !r.known then (ps, NotFound)
    else
      var (grown, i) := Place(ps, r.queue);
      if i.None? then (grown, NoResources)
      else if !r.succeeds then (grown, Failed)
      else (grown[i.value := grown[i.value].(active := Wrap(grown[i.value].active + 1))], Success)
  }

  // ---------------------------------------------------------------- in place

  class Bridge {
    const pools: array<Pool>
    var count: nat

    ghost predicate Valid()
      reads this
    {
      pools.Length == 8 && (count == 0 || count == 4)
    }

    ghost function Value(): seq<Pool>
      requires Valid()
      reads this, pools
    {
      pools[..count]
    }

    constructor ()
      ensures Valid() && count == 0
    {
      pools := new Pool[8](i => Pool(0, 0));
      count := 0;
    }

    /** The pools a first request sets up. */
    ghost function Ready(): (ps: seq<Pool>)
      requires Valid()
      reads this, pools
    {
      if count == 0 then Initial() else Value()
    }

    method InitializePools()
      requires Valid()
      modifies this, pools
      ensures Valid() && count == 4 && Value() == Initial()
    {
      count := 0;
      while count < |POOL_SIZES| && count < 8
        invariant 0 <= count <= 4 && pools.Length == 8
        invariant forall i | 0 <= i < count :: pools[i] == Pool(POOL_SIZES[i], 0)
      {
        pools[count] := Pool(POOL_SIZES[count], 0);
        count := count + 1;
      }
    }

    method SelectPool(queue: word) returns (pool: nat)
      requires Valid() && count == 4
      ensures pool == Select(Value(), queue)
    {
      var base := queue % count;
      if pools[base].active < pools[base].size { return base; }
      pool := 0;
      var most := 0;
      var i := 0;
      while i < count
        invariant 0 <= i <= count && pool < count
        invariant i == 0 ==> most == 0 && pool == 0
        invariant i > 0 ==> pool == MostAvailable(pools[..i]) && most == Available(pools[pool])
      {
        var available := Available(pools[i]);
        assert pools[..i + 1][..i] == pools[..i];
        if available > most { most, pool := available, i; }
        i := i + 1;
      }
    }

    method ExpandPool(pool: nat) returns (grown: bool)
      requires Valid() && pool < count
      modifies pools
      ensures grown <==> old(Grown(pools[pool].size)).Some?
      ensures grown ==> Value() == old(Value())[pool := old(pools[pool]).(size := old(Grown(pools[pool].size)).value)]
      ensures !grown ==> Value() == old(Value())
    {
      var size := pools[pool].size;
      var expansion: int := if size / 2 > 8 then size / 2 else 8;
      var target := Wrap(size + expansion);
      if target > 512 {
        target := 512;
        if size >= 512 { return false; }
      }
      pools[pool] := pools[pool].(size := target);
      grown := true;
    }

    method FindAvailable() returns (pool: nat)
      requires Valid()
      ensures pool == FirstAvailable(Value())
    {
      pool := 0;
      while pool < count && pools[pool].active >= pools[pool].size
        invariant 0 <= pool <= count
        invariant forall j | 0 <= j < pool :: !HasRoom(pools[j])
      {
        pool := pool + 1;
      }
    }

    method FindPlace(queue: word) returns (pool: Option<nat>)
      requires Valid() && count == 4
      modifies pools
      ensures Valid() && (Value(), pool) == Place(old(Value()), queue)
    {
      var selected := SelectPool(queue);
      if pools[selected].active >= pools[selected].size {
        var grown := ExpandPool(selected);
        if !grown {
          var other := FindAvailable();
          return if other < count then Some(other) else None;
        }
      }
      pool := Some(selected);
    }

    method CreateCommandBuffer(r: Request) returns (status: Status)
      requires Valid()
      modifies this, pools
      ensures Valid()
      ensures r.queue != 0 && r.known ==> count == 4 && (Value(), status) == Serve(old(Ready()), r)
      ensures r.queue == 0 || !r.known ==>
                Value() == old(Value()) && status == if r.queue == 0 then BadArgument else NotFound
    {
      if r.queue == 0 { return BadArgument; }
      if !r.known { return NotFound; }
      if count == 0 { InitializePools(); }
      var place := FindPlace(r.queue);
      if place.None? { return NoResources; }
      if !r.succeeds { return Failed; }
      pools[place.value] := pools[place.value].(active := Wrap(pools[place.value].active + 1));
      status := Success;
    }
  }

  // ---------------------------------------------------------------- runs

  function Initial(): seq<Pool> {
    [Pool(64, 0), Pool(128, 0), Pool(32, 0), Pool(16, 0)]
  }

  function Total(ps: seq<Pool>): nat
    requires |ps| == 4
  {
    ps[0].active + ps[1].active + ps[2].active + ps[3].active
  }

  /** When the chosen pool is full, every pool is: the first one grows, or there is no room anywhere. */
  lemma FullMeansAllFull(ps: seq<Pool>, queue: word)
    requires Good(ps) && !HasRoom(ps[Select(ps, queue)])
    ensures Select(ps, queue) == 0 && FirstAvailable(ps) == 4 && forall i | 0 <= i < 4 :: ps[i].active == ps[i].size
  {
    var best := MostAvailable(ps);
    assert Available(ps[best]) == 0;
    assert forall i | 0 <= i < 4 :: Available(ps[i]) == 0;
    FullPicksFirst(ps);
  }

  lemma {:induction false} FullPicksFirst(ps: seq<Pool>)
    requires ps != [] && forall i | 0 <= i < |ps| :: Available(ps[i]) == 0
    ensures MostAvailable(ps) == 0
    decreases |ps|
  {
    if |ps| > 1 { FullPicksFirst(ps[..|ps| - 1]); }
  }

  lemma RoomBelowCapacity(ps: seq<Pool>, i: nat)
    requires Good(ps) && i < 4 && HasRoom(ps[i])
    ensures Total(ps) < CAPACITY
  {}

  lemma FirstGrows(size: word)
    requires size in {64, 96, 144, 216, 324, 486, 512}
    ensures Grown(size).None? <==> size == 512
    ensures Grown(size).Some? ==> size < Grown(size).value && Grown(size).value in {96, 144, 216, 324, 486, 512}
  {}

  /** A request with a queue is placed exactly while fewer than 688 buffers are active, and only the
      first pool ever grows, and only when nothing is left. */
  lemma PlacedWhileRoom(ps: seq<Pool>, queue: word)
    requires Good(ps)
    ensures var (grown, i) := Place(ps, queue);
            && (i.Some? <==> Total(ps) < CAPACITY)
            && Good(grown) && Total(grown) == Total(ps)
            && (i.Some? ==> i.value < 4 && HasRoom(grown[i.value]))
            && (grown != ps ==> grown == ps[0 := ps[0].(size := grown[0].size)] && grown[0].size > ps[0].size)
            && (grown != ps ==> Total(ps) == ps[0].size + 176)
  {
    hide MostAvailable, FirstAvailable, Select, Grown;
    if HasRoom(ps[Select(ps, queue)]) {
      RoomBelowCapacity(ps, Select(ps, queue));
    } else {
      FullMeansAllFull(ps, queue);
      FirstGrows(ps[0].size);
    }
  }

  lemma ServedWhileRoom(ps: seq<Pool>, r: Request)
    requires Good(ps) && r.queue != 0 && r.known
    ensures var (after, status) := Serve(ps, r);
            && Good(after)
            && (status == Success <==> r.succeeds && Total(ps) < CAPACITY)
            && Total(after) == Total(ps) + (if status == Success then 1 else 0)
            && (status == NoResources <==> Total(ps) >= CAPACITY)
            && forall i | 1 <= i < 4 :: after[i].size == ps[i].size
  {
    hide Place, Select, Grown, HasRoom;
    PlacedWhileRoom(ps, r.queue);
    var (grown, i) := Place(ps, r.queue);
    if i.Some? {
      PlacedIsServed(ps, r, grown, i.value);
    } else {
      SameSizes(ps, grown);
      assert Serve(ps, r) == (grown, NoResources);
    }
  }

  lemma PlacedIsServed(ps: seq<Pool>, r: Request, grown: seq<Pool>, i: nat)
    requires Good(ps) && Good(grown) && Total(grown) == Total(ps) && i < 4 && HasRoom(grown[i])
    requires r.queue != 0 && r.known && Place(ps, r.queue) == (grown, Some(i))
    ensures var (after, status) := Serve(ps, r);
            && Good(after) && status == (if r.succeeds then Success else Failed)
            && Total(after) == Total(ps) + (if r.succeeds then 1 else 0)
            && forall k | 1 <= k < 4 :: after[k].size == ps[k].size
  {
    hide Place, Total;
    OneMoreActive(grown, i);
    SameSizes(ps, Serve(ps, r).0);
  }

  lemma SameSizes(ps: seq<Pool>, qs: seq<Pool>)
    requires Good(ps) && Good(qs)
    ensures forall i | 1 <= i < 4 :: qs[i].size == ps[i].size
  {}

  lemma OneMoreActive(ps: seq<Pool>, i: nat)
    requires Good(ps) && i < 4 && HasRoom(ps[i])
    ensures var after := ps[i := ps[i].(active := Wrap(ps[i].active + 1))];
            Good(after) && Total(after) == Total(ps) + 1
  {
    assert Wrap(ps[i].active + 1) == ps[i].active + 1;
  }

  function Run(rs: seq<Request>): seq<Pool>
    ensures |Run(rs)| == 4
    decreases |rs|
  {
    if rs == [] then Initial() else Serve(Run(rs[..|rs| - 1]), rs[|rs| - 1]).0
  }

  predicate Sound(r: Request) {
    r.queue != 0 && r.known && r.succeeds
  }

  function CountSound(rs: seq<Request>): nat {
    if rs == [] then 0 else CountSound(rs[..|rs| - 1]) + if Sound(rs[|rs| - 1]) then 1 else 0
  }

  /** Over every run, whatever queues ask and whatever fails on the way, the buffers granted are as many
      as the requests that could have been, up to 688; no pool holds more than its size; the first pool
      has grown from 64 along one chain of sizes to at most 512 and the others not at all. */
  lemma {:induction false} GrantedOverRuns(rs: seq<Request>)
    ensures Good(Run(rs))
    ensures Total(Run(rs)) == if CountSound(rs) < CAPACITY then CountSound(rs) else CAPACITY
    decreases |rs|
  {
    if rs != [] {
      var before, last := rs[..|rs| - 1], rs[|rs| - 1];
      GrantedOverRuns(before);
      if last.queue != 0 && last.known { ServedWhileRoom(Run(before), last); }
    }
  }

  /** The next otherwise sound request is granted exactly while fewer than 688 have been. */
  lemma NextIsGrantedExactlyBelowCapacity(rs: seq<Request>, r: Request)
    requires Sound(r)
    ensures Serve(Run(rs), r).1 == Success <==> CountSound(rs) < CAPACITY
    ensures Serve(Run(rs), r).1 == NoResources <==> CountSound(rs) >= CAPACITY
  {
    GrantedOverRuns(rs);
    ServedWhileRoom(Run(rs), r);
  }

  ghost predicate SameCounts(ps: seq<Pool>, qs: seq<Pool>) {
    |ps| == |qs| && forall i | 0 <= i < |ps| :: qs[i].active == ps[i].active
  }

  lemma PlacedInSelected(ps: seq<Pool>, queue: word)
    requires Good(ps) && Place(ps, queue).1.Some?
    ensures Place(ps, queue).1 == Some(Select(ps, queue)) && SameCounts(ps, Place(ps, queue).0)
  {
    assert |ps| == 4;
    hide Good, Select, Grown, FirstAvailable, HasRoom;
    if !HasRoom(ps[Select(ps, queue)]) { FullMeansAllFull(ps, queue); }
  }

  /** A granted buffer counts in the pool selected for its queue, and in no other. */
  lemma GrantedInSelected(ps: seq<Pool>, r: Request)
    requires Good(ps) && Sound(r) && Total(ps) < CAPACITY
    ensures var i := Select(ps, r.queue);
            SameCounts(ps[i := ps[i].(active := ps[i].active + 1)], Serve(ps, r).0)
  {
    PlacedWhileRoom(ps, r.queue);
    PlacedInSelected(ps, r.queue);
    CountsOneMore(Place(ps, r.queue).0[Select(ps, r.queue)]);
    hide Good, Place, Select, Total, HasRoom, Wrap;
  }

  lemma CountsOneMore(p: Pool)
    requires HasRoom(p)
    ensures Wrap(p.active + 1) == p.active + 1
  {}

  /** The search for another pool, made when growing fails, never finds one. */
  lemma AlternativeNeverFound(rs: seq<Request>, queue: word)
    requires var ps := Run(rs); var i := Select(ps, queue); !HasRoom(ps[i]) && Grown(ps[i].size).None?
    ensures FirstAvailable(Run(rs)) == 4
  {
    GrantedOverRuns(rs);
    FullMeansAllFull(Run(rs), queue);
  }
}
