/** The GPU memory pools behind buffer synchronisation: selection, growth and linear allocation
    (FB/VMMetalBridge.cpp:2240-2298, 2343-2352, 2405-2409, 2448-2498, 2504-2652). */
module GpuMemory {
  import opened Words

  /** A 64-bit unsigned value. */
  type dword = x: int | 0 <= x < 0x1_0000_0000_0000_0000

  function Wrap64(x: int): dword {
    x % 0x1_0000_0000_0000_0000
  }

  const MB := 1024 * 1024
  const MAX_POOL_SIZE := 1024 * MB
  const BASE := 0x4000_0000
  const WINDOW := 0x1000_0000

  datatype Pool = Pool(base: dword, size: dword, used: dword, available: dword, coherent: bool)

  /** The address handed out, or why there is none; the last two give their address back. */
  datatype Answer =
    | Synced(pool: nat, address: dword)
    | NoResources
    | NoMemory
    | MappingFailed(pool: nat, address: dword)
    | ExecutionFailed(pool: nat, address: dword)

  predicate Chosen(answer: Answer) {
    answer.Synced? || answer.MappingFailed? || answer.ExecutionFailed?
  }

  datatype Outcome = Succeeds | NoDescriptor | MapFails | ExecuteFails

  datatype Sync = Sync(buffer: word, size: word, outcome: Outcome)

  /** How well a pool suits a transfer; pools without room are not considered. */
  function Score(p: Pool, size: word, buffer: word): (s: nat)
    requires p.size > 0
    ensures s == 0 <==> p.available < size
  {
    if p.available < size then 0
    else
      var fit := if size <= p.size / 4 then 30 else if size <= p.size / 2 then 20 else 10;
      var coherency := if p.coherent && buffer % 2 == 0 then 20 else 0;
      var percent := Wrap(Wrap64(p.available * 100) / p.size);
      var room := if percent > 75 then 15 else if percent > 50 then 10 else if percent > 25 then 5 else 0;
      fit + coherency + 15 + room
  }

  predicate Sized(ps: seq<Pool>) {
    forall i | 0 <= i < |ps| :: 0 < ps[i].size <= MAX_POOL_SIZE
  }

  /** The first pool with the best score; the first pool when none has room. */
  function Select(ps: seq<Pool>, size: word, buffer: word): (best: nat)
    requires ps != [] && Sized(ps)
    ensures best < |ps|
    ensures forall i | 0 <= i < |ps| :: Score(ps[i], size, buffer) <= Score(ps[best], size, buffer)
    ensures Score(ps[best], size, buffer) == 0 ==> best == 0
  {
    if |ps| == 1 then 0
    else
      var best := Select(ps[..|ps| - 1], size, buffer);
      if Score(ps[|ps| - 1], size, buffer) > Score(ps[best], size, buffer) then |ps| - 1 else best
  }

  /** Room for the request and half as much again in 32 bits, or a quarter of the pool; at most 1 GB. */
  function Growth(p: Pool, required: word): Option<nat>
    requires p.size <= MAX_POOL_SIZE
  {
    var headroom := Wrap(required * 3) / 2;
    var wanted := if headroom > p.size / 4 then headroom else p.size / 4;
    if p.size + wanted <= MAX_POOL_SIZE then Some(wanted)
    else if MAX_POOL_SIZE - p.size < required then None
    else Some(MAX_POOL_SIZE - p.size)
  }

  function Expanded(p: Pool, more: nat): (r: Pool)
    ensures p.size + more < 0x1_0000_0000_0000_0000 ==> r.size == p.size + more
  {
    p.(size := Wrap64(p.size + more), available := Wrap64(p.available + more))
  }

  function FirstAvailable(ps: seq<Pool>, size: word): (i: nat)
    ensures i <= |ps| && (i < |ps| ==> ps[i].available >= size)
    ensures forall j | 0 <= j < i :: ps[j].available < size
  {
    if ps == [] then 0
    else
      var i := FirstAvailable(ps[..|ps| - 1], size);
      if i < |ps| - 1 || ps[|ps| - 1].available >= size then i else |ps|
  }

  /** A search that ran to the end found nothing. */
  function Found(i: nat, n: nat): Option<nat> {
    if i < n then Some(i) else None
  }

  function Place(ps: seq<Pool>, size: word, buffer: word): (r: (seq<Pool>, Option<nat>))
    requires ps != [] && Sized(ps)
    ensures |r.0| == |ps| && Sized(r.0) && (r.1.Some? ==> r.1.value < |ps|)
  {
    var i := Select(ps, size, buffer);
    if ps[i].available >= size then (ps, Some(i))
    else match Growth(ps[i], size)
      case Some(more) => (ps[i := Expanded(ps[i], more)], Some(i))
      case None => (ps, Found(FirstAvailable(ps, size), |ps|))
  }

  function Aligned(size: word): word {
    Wrap(size + 255) / 256 * 256
  }

  /** The next address of a pool, rounded up to 256; none without room for the rounded size. */
  function Address(p: Pool, size: word): Option<dword> {
    if p.available < Aligned(size) then None
    else
      var address := Wrap64(Wrap64(p.base + Wrap64(p.size - p.available)) + 255) / 256 * 256;
      if address == 0 then None else Some(address)
  }

  function Commit(p: Pool, size: word): Pool {
    p.(used := Wrap64(p.used + size), available := Wrap64(p.available - size))
  }

  /** What a failed transfer gives back, though it was never taken. */
  function Release(p: Pool, size: word): Pool {
    p.(used := Wrap64(p.used - Aligned(size)), available := Wrap64(p.available + Aligned(size)))
  }

  /** One transfer on its pool. */
  function Transfer(p: Pool, i: nat, s: Sync): (Pool, Answer) {
    if s.outcome == NoDescriptor then (p, NoMemory)
    else match Address(p, s.size)
      case None => (p, NoMemory)
      case Some(address) =>
        match s.outcome
        case MapFails => (Release(p, s.size), MappingFailed(i, address))
        case ExecuteFails => (Release(p, s.size), ExecutionFailed(i, address))
        case _ => (Commit(p, s.size), Synced(i, address))
  }

  function Synchronize(ps: seq<Pool>, s: Sync): (r: (seq<Pool>, Answer))
    requires ps != [] && Sized(ps)
    ensures |r.0| == |ps| && Sized(r.0) && (Chosen(r.1) ==> r.1.pool < |ps|)
  {
    var (placed, i) := Place(ps, s.size, s.buffer);
    if i.None? then (placed, NoResources)
    else
      var (p, answer) := Transfer(placed[i.value], i.value, s);
      (placed[i.value := p], answer)
  }

  // ---------------------------------------------------------------- in place

  const CONFIGURATION: seq<(dword, bool)> :=
    [(64 * MB, true), (128 * MB, true), (32 * MB, false), (16 * MB, true), (8 * MB, false), (256 * MB, false)]

  function Initial(): (ps: seq<Pool>)
    ensures |ps| == 6 && Sized(ps)
  {
    [Pool(BASE, 64 * MB, 0, 64 * MB, true), Pool(BASE + WINDOW, 128 * MB, 0, 128 * MB, true),
     Pool(BASE + 2 * WINDOW, 32 * MB, 0, 32 * MB, false), Pool(BASE + 3 * WINDOW, 16 * MB, 0, 16 * MB, true),
     Pool(BASE + 4 * WINDOW, 8 * MB, 0, 8 * MB, false), Pool(BASE + 5 * WINDOW, 256 * MB, 0, 256 * MB, false)]
  }

  class Memory {
    const pools: array<Pool>
    var count: nat

    ghost predicate Valid()
      reads this, pools
    {
      pools.Length == 16 && (count == 0 || count == 6) && Sized(pools[..count])
    }

    ghost function Value(): seq<Pool>
      requires Valid()
      reads this, pools
    {
      pools[..count]
    }

    ghost function Ready(): seq<Pool>
      requires Valid()
      reads this, pools
    {
      if count == 0 then Initial() else Value()
    }

    constructor ()
      ensures Valid() && count == 0
    {
      pools := new Pool[16](i => Pool(0, 0, 0, 0, false));
      count := 0;
    }

    method InitializePools()
      requires Valid()
      modifies this, pools
      ensures Valid() && count == 6 && Value() == Initial()
    {
      count := 0;
      while count < |CONFIGURATION| && count < 16
        invariant 0 <= count <= 6 && pools.Length == 16
        invariant forall i | 0 <= i < count :: pools[i] == Initial()[i]
      {
        var (size, coherent) := CONFIGURATION[count];
        pools[count] := Pool(Wrap64(BASE + count * WINDOW), size, 0, size, coherent);
        count := count + 1;
      }
      assert pools[..count] == Initial();
    }

    method SelectPool(size: word, buffer: word) returns (best: nat)
      requires Valid() && count == 6
      ensures best == Select(Value(), size, buffer)
    {
      hide Score;
      best := 0;
      var bestScore := 0;
      var i := 0;
      while i < count
        invariant 0 <= i <= count
        invariant i == 0 ==> best == 0 && bestScore == 0
        invariant i > 0 ==> best == Select(pools[..i], size, buffer) && bestScore == Score(pools[best], size, buffer)
      {
        assert pools[..i + 1][..i] == pools[..i];
        var score := Score(pools[i], size, buffer);
        if pools[i].available >= size && score > bestScore { bestScore, best := score, i; }
        i := i + 1;
      }
    }

    method ExpandPool(i: nat, required: word) returns (grown: bool)
      requires Valid() && i < count
      modifies pools
      ensures Valid() && grown == old(Growth(Value()[i], required)).Some?
      ensures Value() == if grown then old(Value()[i := Expanded(Value()[i], Growth(Value()[i], required).value)])
                         else old(Value())
    {
      var p := pools[i];
      assert p == Value()[i];
      var wanted: nat := Wrap(required * 3) / 2;
      if wanted <= p.size / 4 { wanted := p.size / 4; }
      if p.size + wanted > MAX_POOL_SIZE {
        wanted := MAX_POOL_SIZE - p.size;
        if wanted < required { return false; }
      }
      pools[i] := Expanded(p, wanted);
      assert pools[..count] == old(pools[..count])[i := Expanded(p, wanted)];
      grown := true;
    }

    method FindAvailable(size: word) returns (i: nat)
      requires Valid()
      ensures i == FirstAvailable(Value(), size)
    {
      i := 0;
      while i < count && pools[i].available < size
        invariant 0 <= i <= count
        invariant forall j | 0 <= j < i :: pools[j].available < size
      {
        i := i + 1;
      }
    }

    method FindPlace(size: word, buffer: word) returns (pool: Option<nat>)
      requires Valid() && count == 6
      modifies pools
      ensures Valid() && (Value(), pool) == Place(old(Value()), size, buffer)
    {
      var i := SelectPool(size, buffer);
      if pools[i].available < size {
        var grown := ExpandPool(i, size);
        if !grown {
          var other := FindAvailable(size);
          return Found(other, count);
        }
      }
      pool := Some(i);
    }

    method SynchronizeBuffer(s: Sync) returns (answer: Answer)
      requires Valid()
      modifies this, pools
      ensures Valid() && count == 6 && (Value(), answer) == Synchronize(old(Ready()), s)
    {
      if count == 0 { InitializePools(); }
      var place := FindPlace(s.size, s.buffer);
      if place.None? { return NoResources; }
      var i := place.value;
      ghost var placed := pools[..count];
      if s.outcome == NoDescriptor {
        assert placed == placed[i := placed[i]];
        return NoMemory;
      }
      var address := Address(pools[i], s.size);
      if address.None? {
        assert placed == placed[i := placed[i]];
        return NoMemory;
      }
      answer := if s.outcome == MapFails then MappingFailed(i, address.value)
                else if s.outcome == ExecuteFails then ExecutionFailed(i, address.value)
                else Synced(i, address.value);
      if answer.Synced? { TakeBytes(i, s.size); } else { GiveBytes(i, s.size); }
    }

    method TakeBytes(i: nat, size: word)
      requires Valid() && i < count
      modifies pools
      ensures Valid() && Value() == old(Value())[i := Commit(old(Value())[i], size)]
    {
      pools[i] := pools[i].(used := Wrap64(pools[i].used + size),
                            available := Wrap64(pools[i].available - size));
      assert pools[..count] == old(pools[..count])[i := Commit(old(pools[i]), size)];
    }

    method GiveBytes(i: nat, size: word)
      requires Valid() && i < count
      modifies pools
      ensures Valid() && Value() == old(Value())[i := Release(old(Value())[i], size)]
    {
      var rounded := Wrap(size + 255) / 256 * 256;
      pools[i] := pools[i].(used := Wrap64(pools[i].used - rounded),
                            available := Wrap64(pools[i].available + rounded));
      assert pools[..count] == old(pools[..count])[i := Release(old(pools[i]), size)];
    }
  }
}

/** What a single transfer does to a pool, and what several pools and unaligned sizes lead to. */
module GpuMemorySteps {
  import opened Words
  import opened Arithmetic
  import opened GpuMemory

  /** Used and available bytes make up the pool. */
  predicate Balanced(p: Pool) {
    p.used + p.available == p.size && 0 < p.size <= MAX_POOL_SIZE
  }

  /** Every pool has its window; only the first can exceed it, up to 1 GB. */
  ghost predicate Shaped(ps: seq<Pool>) {
    && |ps| == 6 && (forall i | 0 <= i < 6 :: 0 < ps[i].size <= MAX_POOL_SIZE && ps[i].base == BASE + i * WINDOW)
    && (forall i | 1 <= i < 6 :: ps[i].size <= WINDOW)
  }

  ghost predicate Good(ps: seq<Pool>) {
    Shaped(ps) && forall i | 0 <= i < 6 :: Balanced(ps[i])
  }

  predicate FitsSomewhere(ps: seq<Pool>, size: word) {
    exists i | 0 <= i < |ps| :: ps[i].available >= size
  }

  /** The selected pool has room whenever any has. */
  lemma SelectedFits(ps: seq<Pool>, size: word, buffer: word)
    requires ps != [] && Sized(ps)
    ensures ps[Select(ps, size, buffer)].available >= size <==> FitsSomewhere(ps, size)
  {
    var best := Select(ps, size, buffer);
    if ps[best].available < size {
      assert forall i | 0 <= i < |ps| :: Score(ps[i], size, buffer) == 0;
    }
  }

  /** Of several with the best score it is the first. */
  lemma {:induction false} SelectedIsFirst(ps: seq<Pool>, size: word, buffer: word)
    requires ps != [] && Sized(ps)
    ensures var best := Select(ps, size, buffer);
            forall i | 0 <= i < best :: Score(ps[i], size, buffer) < Score(ps[best], size, buffer)
    decreases |ps|
  {
    hide Score;
    if |ps| > 1 { SelectedIsFirst(ps[..|ps| - 1], size, buffer); }
  }

  function One(b: bool): nat {
    if b then 1 else 0
  }

  /** What the score of a pool with room is made of: whether the request is at most half and a quarter of it, whether
      it is coherent and the id even, and whether more than a quarter, a half and three quarters of it are free,
      counted in whole percent. */
  lemma ScoreIs(p: Pool, size: word, buffer: word)
    requires size <= p.available <= p.size && 0 < p.size <= MAX_POOL_SIZE
    ensures Score(p, size, buffer)
            == 25 + 10 * (One(2 * size <= p.size) + One(4 * size <= p.size))
               + 20 * One(p.coherent && buffer % 2 == 0)
               + 5 * (One(100 * p.available >= 26 * p.size) + One(100 * p.available >= 51 * p.size)
                      + One(100 * p.available >= 76 * p.size))
  {
    PercentIs(p);
    var percent := p.available * 100 / p.size;
    hide Wrap, Wrap64;
    PercentReaches(p.available, p.size, 26);
    PercentReaches(p.available, p.size, 51);
    PercentReaches(p.available, p.size, 76);
    Parts(p.size, size);
  }

  lemma Parts(whole: nat, size: nat)
    ensures (size <= whole / 4 <==> 4 * size <= whole) && (size <= whole / 2 <==> 2 * size <= whole)
  {}

  lemma PercentIs(p: Pool)
    requires p.available <= p.size && 0 < p.size <= MAX_POOL_SIZE
    ensures Wrap(Wrap64(p.available * 100) / p.size) == p.available * 100 / p.size <= 100
  {
    Unwrapped64(p.available * 100);
    PercentReaches(p.available, p.size, 101);
    Unwrapped(p.available * 100 / p.size);
  }

  lemma PercentReaches(available: nat, size: nat, percent: nat)
    requires size > 0
    ensures available * 100 / size >= percent <==> 100 * available >= percent * size
  {
    var q := available * 100 / size;
    Quotient(available * 100, size);
    if q >= percent { MulLe(percent, q, size, size); } else { MulLe(q + 1, percent, size, size); }
  }

  lemma Quotient(a: nat, b: nat)
    requires b > 0
    ensures (a / b) * b <= a < (a / b + 1) * b
  {}

  /** Of two pools with room that fit the request equally well, a coherent one is preferred for an even id whatever
      the room; otherwise the one with more percent of its bytes free is never preferred less. */
  lemma PreferredPool(a: Pool, b: Pool, size: word, buffer: word)
    requires size <= a.available <= a.size <= MAX_POOL_SIZE && size <= b.available <= b.size <= MAX_POOL_SIZE
    requires 0 < a.size && 0 < b.size
    requires (2 * size <= a.size <==> 2 * size <= b.size) && (4 * size <= a.size <==> 4 * size <= b.size)
    ensures a.coherent && !b.coherent && buffer % 2 == 0 ==> Score(a, size, buffer) > Score(b, size, buffer)
    ensures (a.coherent == b.coherent || buffer % 2 == 1) && a.available * b.size >= b.available * a.size
            ==> Score(a, size, buffer) >= Score(b, size, buffer)
  {
    ScoreIs(a, size, buffer);
    ScoreIs(b, size, buffer);
    if a.available * b.size >= b.available * a.size {
      MoreIsFree(a, b, 26);
      MoreIsFree(a, b, 51);
      MoreIsFree(a, b, 76);
    }
  }

  lemma MoreIsFree(a: Pool, b: Pool, percent: nat)
    requires 0 < a.size && 0 < b.size && a.available * b.size >= b.available * a.size
    ensures 100 * b.available >= percent * b.size ==> 100 * a.available >= percent * a.size
  {
    if 100 * b.available >= percent * b.size && 100 * a.available < percent * a.size {
      Cross(a.available, a.size, b.available, b.size, percent);
    }
  }

  lemma Cross(x: nat, a: nat, y: nat, b: nat, percent: nat)
    requires 0 < a && 0 < b && 100 * y >= percent * b && x * b >= y * a
    ensures 100 * x >= percent * a
  {
    MulLe(percent * b, 100 * y, a, a);
    assert 100 * (x * b) >= 100 * (y * a);
    Swapped(percent, b, a);
    Cancel(100 * x, percent * a, b);
  }

  lemma Swapped(p: nat, b: nat, a: nat)
    ensures p * b * a == (p * a) * b
  {}

  lemma Cancel(x: nat, y: nat, b: nat)
    requires b > 0 && x * b >= y * b
    ensures x >= y
  {
    if x < y { MulLe(x + 1, y, b, b); }
  }

  /** So growth concerns the first pool only, and the search made when it fails finds nothing. */
  lemma OnlyFirstGrows(ps: seq<Pool>, size: word, buffer: word)
    requires ps != [] && Sized(ps) && !FitsSomewhere(ps, size)
    ensures Select(ps, size, buffer) == 0 && FirstAvailable(ps, size) == |ps|
  {
    SelectedFits(ps, size, buffer);
  }

  /** How much a pool grows for a request up to 1 GB: not at all exactly when the rest up to 1 GB is less than the
      request; to 1 GB when half as much again as the request, or a quarter of the pool, would go beyond; otherwise by
      the larger of the two, rounded down. */
  lemma GrowthIs(p: Pool, required: word)
    requires p.size <= 0x4000_0000 && required <= 0x4000_0000
    ensures Growth(p, required).None? <==> p.size + required > 0x4000_0000
    ensures Growth(p, required).Some? ==>
              var more := Growth(p, required).value;
              && p.size + more <= 0x4000_0000
              && (p.size + more < 0x4000_0000 ==> 2 * (more + 1) > 3 * required && 4 * (more + 1) > p.size)
              && (2 * more <= 3 * required || 4 * more <= p.size)
  {
    Unwrapped(required * 3);
    hide Wrap;
  }

  /** A growth that succeeds makes room exactly for requests up to 1 GB. */
  lemma GrowthMakesRoom(p: Pool, size: word)
    requires Balanced(p) && p.available < size && Growth(p, size).Some?
    ensures Balanced(Expanded(p, Growth(p, size).value)) && Expanded(p, Growth(p, size).value).size >= p.size
    ensures Expanded(p, Growth(p, size).value).available >= size <==> size <= MAX_POOL_SIZE
  {
    if size <= MAX_POOL_SIZE { Headroom(size); }
    GrowthIsBounded(p, size);
    Unwrapped64(p.available + Growth(p, size).value);
  }

  lemma Headroom(size: word)
    requires size <= MAX_POOL_SIZE
    ensures Wrap(size * 3) / 2 >= size
  {
    assert Wrap(size * 3) == size * 3;
  }

  lemma GrowthIsBounded(p: Pool, size: word)
    requires 0 < p.size <= MAX_POOL_SIZE && Growth(p, size).Some?
    ensures p.size + Growth(p, size).value <= MAX_POOL_SIZE
    ensures Growth(p, size).value >= size || Growth(p, size).value >= Wrap(size * 3) / 2
  {}

  lemma Unwrapped64(x: nat)
    requires x < 0x1_0000_0000_0000_0000
    ensures Wrap64(x) == x
  {}

  /** Three times a larger request can wrap: the pool grows, and the request still does not fit. */
  lemma GrowthWithoutRoom(buffer: word)
    ensures var s := Sync(buffer, 0x5555_5600, Succeeds);
            var (after, answer) := Synchronize(Initial(), s);
            answer == NoMemory && after == Initial()[0 := Expanded(Initial()[0], 16 * MB)]
  {
    OnlyFirstGrows(Initial(), 0x5555_5600, buffer);
  }

  // ---------------------------------------------------------------- one step

  predicate Multiple(x: int) {
    x % 256 == 0
  }

  function RoundUp(x: nat): nat {
    (x + 255) / 256 * 256
  }

  /** Sizes and addresses are rounded up to the next multiple of 256; a size within 255 of 4 GB wraps to 0. */
  lemma RoundsUp(x: nat, size: word)
    ensures x <= RoundUp(x) < x + 256 && Multiple(RoundUp(x))
    ensures size <= 0xFFFF_FF00 ==> size <= Aligned(size) < size + 256 && Multiple(Aligned(size))
    ensures size > 0xFFFF_FF00 ==> Aligned(size) == 0
  {
    if size <= 0xFFFF_FF00 { Unwrapped(size + 255); }
  }

  /** The address is what the bytes not available come to, rounded up; the sums may wrap on the way. */
  lemma AddressRounds(p: Pool, size: word, start: nat)
    requires start == p.base + p.size - p.available && 0 < start < 0x1_0000_0000_0000
    ensures Address(p, size) == if p.available < Aligned(size) then None else Some(RoundUp(start))
  {
    WrapsBack(p.base, p.size - p.available);
    Unwrapped64(start + 255);
    assert RoundUp(start) > 0;
  }

  lemma WrapsBack(base: dword, offset: int)
    requires 0 <= base + offset < 0x1_0000_0000_0000_0000
    ensures Wrap64(base + Wrap64(offset)) == base + offset
  {
    assert Wrap64(offset) == offset - offset / 0x1_0000_0000_0000_0000 * 0x1_0000_0000_0000_0000;
  }

  lemma RoundUpMultiple(x: nat)
    requires Multiple(x)
    ensures RoundUp(x) == x
  {}

  /** Where a transfer of a multiple of 256 bytes lands in a balanced pool: right after what is used. */
  lemma AddressFollowsUsed(p: Pool, size: word)
    requires Balanced(p) && Multiple(p.base) && Multiple(p.used) && Multiple(size)
    requires BASE <= p.base < 0x1_0000_0000
    ensures Address(p, size) == if p.available < size then None else Some(p.base + p.used)
  {
    AlignedMultiple(size);
    AddressRounds(p, size, p.base + p.used);
    RoundUpMultiple(p.base + p.used);
  }

  lemma AlignedMultiple(size: word)
    requires Multiple(size)
    ensures Aligned(size) == size
  {
    hide Wrap;
    var q := size / 256;
    assert size == 256 * q && q < 0x100_0000;
    Unwrapped(256 * q + 255);
    WholeBlocks(q);
  }

  lemma WholeBlocks(q: nat)
    ensures (256 * q + 255) / 256 == q
  {}

  // ---------------------------------------------------------------- across pools

  predicate ExtentsDisjoint(a: Pool, b: Pool) {
    a.used == 0 || b.used == 0 || a.base + a.used <= b.base || b.base + b.used <= a.base
  }

  ghost predicate AllExtentsDisjoint(ps: seq<Pool>) {
    forall i, j | 0 <= i < j < |ps| :: ExtentsDisjoint(ps[i], ps[j])
  }

  ghost predicate FirstEndsBelow(ps: seq<Pool>)
    requires |ps| == 6
  {
    forall p | 1 <= p < 6 :: ps[p].used == 0 || ps[0].used <= p * WINDOW
  }

  /** The windows are 256 MB apart, so only the first pool, once grown, can reach into another: the used
      parts of all pools are disjoint exactly when it has not. */
  lemma PoolsOverlapExactlyWhen(ps: seq<Pool>)
    requires Good(ps)
    ensures AllExtentsDisjoint(ps) <==> FirstEndsBelow(ps)
  {
    forall i, j | 1 <= i < j < 6 ensures ExtentsDisjoint(ps[i], ps[j]) {
      assert Balanced(ps[i]);
    }
    forall p | 1 <= p < 6 ensures ExtentsDisjoint(ps[0], ps[p]) <==> ps[p].used == 0 || ps[0].used <= p * WINDOW {
      assert ps[p].base == ps[0].base + p * WINDOW;
    }
  }

  /** The initial pools after one transfer of 960 MB has grown the first to 1 GB. */
  function AfterLarge(): (ps: seq<Pool>)
    ensures |ps| == 6 && Sized(ps)
  {
    Initial()[0 := Pool(BASE, 1024 * MB, 960 * MB, 64 * MB, true)]
  }

  lemma GrownTransfer(ps: seq<Pool>, s: Sync)
    requires Good(ps) && !FitsSomewhere(ps, s.size) && Growth(ps[0], s.size).Some?
    requires Multiple(s.size) && Multiple(ps[0].used) && s.size <= MAX_POOL_SIZE && s.outcome == Succeeds
    ensures var p := Expanded(ps[0], Growth(ps[0], s.size).value);
            Synchronize(ps, s) == (ps[0 := Commit(p, s.size)], Synced(0, p.base + p.used))
  {
    OnlyFirstGrows(ps, s.size, s.buffer);
    GrowthMakesRoom(ps[0], s.size);
    var p := Expanded(ps[0], Growth(ps[0], s.size).value);
    assert Place(ps, s.size, s.buffer) == (ps[0 := p], Some(0));
    AddressFollowsUsed(p, s.size);
    assert ps[0 := p][0 := Commit(p, s.size)] == ps[0 := Commit(p, s.size)];
  }

  lemma LargeGrowth(p: Pool)
    requires p.size == 64 * MB
    ensures Growth(p, 960 * MB) == Some(960 * MB)
  {}

  lemma LargeGrowsFirst()
    ensures Synchronize(Initial(), Sync(1, 960 * MB, Succeeds)) == (AfterLarge(), Synced(0, BASE))
  {
    hide Score, Select, Synchronize, Growth, FirstAvailable;
    assert forall i | 0 <= i < 6 :: Initial()[i].available < 960 * MB;
    LargeGrowth(Initial()[0]);
    GrownTransfer(Initial(), Sync(1, 960 * MB, Succeeds));
  }

  /** Only the second and the last pool have room for 96 MB, and an even id prefers the second. */
  lemma SecondIsSelected()
    ensures Select(AfterLarge(), 96 * MB, 2) == 1
  {
    var ps := AfterLarge();
    assert Score(ps[1], 96 * MB, 2) == 60;
    assert Score(ps[5], 96 * MB, 2) == 50;
  }

  lemma NextGoesToSecond()
    ensures Synchronize(AfterLarge(), Sync(2, 96 * MB, Succeeds)).1 == Synced(1, BASE + WINDOW)
  {
    hide Score, Select, Transfer, Growth, FirstAvailable;
    SecondIsSelected();
    TransferLands(AfterLarge()[1], 1, 2, 96 * MB);
  }

  lemma TransferLands(p: Pool, i: nat, buffer: word, size: word)
    requires Balanced(p) && Multiple(p.base) && p.used == 0 && Multiple(size) && size <= p.available
    requires BASE <= p.base < 0x1_0000_0000
    ensures Transfer(p, i, Sync(buffer, size, Succeeds))
            == (p.(used := size, available := p.available - size), Synced(i, p.base))
  {
    AddressFollowsUsed(p, size);
  }

  /** And the condition can fail: after a transfer of 960 MB, one of 96 MB lands inside its block. */
  lemma PoolsCanOverlap()
    ensures Synchronize(Initial(), Sync(1, 960 * MB, Succeeds)) == (AfterLarge(), Synced(0, BASE))
    ensures Synchronize(AfterLarge(), Sync(2, 96 * MB, Succeeds)).1 == Synced(1, BASE + WINDOW)
    ensures BASE < BASE + WINDOW < BASE + 960 * MB
  {
    LargeGrowsFirst();
    NextGoesToSecond();
  }

  // ---------------------------------------------------------------- sizes that are not multiples of 256

  /** The address of a transfer of any size: rounded up from what is used, which is not itself rounded. */
  lemma AddressRoundsUp(p: Pool, size: word)
    requires Balanced(p) && Multiple(p.base) && BASE <= p.base < 0x1_0000_0000
    ensures Address(p, size) == if p.available < Aligned(size) then None else Some(p.base + RoundUp(p.used))
  {
    AddressRounds(p, size, p.base + p.used);
    assert (p.base + p.used + 255) / 256 == p.base / 256 + (p.used + 255) / 256;
  }

  function Sum(sizes: seq<nat>): nat {
    if sizes == [] then 0 else Sum(sizes[..|sizes| - 1]) + sizes[|sizes| - 1]
  }

  /** Where the k-th block of a pool starts, from its base, when the blocks so far had these sizes. */
  function Start(sizes: seq<nat>, k: nat): nat
    requires k <= |sizes|
  {
    RoundUp(Sum(sizes[..k]))
  }

  /** An unused pool after transfers of these sizes. */
  function Taken(p: Pool, sizes: seq<word>): Pool {
    if sizes == [] then p else Commit(Taken(p, sizes[..|sizes| - 1]), sizes[|sizes| - 1])
  }

  lemma {:induction false} TakenIsSum(p: Pool, sizes: seq<word>)
    requires Balanced(p) && p.used == 0 && Sum(sizes) <= p.size
    ensures Taken(p, sizes) == p.(used := Sum(sizes), available := p.size - Sum(sizes))
    decreases |sizes|
  {
    hide Commit;
    if sizes != [] {
      TakenIsSum(p, sizes[..|sizes| - 1]);
      OneMoreTaken(p, Sum(sizes[..|sizes| - 1]), sizes[|sizes| - 1]);
    }
  }

  lemma OneMoreTaken(p: Pool, sum: nat, size: word)
    requires sum + size <= p.size
    ensures Commit(p.(used := sum, available := p.size - sum), size)
            == p.(used := sum + size, available := p.size - (sum + size))
  {}

  /** So Start says where an unused pool puts its k-th block. */
  lemma BlocksStartThere(p: Pool, sizes: seq<word>, k: nat)
    requires Balanced(p) && p.used == 0 && Multiple(p.base) && BASE <= p.base < 0x1_0000_0000
    requires k < |sizes| && Sum(sizes[..k]) + Aligned(sizes[k]) <= p.size
    ensures Address(Taken(p, sizes[..k]), sizes[k]) == Some(p.base + Start(sizes, k))
  {
    TakenIsSum(p, sizes[..k]);
    AddressRoundsUp(Taken(p, sizes[..k]), sizes[k]);
  }

  /** A block ends before the next begins. */
  predicate EndsInTime(used: nat, size: nat) {
    used % 256 == 0 || size % 256 == 0 || used % 256 + size % 256 > 256
  }

  lemma NextStartsLater(used: nat, size: nat)
    ensures RoundUp(used) + size <= RoundUp(used + size) <==> EndsInTime(used, size)
  {
    var a, r, b, t := used / 256, used % 256, size / 256, size % 256;
    assert used == 256 * a + r && size == 256 * b + t;
    Rounded(a, r);
    if r + t < 256 { Rounded(a + b, r + t); } else { Rounded(a + b + 1, r + t - 256); }
    assert used + size == 256 * (a + b) + (r + t);
  }

  lemma Rounded(a: nat, r: nat)
    requires r < 256
    ensures RoundUp(256 * a + r) == 256 * a + if r == 0 then 0 else 256
  {
    assert (256 * a + r + 255) / 256 == a + (r + 255) / 256;
  }

  lemma {:induction false} StartsAscend(sizes: seq<nat>, j: nat, k: nat)
    requires j <= k <= |sizes|
    ensures Start(sizes, j) <= Start(sizes, k)
    decreases k
  {
    if j < k {
      assert sizes[..k][..k - 1] == sizes[..k - 1];
      StartsAscend(sizes, j, k - 1);
    }
  }

  /** The blocks of one pool, of any sizes in any number, are pairwise disjoint exactly when each but the
      last starts or ends on a multiple of 256 or has remainders that together exceed 256. */
  lemma UnalignedBlocksDisjointExactlyWhen(sizes: seq<nat>)
    ensures (forall j, k | 0 <= j < k < |sizes| :: Start(sizes, j) + sizes[j] <= Start(sizes, k))
            <==> (forall j | 0 <= j < |sizes| - 1 :: EndsInTime(Sum(sizes[..j]), sizes[j]))
  {
    forall j | 0 <= j < |sizes| - 1
      ensures Start(sizes, j) + sizes[j] <= Start(sizes, j + 1) <==> EndsInTime(Sum(sizes[..j]), sizes[j])
    {
      assert sizes[..j + 1][..j] == sizes[..j];
      NextStartsLater(Sum(sizes[..j]), sizes[j]);
    }
    if forall j | 0 <= j < |sizes| - 1 :: EndsInTime(Sum(sizes[..j]), sizes[j]) {
      forall j, k | 0 <= j < k < |sizes| ensures Start(sizes, j) + sizes[j] <= Start(sizes, k) {
        assert EndsInTime(Sum(sizes[..j]), sizes[j]);
        StartsAscend(sizes, j + 1, k);
      }
    } else {
      var j :| 0 <= j < |sizes| - 1 && !EndsInTime(Sum(sizes[..j]), sizes[j]);
      assert Start(sizes, j) + sizes[j] > Start(sizes, j + 1);
    }
  }
}
