/** Whole runs of transfers, the failing ones included: where every block lies, and exactly when the blocks
    of the pools stay disjoint (FB/VMMetalBridge.cpp:2240-2409, 2605-2653). */
module GpuMemoryRuns {
  import opened Words
  import opened GpuMemory
  import opened GpuMemorySteps

  /** A transfer whose address was chosen, after so many bytes of its pool; a failed one is not kept. */
  datatype Entry = Entry(pool: nat, start: int, size: word, address: dword, kept: bool)

  /** The pools, the bytes taken minus the bytes given back in each, and the transfers so far. */
  datatype World = World(pools: seq<Pool>, at: seq<int>, log: seq<Entry>)

  /** A failed transfer gives back its size rounded up, which was never taken. */
  function Signed(size: word, kept: bool): int {
    if kept then size else 0 - Aligned(size) as int
  }

  function Logged(w: World, e: Entry): World
    requires e.pool < |w.at|
  {
    w.(at := w.at[e.pool := w.at[e.pool] + Signed(e.size, e.kept)], log := w.log + [e])
  }

  /** The entry of a transfer that chose its address. */
  function Noted(at: seq<int>, size: word, answer: Answer): Entry
    requires Chosen(answer) && answer.pool < |at|
  {
    Entry(answer.pool, at[answer.pool], size, answer.address, answer.Synced?)
  }

  function Do(w: World, s: Sync): (r: World)
    requires w.pools != [] && Sized(w.pools) && |w.at| == |w.pools|
    ensures |r.at| == |r.pools| == |w.pools| && Sized(r.pools)
  {
    var (pools, answer) := Synchronize(w.pools, s);
    var after := w.(pools := pools);
    if Chosen(answer) then Logged(after, Noted(w.at, s.size, answer)) else after
  }

  function Run(ss: seq<Sync>): (w: World)
    ensures |w.at| == |w.pools| == 6 && Sized(w.pools)
    decreases |ss|
  {
    if ss == [] then World(Initial(), [0, 0, 0, 0, 0, 0], []) else Do(Run(ss[..|ss| - 1]), ss[|ss| - 1])
  }

  // ---------------------------------------------------------------- one pool

  /** The pool's counters when so many bytes are taken, in 64 bits. */
  predicate At(p: Pool, position: int) {
    p.used == Wrap64(position) && p.available == Wrap64(p.size - position)
  }

  lemma WrapOnce(a: int, b: int)
    ensures Wrap64(Wrap64(a) + b) == Wrap64(a + b)
  {
    var q := a / 0x1_0000_0000_0000_0000;
    assert a == q * 0x1_0000_0000_0000_0000 + Wrap64(a);
    WrapMultiple(q, Wrap64(a) + b);
  }

  lemma WrapMultiple(k: int, x: int)
    ensures Wrap64(k * 0x1_0000_0000_0000_0000 + x) == Wrap64(x)
  {}

  lemma WrapMinus(a: int, b: int)
    ensures Wrap64(a - Wrap64(b)) == Wrap64(a - b)
  {
    var q := b / 0x1_0000_0000_0000_0000;
    assert b == q * 0x1_0000_0000_0000_0000 + Wrap64(b);
    WrapMultiple(-q, a - Wrap64(b));
  }

  lemma ExpandedAt(p: Pool, position: int, more: nat)
    requires At(p, position) && p.size + more < 0x1_0000_0000_0000_0000
    ensures At(Expanded(p, more), position)
  {
    WrapOnce(p.size - position, more);
  }

  lemma CommitAt(p: Pool, position: int, size: word)
    requires At(p, position)
    ensures At(Commit(p, size), position + size)
  {
    WrapOnce(position, size);
    WrapOnce(p.size - position, 0 - size as int);
  }

  lemma ReleaseAt(p: Pool, position: int, size: word)
    requires At(p, position)
    ensures At(Release(p, size), position - Aligned(size))
  {
    WrapOnce(position, 0 - Aligned(size) as int);
    WrapOnce(p.size - position, Aligned(size));
  }

  /** Where the unrounded sums put the next block. */
  lemma StartAt(base: int, size: int, available: int, position: int)
    requires available == Wrap64(size - position)
    ensures Wrap64(base + Wrap64(size - available)) == Wrap64(base + position)
  {
    WrapMinus(size, size - position);
    assert size - (size - position) == position;
    WrapOnce(position, base);
  }

  /** The next multiple of 256, in 64 bits. */
  function Rounded64(x: dword): dword {
    Wrap64(x + 255) / 256 * 256
  }

  /** Whatever was taken and given back, the next address is the base plus the difference, rounded up. */
  lemma AddressAt(p: Pool, position: int, size: word)
    requires At(p, position)
    ensures var start := Rounded64(Wrap64(p.base + position));
            Address(p, size) == if p.available < Aligned(size) || start == 0 then None else Some(start)
  {
    StartAt(p.base, p.size, p.available, position);
  }

  lemma WrapsDown(x: nat)
    ensures Wrap64(x) <= x
  {}

  lemma FitsBelow(p: Pool, position: int, size: word)
    requires At(p, position) && position <= p.size && size <= p.available
    ensures position + size <= p.size
  {
    WrapsDown(p.size - position);
  }

  /** No more is taken than there is. */
  predicate Sits(p: Pool, position: int) {
    At(p, position) && position <= p.size
  }

  lemma CommitSits(p: Pool, position: int, size: word)
    requires Sits(p, position) && size <= p.available
    ensures Sits(Commit(p, size), position + size)
  {
    FitsBelow(p, position, size);
    CommitAt(p, position, size);
  }

  /** There is room, or there is none for the rounded size either. */
  predicate Roomy(p: Pool, size: word) {
    p.available < size ==> p.available < Aligned(size)
  }

  /** The address is the pool's base plus the bytes before it, rounded up, and those leave room. */
  predicate Lands(p: Pool, position: int, size: word, address: dword) {
    address == Rounded64(Wrap64(p.base + position)) && position + size <= p.size
  }

  /** What a transfer whose address is chosen does to its pool. */
  predicate Moved(p: Pool, position: int, size: word, address: dword, kept: bool, q: Pool) {
    && q.base == p.base && q.size == p.size && Sits(q, position + Signed(size, kept))
    && Lands(p, position, size, address)
  }

  lemma TransferMoves(p: Pool, position: int, i: nat, s: Sync)
    requires Sits(p, position) && Roomy(p, s.size)
    ensures var (q, answer) := Transfer(p, i, s);
            if Chosen(answer) then answer.pool == i && Moved(p, position, s.size, answer.address, answer.Synced?, q)
            else q == p
  {
    AddressAt(p, position, s.size);
    if s.size <= p.available {
      FitsBelow(p, position, s.size);
      CommitSits(p, position, s.size);
      ReleaseAt(p, position, s.size);
    }
  }

  /** Used and available bytes make up the pool exactly when no more was given back than taken. */
  lemma BalancedExactlyWhen(p: Pool, position: int)
    requires Sits(p, position) && p.size - 0x1_0000_0000_0000_0000 < position && 0 < p.size <= MAX_POOL_SIZE
    ensures Balanced(p) <==> position >= 0
  {}

  lemma BalancedAt(p: Pool)
    requires Balanced(p)
    ensures At(p, p.used)
  {}

  /** A transfer that fails after its address was chosen gives back bytes that were never taken: the next
      block starts that much before the end of the used part, over the last blocks or below the pool. */
  lemma FailureGivesBackTooMuch(p: Pool, i: nat, failed: Sync, next: word)
    requires Balanced(p) && Multiple(p.base) && BASE <= p.base < 0x1_0000_0000
    requires failed.outcome == MapFails || failed.outcome == ExecuteFails
    requires Aligned(failed.size) <= p.available
    ensures var q := Transfer(p, i, failed).0;
            var start := Rounded64(Wrap64(p.base + (p.used - Aligned(failed.size))));
            && Address(q, next) == (if q.available < Aligned(next) || start == 0 then None else Some(start))
            && (Balanced(q) <==> Aligned(failed.size) <= p.used)
  {
    AddressRoundsUp(p, failed.size);
    assert Transfer(p, i, failed).0 == Release(p, failed.size);
    BalancedAt(p);
    ReleaseAt(p, p.used, failed.size);
    AddressAt(Release(p, failed.size), p.used - Aligned(failed.size), next);
    BalancedExactlyWhen(Release(p, failed.size), p.used - Aligned(failed.size));
  }

  // ---------------------------------------------------------------- all pools

  ghost predicate Follows(ps: seq<Pool>, at: seq<int>) {
    Shaped(ps) && |at| == 6 && forall p | 0 <= p < 6 :: Sits(ps[p], at[p])
  }

  ghost predicate SamePlaces(ps: seq<Pool>, qs: seq<Pool>) {
    |ps| == |qs| == 6 && forall p | 0 <= p < 6 :: qs[p].base == ps[p].base && ps[p].size <= qs[p].size
  }

  lemma PlaceFollows(ps: seq<Pool>, at: seq<int>, size: word, buffer: word)
    requires Follows(ps, at)
    ensures var pools := Place(ps, size, buffer).0;
            Follows(pools, at) && SamePlaces(ps, pools)
  {
    SelectedFits(ps, size, buffer);
    if !FitsSomewhere(ps, size) {
      OnlyFirstGrows(ps, size, buffer);
      if Growth(ps[0], size).Some? {
        GrowthIsBounded(ps[0], size);
        ExpandedAt(ps[0], at[0], Growth(ps[0], size).value);
      }
    }
  }

  /** Only the last 255 sizes wrap when rounded up, and no pool grows for those. */
  lemma WrappedSizeNeverGrows(p: Pool, size: word)
    requires Aligned(size) < size && p.size <= MAX_POOL_SIZE
    ensures Growth(p, size) == None
  {
    assert size > 0xFFFF_FF00 by { RoundingWraps(size); }
    TripleWraps(size);
  }

  lemma RoundingWraps(size: word)
    ensures Aligned(size) < size ==> size > 0xFFFF_FF00
  {
    if size <= 0xFFFF_FF00 { assert Wrap(size + 255) == size + 255; }
  }

  lemma TripleWraps(size: word)
    requires size > 0xFFFF_FF00
    ensures Wrap(size * 3) / 2 > MAX_POOL_SIZE
  {
    assert Wrap(size * 3) == size * 3 - 0x2_0000_0000;
  }

  lemma PlaceIsRoomy(ps: seq<Pool>, size: word, buffer: word)
    requires Shaped(ps)
    ensures var (pools, i) := Place(ps, size, buffer);
            i.Some? ==> Roomy(pools[i.value], size)
  {
    SelectedFits(ps, size, buffer);
    if !FitsSomewhere(ps, size) {
      OnlyFirstGrows(ps, size, buffer);
      if Aligned(size) < size { WrappedSizeNeverGrows(ps[0], size); }
    }
  }

  lemma FollowsAfter(ps: seq<Pool>, at: seq<int>, i: nat, q: Pool, position: int)
    requires Follows(ps, at) && i < 6 && q.base == ps[i].base && q.size == ps[i].size && Sits(q, position)
    ensures Follows(ps[i := q], at[i := position])
  {}

  // ---------------------------------------------------------------- the transfers so far

  /** Bytes taken minus bytes given back by the transfers on a pool. */
  function Position(log: seq<Entry>, pool: nat): int {
    if log == [] then 0
    else
      var last := log[|log| - 1];
      Position(log[..|log| - 1], pool) + (if last.pool == pool then Signed(last.size, last.kept) else 0)
  }

  ghost predicate Chained(log: seq<Entry>) {
    forall i | 0 <= i < |log| :: log[i].start == Position(log[..i], log[i].pool)
  }

  ghost predicate Counted(log: seq<Entry>, at: seq<int>) {
    |at| == 6 && forall p: nat | p < 6 :: at[p] == Position(log, p)
  }

  predicate Lies(ps: seq<Pool>, e: Entry)
    requires |ps| == 6
  {
    e.pool < 6 && Lands(ps[e.pool], e.start, e.size, e.address)
  }

  ghost predicate AllLie(ps: seq<Pool>, log: seq<Entry>)
    requires |ps| == 6
  {
    forall i | 0 <= i < |log| :: Lies(ps, log[i])
  }

  ghost predicate Sound(w: World) {
    Follows(w.pools, w.at) && Chained(w.log) && Counted(w.log, w.at) && AllLie(w.pools, w.log)
  }

  lemma MorePosition(log: seq<Entry>, e: Entry, p: nat)
    ensures Position(log + [e], p) == Position(log, p) + (if e.pool == p then Signed(e.size, e.kept) else 0)
  {
    assert (log + [e])[..|log|] == log;
  }

  lemma MoreChained(log: seq<Entry>, e: Entry, at: seq<int>)
    requires Chained(log) && Counted(log, at) && e.pool < 6 && e.start == at[e.pool]
    ensures Chained(log + [e]) && Counted(log + [e], at[e.pool := at[e.pool] + Signed(e.size, e.kept)])
  {
    var more := log + [e];
    forall i | 0 <= i < |more| ensures more[i].start == Position(more[..i], more[i].pool) {
      if i < |log| { assert more[..i] == log[..i]; } else { assert more[..i] == log; }
    }
    forall p: nat | p < 6 { MorePosition(log, e, p); }
  }

  lemma StillLands(p: Pool, q: Pool, e: Entry)
    requires q.base == p.base && p.size <= q.size && Lands(p, e.start, e.size, e.address)
    ensures Lands(q, e.start, e.size, e.address)
  {}

  lemma StillLies(ps: seq<Pool>, qs: seq<Pool>, log: seq<Entry>)
    requires SamePlaces(ps, qs) && AllLie(ps, log)
    ensures AllLie(qs, log)
  {
    forall i | 0 <= i < |log| ensures Lies(qs, log[i]) {
      assert Lies(ps, log[i]);
      StillLands(ps[log[i].pool], qs[log[i].pool], log[i]);
    }
  }

  lemma MoveLies(ps: seq<Pool>, log: seq<Entry>, e: Entry)
    requires |ps| == 6 && AllLie(ps, log) && Lies(ps, e)
    ensures AllLie(ps, log + [e])
  {}

  lemma EntrySound(w: World, e: Entry, q: Pool, position: int)
    requires Sound(w) && Lies(w.pools, e) && e.start == w.at[e.pool] && q.base == w.pools[e.pool].base
    requires q.size == w.pools[e.pool].size && Sits(q, position) && position == e.start + Signed(e.size, e.kept)
    ensures Sound(World(w.pools[e.pool := q], w.at[e.pool := position], w.log + [e]))
  {
    FollowsAfter(w.pools, w.at, e.pool, q, position);
    MoreChained(w.log, e, w.at);
    var qs := w.pools[e.pool := q];
    assert AllLie(qs, w.log + [e]) by {
      StillLies(w.pools, qs, w.log);
      MoveLies(qs, w.log, e);
    }
  }

  /** What a transfer on pool i may do to the world. */
  ghost predicate Moves(w: World, i: nat, size: word, q: Pool, answer: Answer)
    requires i < |w.pools| == |w.at|
  {
    if !Chosen(answer) then q == w.pools[i]
    else
      && answer.pool == i
      && var e := Noted(w.at, size, answer);
         Moved(w.pools[i], e.start, e.size, e.address, e.kept, q)
  }

  lemma TransferIsMove(w: World, i: nat, s: Sync)
    requires Sound(w) && i < 6 && Roomy(w.pools[i], s.size)
    ensures Moves(w, i, s.size, Transfer(w.pools[i], i, s).0, Transfer(w.pools[i], i, s).1)
  {
    assert Sits(w.pools[i], w.at[i]);
    TransferMoves(w.pools[i], w.at[i], i, s);
  }

  lemma TransferStaysSound(w: World, i: nat, size: word, q: Pool, answer: Answer)
    requires Sound(w) && i < 6 && Moves(w, i, size, q, answer)
    ensures var after := w.(pools := w.pools[i := q]);
            Sound(if Chosen(answer) then Logged(after, Noted(w.at, size, answer)) else after)
  {
    hide Sits, Lands;
    if Chosen(answer) {
      var e := Noted(w.at, size, answer);
      EntrySound(w, e, q, e.start + Signed(e.size, e.kept));
    } else {
      assert w.pools[i := q] == w.pools;
    }
  }

  lemma PlaceStaysSound(w: World, size: word, buffer: word)
    requires Sound(w)
    ensures Sound(w.(pools := Place(w.pools, size, buffer).0))
  {
    PlaceFollows(w.pools, w.at, size, buffer);
    StillLies(w.pools, Place(w.pools, size, buffer).0, w.log);
  }

  lemma StepStaysSound(w: World, s: Sync)
    requires Sound(w)
    ensures Sound(Do(w, s))
  {
    PlaceStaysSound(w, s.size, s.buffer);
    PlaceIsRoomy(w.pools, s.size, s.buffer);
    var (pools, place) := Place(w.pools, s.size, s.buffer);
    if place.Some? {
      var i := place.value;
      var (q, answer) := Transfer(pools[i], i, s);
      TransferIsMove(w.(pools := pools), i, s);
      TransferStaysSound(w.(pools := pools), i, s.size, q, answer);
    }
  }

  lemma UnusedSits(p: Pool)
    requires p.used == 0 && p.available == p.size
    ensures Sits(p, 0)
  {}

  lemma StartFollows()
    ensures Follows(Initial(), [0, 0, 0, 0, 0, 0])
  {
    forall p | 0 <= p < 6 ensures Sits(Initial()[p], [0, 0, 0, 0, 0, 0][p]) { UnusedSits(Initial()[p]); }
  }

  lemma StartIsSound()
    ensures Sound(World(Initial(), [0, 0, 0, 0, 0, 0], []))
  {
    StartFollows();
  }

  /** Over every run, whatever the sizes and whatever fails: each pool's counters are those of the bytes taken
      minus the bytes given back, in 64 bits; every address chosen is the base plus that difference, rounded up
      to 256, and the difference leaves room in the pool; the pools keep within 1 GB, and all but the first
      within their window. */
  lemma {:induction false} RunIsSound(ss: seq<Sync>)
    ensures Sound(Run(ss)) && |Run(ss).log| <= |ss|
    decreases |ss|
  {
    if ss == [] {
      StartIsSound();
    } else {
      RunIsSound(ss[..|ss| - 1]);
      StepStaysSound(Run(ss[..|ss| - 1]), ss[|ss| - 1]);
    }
  }

  // ---------------------------------------------------------------- the order of taking and giving back

  predicate Held(e: Entry) {
    e.kept && e.size > 0
  }

  predicate Lost(e: Entry) {
    !e.kept && Aligned(e.size) > 0
  }

  ghost predicate Clean(log: seq<Entry>, p: nat) {
    forall i | 0 <= i < |log| && log[i].pool == p :: !Lost(log[i])
  }

  /** No block is kept in a pool after a transfer on it has failed. */
  ghost predicate Undisturbed(log: seq<Entry>) {
    forall i, j | 0 <= i < j < |log| && log[i].pool == log[j].pool && Lost(log[i]) :: !Held(log[j])
  }

  predicate Covers(e: Entry, p: nat, byte: int) {
    e.pool == p && Held(e) && e.start <= byte < e.start + e.size
  }

  ghost predicate Covered(log: seq<Entry>, p: nat, byte: int) {
    exists i :: 0 <= i < |log| && Covers(log[i], p, byte)
  }

  ghost predicate Tiled(log: seq<Entry>, p: nat, position: int) {
    forall byte | 0 <= byte < position :: Covered(log, p, byte)
  }

  ghost predicate Below(log: seq<Entry>, p: nat, position: int) {
    forall i | 0 <= i < |log| && log[i].pool == p && Held(log[i]) ::
      0 <= log[i].start && log[i].start + log[i].size <= position
  }

  lemma PrefixChained(log: seq<Entry>, n: nat)
    requires Chained(log) && n <= |log|
    ensures Chained(log[..n])
  {
    forall i | 0 <= i < n ensures log[..n][i].start == Position(log[..n][..i], log[i].pool) {
      assert log[..n][..i] == log[..i];
    }
  }

  /** While nothing has failed on a pool, its blocks are the bytes below its position, without gap or overlap. */
  lemma {:induction false} Tiling(log: seq<Entry>, p: nat)
    requires Chained(log) && Clean(log, p)
    ensures Position(log, p) >= 0 && Tiled(log, p, Position(log, p)) && Below(log, p, Position(log, p))
    decreases |log|
  {
    if log != [] {
      var n := |log| - 1;
      PrefixChained(log, n);
      Tiling(log[..n], p);
      forall byte | 0 <= byte < Position(log, p) ensures Covered(log, p, byte) {
        if byte < Position(log[..n], p) {
          assert Covered(log[..n], p, byte);
          var i :| 0 <= i < n && Covers(log[..n][i], p, byte);
          assert Covers(log[i], p, byte);
        } else {
          assert Covers(log[n], p, byte);
        }
      }
      forall i | 0 <= i < |log| && log[i].pool == p && Held(log[i])
        ensures 0 <= log[i].start && log[i].start + log[i].size <= Position(log, p)
      {
        if i < n { assert log[..n][i] == log[i]; }
      }
    }
  }

  /** From a failed transfer on, a pool that keeps nothing only sinks. */
  lemma {:induction false} Sinks(log: seq<Entry>, p: nat, m: nat, j: nat)
    requires m < j <= |log| && log[m].pool == p && Lost(log[m])
    requires forall k | m < k < j && log[k].pool == p :: !Held(log[k])
    ensures Position(log[..m], p) - 0xFFFF_FF00 * (j - m) <= Position(log[..j], p) < Position(log[..m], p)
    decreases j
  {
    assert log[..j][..j - 1] == log[..j - 1];
    if j - 1 > m { Sinks(log, p, m, j - 1); }
  }

  /** The first failed transfer of a pool that keeps a block later, and the first such block. */
  lemma FirstDisturbed(log: seq<Entry>) returns (m: nat, j: nat)
    requires !Undisturbed(log)
    ensures m < j < |log| && log[m].pool == log[j].pool && Lost(log[m]) && Held(log[j])
    ensures Clean(log[..m], log[j].pool)
    ensures forall k | m < k < j && log[k].pool == log[j].pool :: !Held(log[k])
  {
    var a, b :| 0 <= a < b < |log| && log[a].pool == log[b].pool && Lost(log[a]) && Held(log[b]);
    var p := log[a].pool;
    m := 0;
    while !(log[m].pool == p && Lost(log[m]))
      invariant m <= a && Clean(log[..m], p)
      decreases a - m
    {
      m := m + 1;
    }
    j := m + 1;
    while !(log[j].pool == p && Held(log[j]))
      invariant m < j <= b
      invariant forall k | m < k < j && log[k].pool == p :: !Held(log[k])
      decreases b - j
    {
      j := j + 1;
    }
  }

  // ---------------------------------------------------------------- disjoint blocks

  predicate Aligned256(ss: seq<Sync>) {
    forall i | 0 <= i < |ss| :: Multiple(ss[i].size)
  }

  ghost predicate Multiples(log: seq<Entry>) {
    forall i | 0 <= i < |log| :: Multiple(log[i].size)
  }

  lemma {:induction false} RunHasMultiples(ss: seq<Sync>)
    requires Aligned256(ss)
    ensures Multiples(Run(ss).log)
    decreases |ss|
  {
    if ss != [] { RunHasMultiples(ss[..|ss| - 1]); }
  }

  lemma MultipleMoves(position: int, size: word, kept: bool)
    requires Multiple(position) && Multiple(size)
    ensures Multiple(position + Signed(size, kept))
  {
    AlignedMultiple(size);
    hide Multiple, Aligned;
    MultipleSum(position, size);
  }

  lemma MultipleSum(x: int, y: int)
    requires Multiple(x) && Multiple(y)
    ensures Multiple(x + y) && Multiple(x - y)
  {
    MultipleOf(x / 256 + y / 256, x + y);
    MultipleOf(x / 256 - y / 256, x - y);
  }

  lemma MultipleOf(k: int, x: int)
    requires x == 256 * k
    ensures Multiple(x)
  {}

  lemma {:induction false} PositionIsMultiple(log: seq<Entry>, p: nat)
    requires Multiples(log)
    ensures Multiple(Position(log, p))
    decreases |log|
  {
    if log != [] {
      var n := |log| - 1;
      PositionIsMultiple(log[..n], p);
      MultipleMoves(Position(log[..n], p), log[n].size, log[n].kept);
    }
  }

  /** A multiple of 256 from minus 2^64 up to 1 GB after a base: its address is exact from the base on,
      and otherwise below the base or far above the pool. */
  lemma AddressOf(base: dword, start: int)
    requires BASE <= base <= BASE + 5 * WINDOW && Multiple(base) && Multiple(start)
    requires -0xFFFF_FF00_0000_0000 <= start <= MAX_POOL_SIZE
    ensures var address := Rounded64(Wrap64(base + start));
            if start >= 0 then address == base + start
            else address < base || address >= base + 0x80_0000_0000
  {
    var x := if base + start >= 0 then base + start else base + start + 0x1_0000_0000_0000_0000;
    assert Wrap64(base + start) == x;
    var a, b := base / 256, start / 256;
    assert base + start == 256 * (a + b);
    RoundedUpStays(x, if base + start >= 0 then a + b else a + b + 0x100_0000_0000_0000);
  }

  lemma RoundedUpStays(x: dword, c: int)
    requires x == 256 * c
    ensures Rounded64(x) == x
  {
    assert x + 255 < 0x1_0000_0000_0000_0000;
    Unwrapped64(x + 255);
    assert (256 * c + 255) / 256 == c;
  }

  ghost predicate Inside(ps: seq<Pool>, e: Entry) {
    e.pool < |ps| && ps[e.pool].base <= e.address && e.address + e.size <= ps[e.pool].base + ps[e.pool].size
  }

  predicate Apart(a: Entry, b: Entry) {
    a.address + a.size <= b.address || b.address + b.size <= a.address
  }

  /** The blocks that are kept lie in their pools, and those of one pool are pairwise disjoint. */
  ghost predicate WellPlaced(ps: seq<Pool>, log: seq<Entry>) {
    && (forall i | 0 <= i < |log| && Held(log[i]) :: Inside(ps, log[i]))
    && (forall i, j | 0 <= i < j < |log| && log[i].pool == log[j].pool && Held(log[i]) && Held(log[j]) ::
          Apart(log[i], log[j]))
  }

  /** What the bytes before an entry say about its address. */
  predicate Placed(base: int, size: int, e: Entry) {
    && e.start + e.size <= size <= MAX_POOL_SIZE
    && if e.start >= 0 then e.address == base + e.start
       else -0xFFFF_FF00_0000_0000 <= e.start ==> e.address < base || e.address >= base + 0x80_0000_0000
  }

  ghost predicate Settled(ps: seq<Pool>, log: seq<Entry>) {
    |ps| == 6 && forall i | 0 <= i < |log| :: log[i].pool < 6 && Placed(ps[log[i].pool].base, ps[log[i].pool].size, log[i])
  }

  lemma LiesPlaced(p: Pool, e: Entry)
    requires p.base == BASE + e.pool * WINDOW && e.pool < 6 && p.size <= MAX_POOL_SIZE && Multiple(e.start)
    requires Lands(p, e.start, e.size, e.address)
    ensures Placed(p.base, p.size, e)
  {
    assert Multiple(p.base);
    hide Rounded64, Wrap64;
    if -0xFFFF_FF00_0000_0000 <= e.start { AddressOf(p.base, e.start); }
  }

  lemma EntrySettled(ps: seq<Pool>, e: Entry)
    requires Shaped(ps) && Lies(ps, e) && Multiple(e.start)
    ensures e.pool < 6 && Placed(ps[e.pool].base, ps[e.pool].size, e)
  {
    LiesPlaced(ps[e.pool], e);
  }

  lemma StartsAreMultiples(log: seq<Entry>)
    requires Chained(log) && Multiples(log)
    ensures forall i | 0 <= i < |log| :: Multiple(log[i].start)
  {
    forall i | 0 <= i < |log| ensures Multiple(log[i].start) { PositionIsMultiple(log[..i], log[i].pool); }
  }

  lemma LiesSettled(ps: seq<Pool>, log: seq<Entry>)
    requires Shaped(ps) && AllLie(ps, log) && forall i | 0 <= i < |log| :: Multiple(log[i].start)
    ensures Settled(ps, log)
  {
    forall i | 0 <= i < |log| ensures log[i].pool < 6 && Placed(ps[log[i].pool].base, ps[log[i].pool].size, log[i]) {
      EntrySettled(ps, log[i]);
    }
  }

  lemma SoundIsSettled(w: World)
    requires Sound(w) && Multiples(w.log)
    ensures Settled(w.pools, w.log)
  {
    StartsAreMultiples(w.log);
    LiesSettled(w.pools, w.log);
  }

  lemma CleanBefore(log: seq<Entry>, j: nat)
    requires Undisturbed(log) && j < |log| && Held(log[j])
    ensures Clean(log[..j], log[j].pool)
  {}

  /** Blocks kept before anything fails on their pool are disjoint, in runs of any length. */
  lemma UndisturbedIsWellPlaced(ps: seq<Pool>, log: seq<Entry>)
    requires Settled(ps, log) && Chained(log) && Undisturbed(log)
    ensures WellPlaced(ps, log)
  {
    forall j | 0 <= j < |log| && Held(log[j])
      ensures Inside(ps, log[j])
      ensures forall i | 0 <= i < j && log[i].pool == log[j].pool && Held(log[i]) :: Apart(log[i], log[j])
    {
      CleanBefore(log, j);
      PrefixChained(log, j);
      Tiling(log[..j], log[j].pool);
      forall i | 0 <= i < j && log[i].pool == log[j].pool && Held(log[i]) ensures Apart(log[i], log[j]) {
        assert log[..j][i] == log[i];
      }
    }
  }

  /** A block kept after a failed transfer lies over an earlier block or outside its pool. */
  lemma DisturbedIsMisplaced(ps: seq<Pool>, log: seq<Entry>)
    requires Settled(ps, log) && Chained(log) && !Undisturbed(log) && |log| <= 0x1_0000_0000
    ensures !WellPlaced(ps, log)
  {
    var m, j := FirstDisturbed(log);
    var p := log[j].pool;
    PrefixChained(log, m);
    Tiling(log[..m], p);
    Sinks(log, p, m, j);
    if 0 <= log[j].start {
      assert Covered(log[..m], p, log[j].start);
      var i :| 0 <= i < m && Covers(log[..m][i], p, log[j].start);
      assert log[..m][i] == log[i];
      assert !Apart(log[i], log[j]);
    } else {
      assert !Inside(ps, log[j]);
    }
  }

  /** Over every run of up to 2^32 transfers of multiples of 256 bytes, whatever fails: the blocks kept lie in
      their pools and are disjoint exactly when no pool keeps a block after a transfer on it has failed. */
  lemma BlocksAreDisjointExactlyWhen(ss: seq<Sync>)
    requires Aligned256(ss) && |ss| <= 0x1_0000_0000
    ensures Sound(Run(ss))
    ensures WellPlaced(Run(ss).pools, Run(ss).log) <==> Undisturbed(Run(ss).log)
  {
    hide Run;
    RunIsSound(ss);
    RunHasMultiples(ss);
    SoundIsSettled(Run(ss));
    if Undisturbed(Run(ss).log) {
      UndisturbedIsWellPlaced(Run(ss).pools, Run(ss).log);
    } else {
      DisturbedIsMisplaced(Run(ss).pools, Run(ss).log);
    }
  }

  lemma OnlySuccessSyncs(ps: seq<Pool>, s: Sync)
    requires ps != [] && Sized(ps)
    ensures var answer := Synchronize(ps, s).1;
            Chosen(answer) ==> s.outcome != NoDescriptor && (answer.Synced? <==> s.outcome == Succeeds)
  {}

  lemma {:induction false} NothingFails(ss: seq<Sync>)
    requires forall i | 0 <= i < |ss| :: ss[i].outcome == Succeeds || ss[i].outcome == NoDescriptor
    ensures forall i | 0 <= i < |Run(ss).log| :: Run(ss).log[i].kept
    decreases |ss|
  {
    if ss != [] {
      NothingFails(ss[..|ss| - 1]);
      OnlySuccessSyncs(Run(ss[..|ss| - 1]).pools, ss[|ss| - 1]);
    }
  }

  // ---------------------------------------------------------------- disjoint across pools

  /** The bytes of the blocks a pool keeps. */
  function Taken(log: seq<Entry>, p: nat): nat {
    if log == [] then 0
    else
      var last := log[|log| - 1];
      Taken(log[..|log| - 1], p) + if last.pool == p && Held(last) then last.size else 0
  }

  lemma {:induction false} CleanTakes(log: seq<Entry>, p: nat)
    requires Clean(log, p)
    ensures Taken(log, p) == Position(log, p)
    decreases |log|
  {
    if log != [] {
      var n := |log| - 1;
      assert forall i | 0 <= i < n :: log[..n][i] == log[i];
      CleanTakes(log[..n], p);
    }
  }

  lemma UndisturbedPrefix(log: seq<Entry>, n: nat)
    requires Undisturbed(log) && n <= |log|
    ensures Undisturbed(log[..n])
  {
    forall i, j | 0 <= i < j < n && log[..n][i].pool == log[..n][j].pool && Lost(log[..n][i])
      ensures !Held(log[..n][j])
    {
      assert log[..n][i] == log[i] && log[..n][j] == log[j];
    }
  }

  /** While no block is kept after a failure, the blocks of a pool are its first bytes. */
  lemma {:induction false} TakenIsTiled(log: seq<Entry>, p: nat)
    requires Chained(log) && Undisturbed(log)
    ensures Tiled(log, p, Taken(log, p)) && Below(log, p, Taken(log, p))
    decreases |log|
  {
    if log != [] {
      var n := |log| - 1;
      PrefixChained(log, n);
      if log[n].pool == p && Held(log[n]) {
        CleanBefore(log, n);
        assert forall i | 0 <= i < n :: log[..n][i] == log[i];
        Tiling(log, p);
        CleanTakes(log, p);
      } else {
        UndisturbedPrefix(log, n);
        TakenIsTiled(log[..n], p);
        SameBlocks(log, p, Taken(log, p));
      }
    }
  }

  lemma SameBlocks(log: seq<Entry>, p: nat, position: int)
    requires log != [] && !(log[|log| - 1].pool == p && Held(log[|log| - 1]))
    requires Tiled(log[..|log| - 1], p, position) && Below(log[..|log| - 1], p, position)
    ensures Tiled(log, p, position) && Below(log, p, position)
  {
    var rest := log[..|log| - 1];
    forall byte | 0 <= byte < position ensures Covered(log, p, byte) {
      assert Covered(rest, p, byte);
      var i :| 0 <= i < |rest| && Covers(rest[i], p, byte);
      assert Covers(log[i], p, byte);
    }
    forall i | 0 <= i < |log| && log[i].pool == p && Held(log[i])
      ensures 0 <= log[i].start && log[i].start + log[i].size <= position
    {
      assert rest[i] == log[i];
    }
  }

  /** The first pool has not grown over the start of another that keeps a block. */
  predicate FirstStaysBelow(log: seq<Entry>) {
    forall p | 1 <= p < 6 :: Taken(log, p) == 0 || Taken(log, 0) <= p * WINDOW
  }

  /** Blocks lie in their pools, and no two of them, in whichever pools, share a byte. */
  ghost predicate AllApart(ps: seq<Pool>, log: seq<Entry>) {
    WellPlaced(ps, log)
    && forall i, j | 0 <= i < |log| && 0 <= j < |log| && log[i].pool < log[j].pool && Held(log[i]) && Held(log[j]) ::
         Apart(log[i], log[j])
  }

  lemma BelowIsApart(ps: seq<Pool>, log: seq<Entry>, i: nat, j: nat)
    requires Shaped(ps) && Settled(ps, log) && Chained(log) && Undisturbed(log) && FirstStaysBelow(log)
    requires i < |log| && j < |log| && log[i].pool < log[j].pool && Held(log[i]) && Held(log[j])
    ensures Apart(log[i], log[j])
  {
    var a, b := log[i].pool, log[j].pool;
    TakenIsTiled(log, a);
    TakenIsTiled(log, b);
    assert log[i].address == ps[a].base + log[i].start && log[j].address == ps[b].base + log[j].start;
    assert ps[b].base == BASE + b * WINDOW && ps[a].base == BASE + a * WINDOW;
    if a == 0 { assert Taken(log, 0) <= b * WINDOW; } else { assert ps[a].size <= WINDOW; }
  }

  lemma GrownIsNotApart(ps: seq<Pool>, log: seq<Entry>, p: nat)
    requires Shaped(ps) && Settled(ps, log) && Chained(log) && Undisturbed(log)
    requires 1 <= p < 6 && Taken(log, p) > 0 && Taken(log, 0) > p * WINDOW
    ensures !AllApart(ps, log)
  {
    TakenIsTiled(log, 0);
    TakenIsTiled(log, p);
    assert Covered(log, 0, p * WINDOW) && Covered(log, p, 0);
    var i :| 0 <= i < |log| && Covers(log[i], 0, p * WINDOW);
    var j :| 0 <= j < |log| && Covers(log[j], p, 0);
    assert log[i].address == BASE + log[i].start && log[j].address == BASE + p * WINDOW + log[j].start;
    assert !Apart(log[i], log[j]);
  }

  /** Over the same runs, no two blocks of any pools share a byte exactly when also the first pool keeps no
      byte at or above the start of another that keeps a block. */
  lemma AllBlocksAreDisjointExactlyWhen(ss: seq<Sync>)
    requires Aligned256(ss) && |ss| <= 0x1_0000_0000
    ensures Sound(Run(ss))
    ensures var log := Run(ss).log; AllApart(Run(ss).pools, log) <==> Undisturbed(log) && FirstStaysBelow(log)
  {
    hide Run;
    BlocksAreDisjointExactlyWhen(ss);
    RunHasMultiples(ss);
    SoundIsSettled(Run(ss));
    ApartExactlyWhen(Run(ss).pools, Run(ss).log);
  }

  lemma ApartExactlyWhen(ps: seq<Pool>, log: seq<Entry>)
    requires Shaped(ps) && Settled(ps, log) && Chained(log) && (WellPlaced(ps, log) <==> Undisturbed(log))
    ensures AllApart(ps, log) <==> Undisturbed(log) && FirstStaysBelow(log)
  {
    if Undisturbed(log) {
      if FirstStaysBelow(log) {
        forall i, j | 0 <= i < |log| && 0 <= j < |log| && log[i].pool < log[j].pool && Held(log[i]) && Held(log[j])
          ensures Apart(log[i], log[j])
        {
          BelowIsApart(ps, log, i, j);
        }
      } else {
        var p :| 1 <= p < 6 && Taken(log, p) > 0 && Taken(log, 0) > p * WINDOW;
        GrownIsNotApart(ps, log, p);
      }
    }
  }

  // ---------------------------------------------------------------- balanced pools

  lemma {:induction false} PositionIsBounded(log: seq<Entry>, p: nat)
    ensures Position(log, p) >= -0xFFFF_FF00 * |log|
    decreases |log|
  {
    if log != [] { PositionIsBounded(log[..|log| - 1], p); }
  }

  lemma SoundIsBalancedExactly(w: World, p: nat)
    requires Sound(w) && |w.log| <= 0x1_0000_0000 && p < 6
    ensures Balanced(w.pools[p]) <==> w.at[p] >= 0
  {
    PositionIsBounded(w.log, p);
    assert Sits(w.pools[p], w.at[p]);
    BalancedExactlyWhen(w.pools[p], w.at[p]);
  }

  /** Over every run of up to 2^32 transfers, whatever the sizes and whatever fails, the used and available bytes
      of a pool make up its size exactly when no more was given back than taken. */
  lemma BalancedOverRuns(ss: seq<Sync>, p: nat)
    requires |ss| <= 0x1_0000_0000 && p < 6
    ensures Balanced(Run(ss).pools[p]) <==> Run(ss).at[p] >= 0
  {
    hide Run;
    RunIsSound(ss);
    SoundIsBalancedExactly(Run(ss), p);
  }

  lemma {:induction false} OnlyGains(log: seq<Entry>, p: nat)
    requires forall i | 0 <= i < |log| :: log[i].kept
    ensures Position(log, p) >= 0
    decreases |log|
  {
    if log != [] { OnlyGains(log[..|log| - 1], p); }
  }

  /** The used bytes are those taken less those given back, in whole numbers. */
  ghost predicate Exact(ps: seq<Pool>, at: seq<int>) {
    |ps| == |at| && forall p | 0 <= p < |ps| :: ps[p].used == at[p]
  }

  lemma KeptIsGood(w: World)
    requires Sound(w) && forall i | 0 <= i < |w.log| :: w.log[i].kept
    ensures Good(w.pools) && Exact(w.pools, w.at)
  {
    forall p: nat | p < 6 ensures Balanced(w.pools[p]) && w.pools[p].used == w.at[p] {
      OnlyGains(w.log, p);
      assert Sits(w.pools[p], w.at[p]);
      BalancedExactlyWhen(w.pools[p], w.at[p]);
      Unwrapped64(w.at[p]);
    }
  }

  /** Runs of any length in which nothing fails once placed keep every pool balanced; so over every such run the
      used parts of the pools overlap exactly when the first has grown over the start of a used one. */
  lemma RunsOverlapExactlyWhen(ss: seq<Sync>)
    requires forall i | 0 <= i < |ss| :: ss[i].outcome == Succeeds || ss[i].outcome == NoDescriptor
    ensures Good(Run(ss).pools) && Exact(Run(ss).pools, Run(ss).at)
    ensures AllExtentsDisjoint(Run(ss).pools) <==> FirstEndsBelow(Run(ss).pools)
  {
    hide Run;
    RunIsSound(ss);
    NothingFails(ss);
    KeptIsGood(Run(ss));
    PoolsOverlapExactlyWhen(Run(ss).pools);
  }

  // ---------------------------------------------------------------- runs without failures

  lemma KeptIsWellPlaced(w: World)
    requires Sound(w) && Multiples(w.log) && forall i | 0 <= i < |w.log| :: w.log[i].kept
    ensures WellPlaced(w.pools, w.log)
  {
    SoundIsSettled(w);
    UndisturbedIsWellPlaced(w.pools, w.log);
  }

  /** So runs of any length in which nothing fails after its address was chosen keep their blocks disjoint. */
  lemma BlocksAreDisjoint(ss: seq<Sync>)
    requires Aligned256(ss)
    requires forall i | 0 <= i < |ss| :: ss[i].outcome == Succeeds || ss[i].outcome == NoDescriptor
    ensures WellPlaced(Run(ss).pools, Run(ss).log)
  {
    hide Run;
    RunIsSound(ss);
    RunHasMultiples(ss);
    NothingFails(ss);
    KeptIsWellPlaced(Run(ss));
  }

  // ---------------------------------------------------------------- null commands

  lemma {:induction false} OnlyLosses(log: seq<Entry>, p: nat)
    requires forall i | 0 <= i < |log| :: !log[i].kept
    ensures Position(log, p) <= 0 && (Position(log, p) == 0 <==> Clean(log, p))
    decreases |log|
  {
    if log != [] {
      var n := |log| - 1;
      OnlyLosses(log[..n], p);
      assert forall i | 0 <= i < n :: log[..n][i] == log[i];
    }
  }

  lemma {:induction false} NothingKept(ss: seq<Sync>)
    requires forall i | 0 <= i < |ss| :: ss[i].outcome != Succeeds
    ensures forall i | 0 <= i < |Run(ss).log| :: !Run(ss).log[i].kept
    decreases |ss|
  {
    if ss != [] {
      NothingKept(ss[..|ss| - 1]);
      OnlySuccessSyncs(Run(ss[..|ss| - 1]).pools, ss[|ss| - 1]);
    }
  }

  /** The device refuses every null command, and the bridge sends no other: then no block is ever kept, and a
      pool keeps its position exactly while no transfer on it got as far as an address. */
  lemma NullCommandsNeverSync(ss: seq<Sync>)
    requires forall i | 0 <= i < |ss| :: ss[i].outcome != Succeeds
    ensures forall i | 0 <= i < |Run(ss).log| :: !Run(ss).log[i].kept
    ensures Sound(Run(ss))
    ensures forall p: nat | p < 6 ::
              Run(ss).at[p] <= 0 && (Run(ss).at[p] == 0 <==> Clean(Run(ss).log, p))
  {
    hide Run;
    NothingKept(ss);
    RunIsSound(ss);
    forall p: nat | p < 6
      ensures Run(ss).at[p] <= 0 && (Run(ss).at[p] == 0 <==> Clean(Run(ss).log, p))
    {
      OnlyLosses(Run(ss).log, p);
    }
  }
}
