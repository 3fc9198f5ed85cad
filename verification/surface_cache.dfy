/** The 64-entry lookup cache in front of the surface dictionary
    (FB/VMIOSurfaceManager_Helpers.cpp:36-391). */
module SurfaceCache {
  import opened Words

  const CACHE_SIZE := 64
  const MAX_SURFACE_ID := 0x7FFF_FFFF

  /** A null object never matches; unused slots hold none. */
  datatype Entry<T> = Entry(
    id: word,
    surface: Option<T>,
    lastAccess: nat,
    accessCount: word,
    prefetched: bool,
    highPriority: bool)

  /** The entries in use, and the access pattern that decides about prefetching. */
  datatype Cache<T> = Cache(entries: seq<Entry<T>>, lastId: word, sequential: word, random: word)

  /** What the plain dictionary answers for an id in range. */
  function Lookup<T>(m: map<word, T>, id: word): Option<T> {
    if 0 < id <= MAX_SURFACE_ID && id in m then Some(m[id]) else None
  }

  function Matches<T>(e: Entry<T>, id: word): bool {
    e.id == id && e.surface.Some?
  }

  /** The first entry holding the id, or the number of entries. */
  function Position<T>(entries: seq<Entry<T>>, id: word): (i: nat)
    ensures i <= |entries|
    ensures i < |entries| ==> Matches(entries[i], id)
    ensures forall j | 0 <= j < i :: !Matches(entries[j], id)
  {
    if entries == [] then 0
    else
      var i := Position(entries[..|entries| - 1], id);
      if i < |entries| - 1 || Matches(entries[|entries| - 1], id) then i else |entries|
  }

  /** The first entry with the oldest access. */
  function Oldest<T>(entries: seq<Entry<T>>): (i: nat)
    requires entries != []
    ensures i < |entries|
    ensures forall j | 0 <= j < |entries| :: entries[i].lastAccess <= entries[j].lastAccess
    ensures forall j | 0 <= j < i :: entries[i].lastAccess < entries[j].lastAccess
  {
    if |entries| == 1 then 0
    else
      var i := Oldest(entries[..|entries| - 1]);
      if entries[|entries| - 1].lastAccess < entries[i].lastAccess then |entries| - 1 else i
  }

  function CountAccess<T>(c: Cache<T>, id: word): Cache<T> {
    if c.lastId == Wrap(id - 1) then c.(sequential := Wrap(c.sequential + 1), lastId := id)
    else c.(random := Wrap(c.random + 1), lastId := id)
  }

  /** On a strongly sequential pattern the next surface is cached as well, while there is room. */
  function Prefetch<T>(c: Cache<T>, m: map<word, T>, id: word, now: nat): Cache<T>
    requires id <= MAX_SURFACE_ID
  {
    if c.sequential > Wrap(c.random * 2) && id + 1 in m && |c.entries| < CACHE_SIZE
    then c.(entries := c.entries + [Entry(id + 1, Some(m[id + 1]), now, 0, true, false)])
    else c
  }

  function Store<T>(c: Cache<T>, e: Entry<T>): Cache<T> {
    if |c.entries| < CACHE_SIZE then c.(entries := c.entries + [e])
    else c.(entries := c.entries[Oldest(c.entries) := e])
  }

  /** findSurface. */
  function Find<T>(c: Cache<T>, m: map<word, T>, id: word, now: nat): (Cache<T>, Option<T>) {
    if id == 0 || id > MAX_SURFACE_ID then (c, None)
    else
      var i := Position(c.entries, id);
      if i < |c.entries| then
        var hit := c.entries[i].(lastAccess := now, accessCount := Wrap(c.entries[i].accessCount + 1));
        (CountAccess(c.(entries := c.entries[i := hit]), id), c.entries[i].surface)
      else
        var c1 := Prefetch(c, m, id, now);
        if id !in m then (c1.(lastId := id), None)
        else (CountAccess(Store(c1, Entry(id, Some(m[id]), now, 1, false, false)), id), Some(m[id]))
  }

  /** prewarmDiscoveryCache. */
  function Prewarm<T>(c: Cache<T>, m: map<word, T>, ids: seq<word>): Cache<T>
    decreases |ids|
  {
    if ids == [] then c
    else
      var c1, id := Prewarm(c, m, ids[..|ids| - 1]), ids[|ids| - 1];
      if |c1.entries| < CACHE_SIZE && id != 0 && id in m
      then c1.(entries := c1.entries + [Entry(id, Some(m[id]), 0, 0, true, true)])
      else c1
  }

  /** flushDiscoveryCache. */
  function Flushed<T>(c: Cache<T>): Cache<T> {
    c.(entries := [], lastId := 0)
  }

  // ---------------------------------------------------------------- in place

  ghost predicate Descending<T>(entries: seq<Entry<T>>) {
    forall i, j | 0 <= i < j < |entries| :: entries[i].accessCount >= entries[j].accessCount
  }

  function Promote<T>(entries: seq<Entry<T>>, n: nat): (r: seq<Entry<T>>)
    ensures |r| == |entries|
  {
    seq(|entries|, i requires 0 <= i < |entries| =>
      if i < n then entries[i].(highPriority := true) else entries[i])
  }

  /** The entries used so often, in their order. */
  ghost function ByCount<T>(entries: seq<Entry<T>>, n: word): seq<Entry<T>> {
    if entries == [] then []
    else
      var last := entries[|entries| - 1];
      ByCount(entries[..|entries| - 1], n) + if last.accessCount == n then [last] else []
  }

  /** Entries used equally often stand in the same order. */
  ghost predicate SameByCount<T>(a: seq<Entry<T>>, b: seq<Entry<T>>) {
    forall n: word :: ByCount(a, n) == ByCount(b, n)
  }

  /** A permutation in descending order of use that keeps the order of equals. */
  ghost predicate StablySorted<T>(before: seq<Entry<T>>, sorted: seq<Entry<T>>) {
    multiset(sorted) == multiset(before) && Descending(sorted) && SameByCount(before, sorted)
  }

  /** The result of optimizeDiscoveryCache: stably sorted, its top quarter promoted. */
  ghost predicate Optimized<T>(before: seq<Entry<T>>, sorted: seq<Entry<T>>, after: seq<Entry<T>>) {
    StablySorted(before, sorted) && after == Promote(sorted, |before| / 4)
  }

  class DiscoveryCache<T(==)> {
    var slots: array<Entry<T>>
    var size: nat
    var lastId: word
    var sequential: word
    var random: word

    ghost predicate Valid()
      reads this
    {
      slots.Length == CACHE_SIZE && size <= CACHE_SIZE
    }

    ghost function Value(): Cache<T>
      requires Valid()
      reads this, slots
    {
      Cache(slots[..size], lastId, sequential, random)
    }

    constructor ()
      ensures Valid() && fresh(slots) && Value() == Cache([], 0, 0, 0)
    {
      slots := new Entry<T>[CACHE_SIZE](i => Entry(0, None, 0, 0, false, false));
      size, lastId, sequential, random := 0, 0, 0, 0;
    }

    method RecordAccess(id: word)
      requires Valid()
      modifies this`lastId, this`sequential, this`random
      ensures Valid() && Value() == CountAccess(old(Value()), id)
    {
      if lastId == Wrap(id - 1) { sequential := Wrap(sequential + 1); } else { random := Wrap(random + 1); }
      lastId := id;
    }

    method Search(id: word) returns (i: nat)
      requires Valid()
      ensures i == Position(slots[..size], id)
    {
      i := 0;
      while i < size && !(slots[i].id == id && slots[i].surface.Some?)
        invariant 0 <= i <= size
        invariant forall j | 0 <= j < i :: !Matches(slots[j], id)
      {
        i := i + 1;
      }
    }

    method LeastRecent() returns (lru: nat)
      requires Valid() && size == CACHE_SIZE
      ensures lru == Oldest(slots[..size])
    {
      lru := 0;
      var oldest := slots[0].lastAccess;
      var i := 1;
      while i < size
        invariant 1 <= i <= size && lru < i && oldest == slots[lru].lastAccess
        invariant forall j | 0 <= j < i :: oldest <= slots[j].lastAccess
        invariant forall j | 0 <= j < lru :: oldest < slots[j].lastAccess
      {
        if slots[i].lastAccess < oldest { oldest, lru := slots[i].lastAccess, i; }
        i := i + 1;
      }
      assert forall j | 0 <= j < size :: slots[..size][j] == slots[j];
    }

    method Append(e: Entry<T>)
      requires Valid() && size < CACHE_SIZE
      modifies this`size, slots
      ensures Valid() && Value() == old(Value()).(entries := old(Value()).entries + [e])
    {
      slots[size] := e;
      size := size + 1;
    }

    method FindSurface(m: map<word, T>, id: word, now: nat) returns (surface: Option<T>)
      requires Valid()
      modifies this`size, this`lastId, this`sequential, this`random, slots
      ensures Valid() && (Value(), surface) == Find(old(Value()), m, id, now)
    {
      if id == 0 || id > MAX_SURFACE_ID { return None; }
      ghost var before := Value();
      var i := Search(id);
      if i < size {
        slots[i] := slots[i].(lastAccess := now, accessCount := Wrap(slots[i].accessCount + 1));
        assert slots[..size] == before.entries[i := slots[i]];
        RecordAccess(id);
        return slots[i].surface;
      }
      PrefetchNext(m, id, now);
      if id !in m {
        lastId := id;
        return None;
      }
      Replace(Entry(id, Some(m[id]), now, 1, false, false));
      RecordAccess(id);
      surface := Some(m[id]);
    }

    method PrefetchNext(m: map<word, T>, id: word, now: nat)
      requires Valid() && id <= MAX_SURFACE_ID
      modifies this`size, slots
      ensures Valid() && Value() == Prefetch(old(Value()), m, id, now)
    {
      if sequential > Wrap(random * 2) {
        if id + 1 in m && size < CACHE_SIZE { Append(Entry(id + 1, Some(m[id + 1]), now, 0, true, false)); }
      }
    }

    method Replace(e: Entry<T>)
      requires Valid()
      modifies this`size, slots
      ensures Valid() && Value() == Store(old(Value()), e)
    {
      if size < CACHE_SIZE {
        Append(e);
      } else {
        var lru := LeastRecent();
        slots[lru] := e;
        assert slots[..size] == old(slots[..size])[lru := e];
      }
    }

    method FlushDiscoveryCache()
      requires Valid()
      modifies this`size, this`lastId, slots
      ensures Valid() && Value() == Flushed(old(Value()))
    {
      var i := 0;
      while i < size
        invariant 0 <= i <= size && Valid()
      {
        slots[i] := Entry(0, None, 0, 0, false, false);
        i := i + 1;
      }
      size, lastId := 0, 0;
    }

    method PrewarmDiscoveryCache(m: map<word, T>, ids: seq<word>)
      requires Valid()
      modifies this`size, slots
      ensures Valid() && Value() == Prewarm(old(Value()), m, ids)
    {
      var i := 0;
      while i < |ids| && size < CACHE_SIZE
        invariant 0 <= i <= |ids| && Valid()
        invariant Value() == Prewarm(old(Value()), m, ids[..i])
      {
        assert ids[..i + 1][..i] == ids[..i];
        if ids[i] != 0 && ids[i] in m { Append(Entry(ids[i], Some(m[ids[i]]), 0, 0, true, true)); }
        i := i + 1;
      }
      FullIgnoresRest(old(Value()), m, ids, i);
    }

    method OptimizeDiscoveryCache() returns (ghost sorted: seq<Entry<T>>)
      requires Valid()
      modifies slots
      ensures Valid() && Optimized(old(slots[..size]), sorted, slots[..size])
    {
      if size == 0 { return []; }
      BubbleSort();
      sorted := slots[..size];
      var i := 0;
      while i < size / 4
        invariant 0 <= i <= size / 4
        invariant slots[..size] == Promote(sorted, i)
      {
        slots[i] := slots[i].(highPriority := true);
        i := i + 1;
      }
    }

    method BubbleSort()
      requires Valid() && size > 0
      modifies slots
      ensures StablySorted(old(slots[..size]), slots[..size])
    {
      var i := 0;
      while i < size - 1
        invariant 0 <= i <= size - 1
        invariant Permuted(old(slots[..size]), slots[..size])
        invariant Settled(slots[..size], size - i)
      {
        BubblePass(size - i);
        i := i + 1;
      }
    }

    /** One pass moves a least used entry of the first n to the end of them. */
    method BubblePass(n: nat)
      requires Valid() && 1 < n <= size && Settled(slots[..size], n)
      modifies slots
      ensures Permuted(old(slots[..size]), slots[..size]) && Settled(slots[..size], n - 1)
    {
      hide Permuted, Settled, NoneLess, Swapped;
      NotPermuted(slots[..size]);
      FirstIsLeast(slots[..size]);
      var j := 0;
      while j < n - 1
        invariant 0 <= j <= n - 1
        invariant Permuted(old(slots[..size]), slots[..size])
        invariant Settled(slots[..size], n)
        invariant NoneLess(slots[..size], j)
      {
        ghost var before := slots[..size];
        if slots[j].accessCount < slots[j + 1].accessCount {
          SwapWithNext(j, n);
          PermutedTwice(old(slots[..size]), before, slots[..size]);
        }
        NextIsLeast(before, slots[..size], j);
        j := j + 1;
      }
      LastIsSettled(slots[..size], n);
    }

    method SwapWithNext(j: nat, ghost n: nat)
      requires Valid() && j + 1 < n <= size && Settled(slots[..size], n)
      requires slots[j].accessCount < slots[j + 1].accessCount
      modifies slots
      ensures slots[..size] == Swapped(old(slots[..size]), j)
      ensures Permuted(old(slots[..size]), slots[..size]) && Settled(slots[..size], n)
    {
      SwapPermutes(slots[..size], j);
      SwapKeepsSettled(slots[..size], j, n);
      slots[j], slots[j + 1] := slots[j + 1], slots[j];
      assert slots[..size] == Swapped(old(slots[..size]), j);
    }
  }

  /** From position n on, every entry is in place: nothing before it is used less. */
  ghost predicate Settled<T>(entries: seq<Entry<T>>, n: nat) {
    forall i, j | 0 <= i < j < |entries| && n <= j :: entries[i].accessCount >= entries[j].accessCount
  }

  /** No entry before position j is used less than the one there. */
  ghost predicate NoneLess<T>(entries: seq<Entry<T>>, j: nat)
    requires j < |entries|
  {
    forall k | 0 <= k < j :: entries[k].accessCount >= entries[j].accessCount
  }

  lemma FirstIsLeast<T>(entries: seq<Entry<T>>)
    requires entries != []
    ensures NoneLess(entries, 0)
  {}

  lemma NextIsLeast<T>(before: seq<Entry<T>>, after: seq<Entry<T>>, j: nat)
    requires j + 1 < |before| && NoneLess(before, j)
    requires after == if before[j].accessCount < before[j + 1].accessCount then Swapped(before, j) else before
    ensures NoneLess(after, j + 1)
  {
    forall k | 0 <= k < j ensures after[k].accessCount >= after[j + 1].accessCount { assert after[k] == before[k]; }
  }

  lemma LastIsSettled<T>(entries: seq<Entry<T>>, n: nat)
    requires 1 < n <= |entries| && Settled(entries, n) && NoneLess(entries, n - 1)
    ensures Settled(entries, n - 1)
  {}

  ghost function Swapped<T>(s: seq<Entry<T>>, j: nat): seq<Entry<T>>
    requires j + 1 < |s|
  {
    s[j := s[j + 1]][j + 1 := s[j]]
  }

  ghost predicate Permuted<T>(before: seq<Entry<T>>, after: seq<Entry<T>>) {
    multiset(after) == multiset(before) && SameByCount(before, after)
  }

  lemma NotPermuted<T>(a: seq<Entry<T>>)
    ensures Permuted(a, a)
  {}

  lemma PermutedTwice<T>(a: seq<Entry<T>>, b: seq<Entry<T>>, c: seq<Entry<T>>)
    requires Permuted(a, b) && Permuted(b, c)
    ensures Permuted(a, c)
  {
    forall n: word ensures ByCount(a, n) == ByCount(c, n) { assert ByCount(a, n) == ByCount(b, n); }
  }

  /** Neighbours used differently often may change places. */
  lemma SwapPermutes<T>(s: seq<Entry<T>>, j: nat)
    requires j + 1 < |s| && s[j].accessCount != s[j + 1].accessCount
    ensures Permuted(s, Swapped(s, j))
  {
    forall n: word ensures ByCount(s, n) == ByCount(Swapped(s, j), n) { SwapKeepsOrder(s, j, n); }
  }

  lemma {:induction false} SwapKeepsOrder<T>(s: seq<Entry<T>>, j: nat, n: word)
    requires j + 1 < |s| && s[j].accessCount != s[j + 1].accessCount
    ensures ByCount(s, n) == ByCount(Swapped(s, j), n)
    decreases |s|
  {
    var last, after := |s| - 1, Swapped(s, j);
    if j + 1 < last {
      SwapKeepsOrder(s[..last], j, n);
      assert after[..last] == Swapped(s[..last], j);
    } else {
      assert after[..last][..j] == s[..last][..j];
    }
  }

  lemma SwapKeepsSettled<T>(s: seq<Entry<T>>, j: nat, n: nat)
    requires j + 1 < n <= |s| && Settled(s, n)
    ensures Settled(Swapped(s, j), n)
  {}

  lemma {:induction false} FullIgnoresRest<T>(c: Cache<T>, m: map<word, T>, ids: seq<word>, i: nat)
    requires i <= |ids|
    requires i < |ids| ==> |Prewarm(c, m, ids[..i]).entries| >= CACHE_SIZE
    ensures Prewarm(c, m, ids) == Prewarm(c, m, ids[..i])
    decreases |ids|
  {
    if i == |ids| {
      assert ids[..i] == ids;
    } else {
      assert ids[..|ids| - 1][..i] == ids[..i];
      FullIgnoresRest(c, m, ids[..|ids| - 1], i);
    }
  }
}
