/** The cached lookup against the plain dictionary, on whole runs. */
module SurfaceCacheRuns {
  import opened Words
  import opened SurfaceCache

  /** Whatever is cached under the id is the surface the dictionary holds. */
  ghost predicate RightAt<T>(c: Cache<T>, m: map<word, T>, id: word) {
    forall i | 0 <= i < |c.entries| && c.entries[i].id == id :: id in m && c.entries[i].surface == Some(m[id])
  }

  /** Looking one id up leaves every id right that was, and answers a right id as the dictionary does. */
  lemma FindKeepsRight<T>(c: Cache<T>, m: map<word, T>, id: word, now: nat)
    ensures var (c', found) := Find(c, m, id, now);
            && (RightAt(c, m, id) ==> found == Lookup(m, id))
            && (forall x: word | RightAt(c, m, x) :: RightAt(c', m, x))
            && (|c.entries| <= CACHE_SIZE ==> |c'.entries| <= CACHE_SIZE)
  {
    if 0 < id <= MAX_SURFACE_ID {
      if Position(c.entries, id) < |c.entries| { HitKeepsRight(c, m, id, now); } else { MissKeepsRight(c, m, id, now); }
    }
  }

  lemma HitKeepsRight<T>(c: Cache<T>, m: map<word, T>, id: word, now: nat)
    requires 0 < id <= MAX_SURFACE_ID && Position(c.entries, id) < |c.entries|
    ensures var (c', found) := Find(c, m, id, now);
            && |c'.entries| == |c.entries| && (RightAt(c, m, id) ==> found == Lookup(m, id))
            && forall x: word | RightAt(c, m, x) :: RightAt(c', m, x)
  {
    var i := Position(c.entries, id);
    assert Find(c, m, id, now).1 == c.entries[i].surface;
    forall x: word | RightAt(c, m, x) ensures RightAt(Find(c, m, id, now).0, m, x) {}
  }

  lemma MissKeepsRight<T>(c: Cache<T>, m: map<word, T>, id: word, now: nat)
    requires 0 < id <= MAX_SURFACE_ID && Position(c.entries, id) == |c.entries|
    ensures var (c', found) := Find(c, m, id, now);
            && found == Lookup(m, id) && (|c.entries| <= CACHE_SIZE ==> |c'.entries| <= CACHE_SIZE)
            && forall x: word | RightAt(c, m, x) :: RightAt(c', m, x)
  {
    var c1 := Prefetch(c, m, id, now);
    forall x: word | RightAt(c, m, x) ensures RightAt(Find(c, m, id, now).0, m, x) {
      assert RightAt(c1, m, x);
      if id in m { StoreKeepsRight(c1, m, Entry(id, Some(m[id]), now, 1, false, false), x); }
    }
  }

  lemma StoreKeepsRight<T>(c: Cache<T>, m: map<word, T>, e: Entry<T>, x: word)
    requires RightAt(c, m, x) && e.id in m && e.surface == Some(m[e.id])
    ensures RightAt(Store(c, e), m, x)
  {}

  /** Nothing cached matches the id, or the first match is the live surface. */
  ghost predicate FirstMatchIsLive<T>(c: Cache<T>, m: map<word, T>, id: word) {
    var i := Position(c.entries, id);
    i < |c.entries| ==> id in m && c.entries[i].surface == Some(m[id])
  }

  /** The exact condition under which one id is answered as by the dictionary, in any state of the cache. */
  lemma AnswerIsRightExactly<T>(c: Cache<T>, m: map<word, T>, id: word, now: nat)
    requires 0 < id <= MAX_SURFACE_ID
    ensures Find(c, m, id, now).1 == Lookup(m, id) <==> FirstMatchIsLive(c, m, id)
  {}

  lemma {:induction false} PrewarmKeepsRight<T>(c: Cache<T>, m: map<word, T>, ids: seq<word>)
    ensures forall x: word | RightAt(c, m, x) :: RightAt(Prewarm(c, m, ids), m, x)
    ensures |c.entries| <= CACHE_SIZE ==> |Prewarm(c, m, ids).entries| <= CACHE_SIZE
    decreases |ids|
  {
    if ids != [] {
      PrewarmKeepsRight(c, m, ids[..|ids| - 1]);
      var c1 := Prewarm(c, m, ids[..|ids| - 1]);
      forall x: word | RightAt(c, m, x) ensures RightAt(Prewarm(c, m, ids), m, x) { assert RightAt(c1, m, x); }
    }
  }

  /** The in-place sort leaves every id right that was. */
  lemma OptimizedKeepsRight<T>(c: Cache<T>, m: map<word, T>, sorted: seq<Entry<T>>, after: seq<Entry<T>>)
    requires Optimized(c.entries, sorted, after)
    ensures forall x: word | RightAt(c, m, x) :: RightAt(c.(entries := after), m, x)
    ensures |after| == |c.entries|
  {
    assert |multiset(sorted)| == |multiset(c.entries)|;
    forall x: word, i | RightAt(c, m, x) && 0 <= i < |after| && after[i].id == x
      ensures x in m && after[i].surface == Some(m[x])
    {
      assert sorted[i] in multiset(c.entries);
      assert sorted[i] in c.entries;
    }
  }

  /** The first of the entries matching an id that are used most. */
  ghost function MostUsed<T>(entries: seq<Entry<T>>, id: word): Option<Entry<T>> {
    if entries == [] then None
    else
      var best, last := MostUsed(entries[..|entries| - 1], id), entries[|entries| - 1];
      if Matches(last, id) && (best.None? || best.value.accessCount < last.accessCount) then Some(last) else best
  }

  /** The first entry matching an id among those used so often. */
  ghost function FirstOf<T>(entries: seq<Entry<T>>, id: word, n: word): Option<Entry<T>> {
    if entries == [] then None
    else
      var first, last := FirstOf(entries[..|entries| - 1], id, n), entries[|entries| - 1];
      if first.None? && Matches(last, id) && last.accessCount == n then Some(last) else first
  }

  lemma {:induction false} FirstIsByCount<T>(entries: seq<Entry<T>>, id: word, n: word)
    ensures FirstOf(entries, id, n) == FirstOf(ByCount(entries, n), id, n)
    decreases |entries|
  {
    if entries != [] {
      var rest, last := entries[..|entries| - 1], entries[|entries| - 1];
      FirstIsByCount(rest, id, n);
      var kept := ByCount(rest, n);
      if last.accessCount == n { assert (kept + [last])[..|kept|] == kept; } else { assert kept + [] == kept; }
    }
  }

  /** The most used match is the first of its count, and no count above has a match. */
  lemma {:induction false} MostUsedIsFirst<T>(entries: seq<Entry<T>>, id: word, n: word)
    ensures MostUsed(entries, id).Some? ==>
              FirstOf(entries, id, MostUsed(entries, id).value.accessCount) == MostUsed(entries, id)
    ensures FirstOf(entries, id, n).Some? ==>
              MostUsed(entries, id).Some? && n <= MostUsed(entries, id).value.accessCount
    decreases |entries|
  {
    if entries != [] {
      var rest, last := entries[..|entries| - 1], entries[|entries| - 1];
      MostUsedIsFirst(rest, id, n);
      MostUsedIsFirst(rest, id, last.accessCount);
    }
  }

  lemma SortKeepsMostUsed<T>(before: seq<Entry<T>>, sorted: seq<Entry<T>>, id: word)
    requires SameByCount(before, sorted)
    ensures MostUsed(before, id) == MostUsed(sorted, id)
  {
    forall n: word ensures FirstOf(before, id, n) == FirstOf(sorted, id, n) {
      FirstIsByCount(before, id, n);
      FirstIsByCount(sorted, id, n);
    }
    var a, b := MostUsed(before, id), MostUsed(sorted, id);
    MostUsedIsFirst(before, id, if b.Some? then b.value.accessCount else 0);
    MostUsedIsFirst(sorted, id, if a.Some? then a.value.accessCount else 0);
  }

  /** In descending order the most used match comes first. */
  lemma {:induction false} MostUsedComesFirst<T>(sorted: seq<Entry<T>>, id: word)
    requires Descending(sorted)
    ensures MostUsed(sorted, id)
            == if Position(sorted, id) < |sorted| then Some(sorted[Position(sorted, id)]) else None
    decreases |sorted|
  {
    if sorted != [] { MostUsedComesFirst(sorted[..|sorted| - 1], id); }
  }

  lemma {:induction false} PromoteKeepsPosition<T>(sorted: seq<Entry<T>>, n: nat, id: word)
    ensures Position(Promote(sorted, n), id) == Position(sorted, id)
    decreases |sorted|
  {
    if sorted != [] {
      PromoteKeepsPosition(sorted[..|sorted| - 1], n, id);
      assert Promote(sorted, n)[..|sorted| - 1] == Promote(sorted[..|sorted| - 1], n);
    }
  }

  /** After the sort an id is answered with the first of its most used entries, whichever came first before:
      as by the dictionary exactly when there is none or that one is the live surface. */
  lemma OptimizedAnswersExactly<T>(c: Cache<T>, m: map<word, T>, sorted: seq<Entry<T>>, after: seq<Entry<T>>,
                                   id: word, now: nat)
    requires Optimized(c.entries, sorted, after) && 0 < id <= MAX_SURFACE_ID
    ensures var best := MostUsed(c.entries, id);
            && (Find(c.(entries := after), m, id, now).1 == if best.Some? then best.value.surface else Lookup(m, id))
            && (Find(c.(entries := after), m, id, now).1 == Lookup(m, id)
                <==> (best.Some? ==> id in m && best.value.surface == Some(m[id])))
  {
    SortKeepsMostUsed(c.entries, sorted, id);
    MostUsedComesFirst(sorted, id);
    PromoteKeepsPosition(sorted, |c.entries| / 4, id);
    AnswerIsRightExactly(c.(entries := after), m, id, now);
  }

  // ---------------------------------------------------------------- runs

  datatype Op<T> =
    | Look(id: word, now: nat)
    | Insert(id: word, surface: T)
    | Remove(id: word)
    | Warm(ids: seq<word>)
    | Sort(sorted: seq<Entry<T>>)
    | Flush

  /** removed holds the ids removed since the last flush. */
  datatype World<T> = World(cache: Cache<T>, surfaces: map<word, T>, removed: set<word>)

  function Do<T>(w: World<T>, op: Op<T>): World<T> {
    match op
    case Look(id, now) => w.(cache := Find(w.cache, w.surfaces, id, now).0)
    case Insert(id, surface) => w.(surfaces := w.surfaces[id := surface])
    case Remove(id) => w.(surfaces := w.surfaces - {id}, removed := w.removed + {id})
    case Warm(ids) => w.(cache := Prewarm(w.cache, w.surfaces, ids))
    case Sort(sorted) => w.(cache := w.cache.(entries := Promote(sorted, |w.cache.entries| / 4)))
    case Flush => w.(cache := Flushed(w.cache), removed := {})
  }

  function Run<T>(w: World<T>, ops: seq<Op<T>>): World<T>
    decreases |ops|
  {
    if ops == [] then w else Do(Run(w, ops[..|ops| - 1]), ops[|ops| - 1])
  }

  /** New surfaces get ids that are not live; a sort is stable. */
  ghost predicate Legal<T>(w: World<T>, op: Op<T>) {
    match op
    case Insert(id, _) => id !in w.surfaces
    case Sort(sorted) => StablySorted(w.cache.entries, sorted)
    case _ => true
  }

  ghost predicate LegalRun<T>(w: World<T>, ops: seq<Op<T>>) {
    forall i | 0 <= i < |ops| :: Legal(Run(w, ops[..i]), ops[i])
  }

  function Empty<T>(): World<T> {
    World(Cache([], 0, 0, 0), map[], {})
  }

  lemma LegalPrefix<T>(w: World<T>, ops: seq<Op<T>>)
    requires ops != [] && LegalRun(w, ops)
    ensures LegalRun(w, ops[..|ops| - 1]) && Legal(Run(w, ops[..|ops| - 1]), ops[|ops| - 1])
  {
    var n := |ops| - 1;
    assert Legal(Run(w, ops[..n]), ops[n]);
    forall i | 0 <= i < n ensures Legal(Run(w, ops[..n][..i]), ops[i]) {
      assert ops[..n][..i] == ops[..i];
    }
  }

  /** Every id not removed since the last flush is right, and the cache is not overfull. */
  ghost predicate Good<T>(w: World<T>) {
    |w.cache.entries| <= CACHE_SIZE && forall id: word | id !in w.removed :: RightAt(w.cache, w.surfaces, id)
  }

  lemma StepStaysGood<T>(w: World<T>, op: Op<T>)
    requires Good(w) && Legal(w, op)
    ensures Good(Do(w, op))
  {
    match op
    case Look(id, now) => FindKeepsRight(w.cache, w.surfaces, id, now);
    case Warm(ids) => PrewarmKeepsRight(w.cache, w.surfaces, ids);
    case Sort(sorted) =>
      OptimizedKeepsRight(w.cache, w.surfaces, sorted, Promote(sorted, |w.cache.entries| / 4));
    case Insert(id, surface) =>
      forall x: word | x !in w.removed ensures RightAt(w.cache, w.surfaces[id := surface], x) {
        assert RightAt(w.cache, w.surfaces, x);
      }
    case Remove(id) =>
      forall x: word | x !in w.removed + {id} ensures RightAt(w.cache, w.surfaces - {id}, x) {
        assert RightAt(w.cache, w.surfaces, x);
      }
    case Flush =>
  }

  lemma {:induction false} RunIsGood<T>(ops: seq<Op<T>>)
    requires LegalRun(Empty<T>(), ops)
    ensures Good(Run(Empty<T>(), ops))
    decreases |ops|
  {
    if ops != [] {
      LegalPrefix(Empty<T>(), ops);
      RunIsGood(ops[..|ops| - 1]);
      StepStaysGood(Run(Empty<T>(), ops[..|ops| - 1]), ops[|ops| - 1]);
    }
  }

  /** On every run, whenever surfaces are removed and whether or not the cache is ever flushed, every id not
      removed since the last flush is answered as the dictionary answers it; the cache never holds more than
      64 entries. After a flush that is every id. */
  lemma CachedLookupIsDictionary<T>(ops: seq<Op<T>>, id: word, now: nat)
    requires LegalRun(Empty<T>(), ops)
    ensures var w := Run(Empty<T>(), ops);
            && |w.cache.entries| <= CACHE_SIZE
            && (id !in w.removed ==> Find(w.cache, w.surfaces, id, now).1 == Lookup(w.surfaces, id))
  {
    RunIsGood(ops);
    var w := Run(Empty<T>(), ops);
    FindKeepsRight(w.cache, w.surfaces, id, now);
  }

  // ---------------------------------------------------------------- removal without a flush

  ghost predicate AllAnswersRight<T>(c: Cache<T>, m: map<word, T>) {
    forall x: word, now: nat :: Find(c, m, x, now).1 == Lookup(m, x)
  }

  /** Without a flush, a removal leaves every answer right exactly when the removed surface was not cached. */
  lemma RemovalWithoutFlush<T>(c: Cache<T>, m: map<word, T>, id: word)
    requires AllAnswersRight(c, m) && 0 < id <= MAX_SURFACE_ID && id in m
    ensures AllAnswersRight(c, m - {id}) <==> Position(c.entries, id) == |c.entries|
  {
    var m' := m - {id};
    if Position(c.entries, id) == |c.entries| {
      forall x: word, now: nat ensures Find(c, m', x, now).1 == Lookup(m', x) {
        if 0 < x <= MAX_SURFACE_ID {
          assert Find(c, m, x, now).1 == Lookup(m, x);
          AnswerIsRightExactly(c, m, x, now);
          AnswerIsRightExactly(c, m', x, now);
        }
      }
    } else {
      AnswerIsRightExactly(c, m', id, 0);
      assert Find(c, m', id, 0).1 != Lookup(m', id);
    }
  }

  /** A surface looked up is in the cache. */
  lemma LookedUpIsCached<T>(c: Cache<T>, m: map<word, T>, id: word, now: nat)
    requires 0 < id <= MAX_SURFACE_ID && id in m
    ensures var entries := Find(c, m, id, now).0.entries; Position(entries, id) < |entries|
  {
    var c1, i := Find(c, m, id, now).0, Position(c.entries, id);
    if i < |c.entries| {
      assert Matches(c1.entries[i], id);
    } else {
      var c2 := Prefetch(c, m, id, now);
      assert Matches(c1.entries[if |c2.entries| < CACHE_SIZE then |c2.entries| else Oldest(c2.entries)], id);
    }
  }

  /** Whatever the dictionary, a cached id is answered from the cache. */
  lemma CachedIsAnswered<T>(c: Cache<T>, m: map<word, T>, id: word, now: nat)
    requires 0 < id <= MAX_SURFACE_ID && Position(c.entries, id) < |c.entries|
    ensures Find(c, m, id, now).1 == c.entries[Position(c.entries, id)].surface
  {}

  /** destroySurface looks the surface up before it removes it, so the cache always keeps it: the next
      lookup still finds it, even when the id has been given to another surface. */
  lemma DestroyLeavesStale<T>(c: Cache<T>, m: map<word, T>, id: word, now: nat, other: T, later: nat)
    requires RightAt(c, m, id) && 0 < id <= MAX_SURFACE_ID && id in m
    ensures var c1 := Find(c, m, id, now).0;
            && Find(c1, m - {id}, id, later).1 == Some(m[id])
            && Find(c1, (m - {id})[id := other], id, later).1 == Some(m[id])
  {
    FindKeepsRight(c, m, id, now);
    LookedUpIsCached(c, m, id, now);
    var c1 := Find(c, m, id, now).0;
    assert RightAt(c1, m, id);
    CachedIsAnswered(c1, m - {id}, id, later);
    CachedIsAnswered(c1, (m - {id})[id := other], id, later);
  }

  // ---------------------------------------------------------------- least recently touched

  /** A lookup that hits touches the slot that answers, which counts one use more, and no other. */
  lemma HitTouches<T>(c: Cache<T>, m: map<word, T>, id: word, now: nat)
    requires 0 < id <= MAX_SURFACE_ID && Position(c.entries, id) < |c.entries|
    ensures var i, after := Position(c.entries, id), Find(c, m, id, now).0.entries;
            && |after| == |c.entries| && after[i].lastAccess == now
            && after[i].accessCount == Wrap(c.entries[i].accessCount + 1)
            && after[i].id == id && after[i].surface == c.entries[i].surface
            && forall j | 0 <= j < |after| && j != i :: after[j] == c.entries[j]
  {}

  /** A cache that is full when the surface is stored, if only by the prefetch of the same lookup, gives up
      only a slot that every other slot has been accessed at or since. */
  lemma EvictsLeastRecent<T>(c: Cache<T>, m: map<word, T>, id: word, now: nat) returns (slot: nat)
    requires 0 < id <= MAX_SURFACE_ID && id in m && Position(c.entries, id) == |c.entries|
    requires |Prefetch(c, m, id, now).entries| == CACHE_SIZE
    ensures slot < CACHE_SIZE && |Find(c, m, id, now).0.entries| == CACHE_SIZE
    ensures var full, after := Prefetch(c, m, id, now).entries, Find(c, m, id, now).0.entries;
            && (forall i | 0 <= i < CACHE_SIZE && i != slot ::
                  after[i] == full[i] && full[slot].lastAccess <= full[i].lastAccess)
            && after[slot] == Entry(id, Some(m[id]), now, 1, false, false)
  {
    slot := Oldest(Prefetch(c, m, id, now).entries);
  }

  ghost predicate Cached<T>(entries: seq<Entry<T>>, id: word) {
    Position(entries, id) < |entries|
  }

  /** What a missed lookup brings in before the surface itself. */
  ghost function Brought<T>(w: World<T>, id: word, now: nat, touched: map<word, nat>): map<word, nat>
    requires id <= MAX_SURFACE_ID
  {
    if Prefetch(w.cache, w.surfaces, id, now) == w.cache then touched else touched[id + 1 := now]
  }

  /** When each id was last looked up or brought in: kept beside the run, from its operations alone. A surface that
      prewarming brings in counts as never touched. */
  ghost function Touch<T>(w: World<T>, op: Op<T>, touched: map<word, nat>): map<word, nat> {
    match op
    case Look(id, now) =>
      if id == 0 || id > MAX_SURFACE_ID then touched
      else if Cached(w.cache.entries, id) then touched[id := now]
      else if id in w.surfaces then Brought(w, id, now, touched)[id := now]
      else Brought(w, id, now, touched)
    case Warm(ids) =>
      map x: word | x in touched || x in ids ::
        if x in touched && (x !in ids || Cached(w.cache.entries, x)) then touched[x] else 0
    case Flush => map[]
    case _ => touched
  }

  ghost function Touched<T>(ops: seq<Op<T>>): map<word, nat>
    decreases |ops|
  {
    if ops == [] then map[]
    else
      var before := ops[..|ops| - 1];
      Touch(Run(Empty<T>(), before), ops[|ops| - 1], Touched(before))
  }

  /** The clock of the lookups never goes back. */
  ghost predicate Monotone<T>(ops: seq<Op<T>>) {
    forall i, j | 0 <= i < j < |ops| && ops[i].Look? && ops[j].Look? :: ops[i].now <= ops[j].now
  }

  ghost predicate NotAfter<T>(ops: seq<Op<T>>, now: nat) {
    forall i | 0 <= i < |ops| && ops[i].Look? :: ops[i].now <= now
  }

  /** No entry of the id is newer than its last touch, and one is as new. */
  ghost predicate TimelyAt<T>(entries: seq<Entry<T>>, touched: map<word, nat>, id: word) {
    Cached(entries, id) ==>
      && id in touched
      && (forall i | 0 <= i < |entries| && Matches(entries[i], id) :: entries[i].lastAccess <= touched[id])
      && (exists i | 0 <= i < |entries| :: Matches(entries[i], id) && entries[i].lastAccess == touched[id])
  }

  ghost predicate Timely<T>(entries: seq<Entry<T>>, touched: map<word, nat>) {
    forall id: word :: TimelyAt(entries, touched, id)
  }

  ghost predicate Past(touched: map<word, nat>, now: nat) {
    forall id <- touched.Keys :: touched[id] <= now
  }

  lemma CachedExactly<T>(entries: seq<Entry<T>>, id: word)
    ensures Cached(entries, id) <==> exists i :: 0 <= i < |entries| && Matches(entries[i], id)
  {
    if exists i :: 0 <= i < |entries| && Matches(entries[i], id) {
      var i :| 0 <= i < |entries| && Matches(entries[i], id);
      assert Position(entries, id) <= i;
    }
  }

  /** One more entry, touched now. */
  lemma AppendTimely<T>(entries: seq<Entry<T>>, touched: map<word, nat>, e: Entry<T>)
    requires Timely(entries, touched) && e.surface.Some?
    requires e.id in touched ==> touched[e.id] <= e.lastAccess
    ensures Timely(entries + [e], touched[e.id := e.lastAccess])
  {
    var more, later := entries + [e], touched[e.id := e.lastAccess];
    forall id: word ensures TimelyAt(more, later, id) {
      CachedExactly(entries, id);
      CachedExactly(more, id);
      assert TimelyAt(entries, touched, id);
      if id == e.id {
        assert Matches(more[|entries|], id);
      } else if Cached(more, id) {
        assert Cached(entries, id);
        var i :| 0 <= i < |entries| && Matches(entries[i], id) && entries[i].lastAccess == touched[id];
        assert more[i] == entries[i];
      }
    }
  }

  /** The oldest entry replaced by one touched now. */
  lemma ReplaceTimely<T>(entries: seq<Entry<T>>, touched: map<word, nat>, e: Entry<T>, slot: nat)
    requires Timely(entries, touched) && e.surface.Some? && slot < |entries| && !Cached(entries, e.id)
    requires forall j | 0 <= j < |entries| :: entries[slot].lastAccess <= entries[j].lastAccess
    ensures Timely(entries[slot := e], touched[e.id := e.lastAccess])
  {
    var after, later := entries[slot := e], touched[e.id := e.lastAccess];
    forall id: word ensures TimelyAt(after, later, id) {
      CachedExactly(entries, id);
      CachedExactly(after, id);
      assert TimelyAt(entries, touched, id);
      if id == e.id {
        assert Matches(after[slot], id);
      } else if Cached(after, id) {
        var k :| 0 <= k < |after| && Matches(after[k], id);
        assert entries[k] == after[k];
        var i :| 0 <= i < |entries| && Matches(entries[i], id) && entries[i].lastAccess == touched[id];
        assert if i == slot then after[k].lastAccess == touched[id] else after[i].lastAccess == touched[id];
      }
    }
  }

  lemma HitTimely<T>(entries: seq<Entry<T>>, touched: map<word, nat>, slot: nat, e: Entry<T>)
    requires Timely(entries, touched) && slot < |entries| && Matches(entries[slot], e.id)
    requires e.surface == entries[slot].surface && e.id in touched && touched[e.id] <= e.lastAccess
    ensures Timely(entries[slot := e], touched[e.id := e.lastAccess])
  {
    var after, later := entries[slot := e], touched[e.id := e.lastAccess];
    forall id: word ensures TimelyAt(after, later, id) {
      CachedExactly(entries, id);
      CachedExactly(after, id);
      assert TimelyAt(entries, touched, id);
      if id == e.id {
        assert Matches(after[slot], id);
      } else if Cached(after, id) {
        var k :| 0 <= k < |after| && Matches(after[k], id);
        assert entries[k] == after[k];
        var i :| 0 <= i < |entries| && Matches(entries[i], id) && entries[i].lastAccess == touched[id];
        assert after[i] == entries[i];
      }
    }
  }

  lemma PrefetchTimely<T>(w: World<T>, touched: map<word, nat>, id: word, now: nat)
    requires Timely(w.cache.entries, touched) && Past(touched, now) && id <= MAX_SURFACE_ID
    ensures Timely(Prefetch(w.cache, w.surfaces, id, now).entries, Brought(w, id, now, touched))
  {
    var c1 := Prefetch(w.cache, w.surfaces, id, now);
    if c1 != w.cache {
      AppendTimely(w.cache.entries, touched, Entry(id + 1, Some(w.surfaces[id + 1]), now, 0, true, false));
    }
  }

  lemma PrefetchKeepsUncached<T>(w: World<T>, id: word, now: nat)
    requires id <= MAX_SURFACE_ID && !Cached(w.cache.entries, id)
    ensures !Cached(Prefetch(w.cache, w.surfaces, id, now).entries, id)
  {
    CachedExactly(w.cache.entries, id);
    CachedExactly(Prefetch(w.cache, w.surfaces, id, now).entries, id);
  }

  lemma MissLeaves<T>(w: World<T>, id: word, now: nat)
    requires 0 < id <= MAX_SURFACE_ID && !Cached(w.cache.entries, id)
    ensures Find(w.cache, w.surfaces, id, now).0.entries
            == var c1 := Prefetch(w.cache, w.surfaces, id, now);
               if id in w.surfaces then Store(c1, Entry(id, Some(w.surfaces[id]), now, 1, false, false)).entries
               else c1.entries
  {
    hide Prefetch, Store, Position, Wrap;
  }

  lemma MissTouches<T>(w: World<T>, touched: map<word, nat>, id: word, now: nat)
    requires 0 < id <= MAX_SURFACE_ID && !Cached(w.cache.entries, id)
    ensures Touch(w, Look(id, now), touched)
            == var brought := Brought(w, id, now, touched);
               if id in w.surfaces then brought[id := now] else brought
  {
    hide Brought, Cached;
  }

  lemma MissTimely<T>(w: World<T>, touched: map<word, nat>, id: word, now: nat)
    requires Timely(w.cache.entries, touched) && Past(touched, now)
    requires 0 < id <= MAX_SURFACE_ID && !Cached(w.cache.entries, id)
    ensures Timely(Find(w.cache, w.surfaces, id, now).0.entries, Touch(w, Look(id, now), touched))
  {
    hide Timely, Past, Prefetch, Brought, Store, Find, Touch, Cached;
    MissLeaves(w, id, now);
    MissTouches(w, touched, id, now);
    PrefetchTimely(w, touched, id, now);
    PrefetchKeepsUncached(w, id, now);
    if id in w.surfaces {
      BroughtIsPast(w, touched, id, now);
      var e := Entry(id, Some(w.surfaces[id]), now, 1, false, false);
      StoreTimely(Prefetch(w.cache, w.surfaces, id, now), Brought(w, id, now, touched), e);
    }
  }

  lemma BroughtIsPast<T>(w: World<T>, touched: map<word, nat>, id: word, now: nat)
    requires Past(touched, now) && id <= MAX_SURFACE_ID
    ensures Past(Brought(w, id, now, touched), now)
  {}

  lemma StoreTimely<T>(c: Cache<T>, touched: map<word, nat>, e: Entry<T>)
    requires Timely(c.entries, touched) && Past(touched, e.lastAccess) && !Cached(c.entries, e.id) && e.surface.Some?
    ensures Timely(Store(c, e).entries, touched[e.id := e.lastAccess])
  {
    if |c.entries| < CACHE_SIZE {
      AppendTimely(c.entries, touched, e);
    } else {
      ReplaceTimely(c.entries, touched, e, Oldest(c.entries));
    }
  }

  lemma FoundTimely<T>(w: World<T>, touched: map<word, nat>, id: word, now: nat)
    requires Timely(w.cache.entries, touched) && Past(touched, now)
    requires 0 < id <= MAX_SURFACE_ID && Cached(w.cache.entries, id)
    ensures Timely(Find(w.cache, w.surfaces, id, now).0.entries, Touch(w, Look(id, now), touched))
  {
    var i := Position(w.cache.entries, id);
    assert TimelyAt(w.cache.entries, touched, id);
    HitTouches(w.cache, w.surfaces, id, now);
    var after := Find(w.cache, w.surfaces, id, now).0.entries;
    assert after == w.cache.entries[i := after[i]];
    HitTimely(w.cache.entries, touched, i, after[i]);
  }

  lemma {:induction false} WarmKeepsEntries<T>(c: Cache<T>, m: map<word, T>, ids: seq<word>)
    ensures c.entries <= Prewarm(c, m, ids).entries
    ensures forall i | |c.entries| <= i < |Prewarm(c, m, ids).entries| ::
              var e := Prewarm(c, m, ids).entries[i]; e.id in ids && e.surface.Some? && e.lastAccess == 0
    decreases |ids|
  {
    if ids != [] { WarmKeepsEntries(c, m, ids[..|ids| - 1]); }
  }

  lemma WarmTimely<T>(w: World<T>, touched: map<word, nat>, ids: seq<word>)
    requires Timely(w.cache.entries, touched)
    ensures Timely(Prewarm(w.cache, w.surfaces, ids).entries, Touch(w, Warm(ids), touched))
  {
    var entries, after := w.cache.entries, Prewarm(w.cache, w.surfaces, ids).entries;
    WarmKeepsEntries(w.cache, w.surfaces, ids);
    assert forall i | 0 <= i < |entries| :: after[i] == entries[i];
    forall id: word ensures TimelyAt(after, Touch(w, Warm(ids), touched), id) {
      CachedExactly(entries, id);
      CachedExactly(after, id);
      assert TimelyAt(entries, touched, id);
      if Cached(entries, id) {
        var i :| 0 <= i < |entries| && Matches(entries[i], id) && entries[i].lastAccess == touched[id];
        assert Matches(after[i], id) && after[i].lastAccess == touched[id];
      } else if Cached(after, id) {
        var i :| 0 <= i < |after| && Matches(after[i], id);
        assert i >= |entries|;
      }
    }
  }

  /** Some entry holds the same surface under the same id with the same time. */
  ghost predicate HasLike<T>(entries: seq<Entry<T>>, e: Entry<T>) {
    exists i :: 0 <= i < |entries|
                && entries[i].id == e.id && entries[i].surface == e.surface && entries[i].lastAccess == e.lastAccess
  }

  ghost predicate Likes<T>(a: seq<Entry<T>>, b: seq<Entry<T>>) {
    forall i | 0 <= i < |a| :: HasLike(b, a[i])
  }

  lemma SortLikes<T>(before: seq<Entry<T>>, sorted: seq<Entry<T>>, n: nat)
    requires multiset(sorted) == multiset(before)
    ensures Likes(before, Promote(sorted, n)) && Likes(Promote(sorted, n), before)
  {
    var after := Promote(sorted, n);
    forall i | 0 <= i < |after| ensures HasLike(before, after[i]) {
      assert sorted[i] in multiset(before);
      var k :| 0 <= k < |before| && before[k] == sorted[i];
    }
    forall i | 0 <= i < |before| ensures HasLike(after, before[i]) {
      assert before[i] in multiset(sorted);
      var k :| 0 <= k < |sorted| && sorted[k] == before[i];
      assert after[k].id == before[i].id;
    }
  }

  lemma LikeMatches<T>(a: seq<Entry<T>>, b: seq<Entry<T>>, i: nat, id: word) returns (j: nat)
    requires Likes(a, b) && i < |a| && Matches(a[i], id)
    ensures j < |b| && Matches(b[j], id) && b[j].lastAccess == a[i].lastAccess
  {
    assert HasLike(b, a[i]);
    j :| 0 <= j < |b| && b[j].id == a[i].id && b[j].surface == a[i].surface && b[j].lastAccess == a[i].lastAccess;
  }

  lemma LikesTimely<T>(before: seq<Entry<T>>, after: seq<Entry<T>>, touched: map<word, nat>, id: word)
    requires TimelyAt(before, touched, id) && Likes(before, after) && Likes(after, before)
    ensures TimelyAt(after, touched, id)
  {
    hide Likes;
    CachedExactly(before, id);
    CachedExactly(after, id);
    if Cached(after, id) {
      forall k: nat | k < |after| && Matches(after[k], id)
        ensures Cached(before, id) && id in touched && after[k].lastAccess <= touched[id]
      {
        var d := LikeMatches(after, before, k, id);
      }
      assert Matches(after[Position(after, id)], id);
      var i :| 0 <= i < |before| && Matches(before[i], id) && before[i].lastAccess == touched[id];
      var e := LikeMatches(before, after, i, id);
    }
  }

  lemma SortTimely<T>(before: seq<Entry<T>>, sorted: seq<Entry<T>>, n: nat, touched: map<word, nat>)
    requires Timely(before, touched) && multiset(sorted) == multiset(before)
    ensures Timely(Promote(sorted, n), touched)
  {
    SortLikes(before, sorted, n);
    hide TimelyAt, Likes, Promote;
    forall id: word ensures TimelyAt(Promote(sorted, n), touched, id) {
      LikesTimely(before, Promote(sorted, n), touched, id);
    }
  }

  lemma StepTimely<T>(w: World<T>, op: Op<T>, touched: map<word, nat>)
    requires Timely(w.cache.entries, touched) && Legal(w, op) && (op.Look? ==> Past(touched, op.now))
    ensures Timely(Do(w, op).cache.entries, Touch(w, op, touched))
  {
    match op
    case Look(id, now) =>
      if 0 < id <= MAX_SURFACE_ID {
        if Cached(w.cache.entries, id) { FoundTimely(w, touched, id, now); } else { MissTimely(w, touched, id, now); }
      }
    case Warm(ids) => WarmTimely(w, touched, ids);
    case Sort(sorted) => SortTimely(w.cache.entries, sorted, |w.cache.entries| / 4, touched);
    case Flush =>
    case _ =>
  }

  lemma TouchIsPast<T>(w: World<T>, op: Op<T>, touched: map<word, nat>, now: nat)
    requires Past(touched, now) && (op.Look? ==> op.now <= now)
    ensures Past(Touch(w, op, touched), now)
  {}

  lemma {:induction false} TouchedIsPast<T>(ops: seq<Op<T>>, now: nat)
    requires NotAfter(ops, now)
    ensures Past(Touched(ops), now)
    decreases |ops|
  {
    if ops != [] {
      var before := ops[..|ops| - 1];
      assert forall i | 0 <= i < |before| :: before[i] == ops[i];
      TouchedIsPast(before, now);
      TouchIsPast(Run(Empty<T>(), before), ops[|ops| - 1], Touched(before), now);
    }
  }

  /** Over every run the entries of an id are as old as its last touch says. */
  lemma {:induction false} RunIsTimely<T>(ops: seq<Op<T>>)
    requires LegalRun(Empty<T>(), ops) && Monotone(ops)
    ensures Timely(Run(Empty<T>(), ops).cache.entries, Touched(ops))
    decreases |ops|
  {
    if ops != [] {
      var before, last := ops[..|ops| - 1], ops[|ops| - 1];
      LegalPrefix(Empty<T>(), ops);
      assert forall i | 0 <= i < |before| :: before[i] == ops[i];
      RunIsTimely(before);
      if last.Look? { TouchedIsPast(before, last.now); }
      StepTimely(Run(Empty<T>(), before), last, Touched(before));
    }
  }

  /** Over every run whose clock does not go back: when a lookup finds the cache full, an id that it gives up was
      last touched no later than any other id that is cached. */
  lemma GivesUpLeastRecentlyTouched<T>(ops: seq<Op<T>>, id: word, now: nat, lost: word, other: word)
    requires LegalRun(Empty<T>(), ops) && Monotone(ops) && NotAfter(ops, now)
    requires var w := Run(Empty<T>(), ops);
             && 0 < id <= MAX_SURFACE_ID && id in w.surfaces && !Cached(w.cache.entries, id)
             && var full := Prefetch(w.cache, w.surfaces, id, now).entries;
             && Cached(full, lost) && !Cached(Find(w.cache, w.surfaces, id, now).0.entries, lost)
             && Cached(full, other)
    ensures var brought := Brought(Run(Empty<T>(), ops), id, now, Touched(ops));
            lost in brought && other in brought && brought[lost] <= brought[other]
  {
    var w := Run(Empty<T>(), ops);
    RunIsTimely(ops);
    TouchedIsPast(ops, now);
    PrefetchTimely(w, Touched(ops), id, now);
    RunIsGood(ops);
    GivenUpIsOldest(Prefetch(w.cache, w.surfaces, id, now), Brought(w, id, now, Touched(ops)),
                    Entry(id, Some(w.surfaces[id]), now, 1, false, false), lost, other);
  }

  lemma GivenUpIsOldest<T>(c: Cache<T>, touched: map<word, nat>, e: Entry<T>, lost: word, other: word)
    requires Timely(c.entries, touched) && Cached(c.entries, lost) && Cached(c.entries, other)
    requires !Cached(Store(c, e).entries, lost)
    ensures lost in touched && other in touched && touched[lost] <= touched[other]
  {
    var after := Store(c, e).entries;
    assert TimelyAt(c.entries, touched, lost) && TimelyAt(c.entries, touched, other);
    CachedExactly(after, lost);
    var i :| 0 <= i < |c.entries| && Matches(c.entries[i], lost) && c.entries[i].lastAccess == touched[lost];
    if |c.entries| < CACHE_SIZE || i != Oldest(c.entries) { StoreKeeps(c, e, i); }
    assert Matches(c.entries[Position(c.entries, other)], other);
  }

  lemma StoreKeeps<T>(c: Cache<T>, e: Entry<T>, i: nat)
    requires i < |c.entries| && (|c.entries| < CACHE_SIZE || i != Oldest(c.entries))
    ensures i < |Store(c, e).entries| && Store(c, e).entries[i] == c.entries[i]
  {}

  /** A surface that was not cached is stored as used once, now, whether or not another had to go. */
  lemma MissStores<T>(c: Cache<T>, m: map<word, T>, id: word, now: nat)
    requires 0 < id <= MAX_SURFACE_ID && id in m && !Cached(c.entries, id)
    ensures var after := Find(c, m, id, now).0.entries;
            Cached(after, id) && after[Position(after, id)] == Entry(id, Some(m[id]), now, 1, false, false)
  {
    hide Find, Prefetch, Store, Cached, Position;
    MissLeaves(World(c, m, {}), id, now);
    PrefetchKeepsUncached(World(c, m, {}), id, now);
    StoredIsFound(Prefetch(c, m, id, now), Entry(id, Some(m[id]), now, 1, false, false));
  }

  lemma StoredIsFound<T>(c: Cache<T>, e: Entry<T>)
    requires e.surface.Some? && !Cached(c.entries, e.id)
    ensures var after := Store(c, e).entries; Cached(after, e.id) && after[Position(after, e.id)] == e
  {
    var slot := if |c.entries| < CACHE_SIZE then |c.entries| else Oldest(c.entries);
    var after := Store(c, e).entries;
    assert after[slot] == e;
    CachedExactly(c.entries, e.id);
    FirstIs(after, e.id, slot);
  }

  lemma FirstIs<T>(entries: seq<Entry<T>>, id: word, slot: nat)
    requires slot < |entries| && Matches(entries[slot], id)
    requires forall j | 0 <= j < |entries| && j != slot :: !Matches(entries[j], id)
    ensures Position(entries, id) == slot
  {
    CachedExactly(entries, id);
  }

  function LookAgain<T>(c: Cache<T>, m: map<word, T>, id: word, now: nat, k: nat): Cache<T>
    decreases k
  {
    if k == 0 then c else Find(LookAgain(c, m, id, now, k - 1), m, id, now).0
  }

  /** The entry that answers the id is used k times more, and no other entry has changed. */
  ghost predicate UsedMore<T>(before: seq<Entry<T>>, after: seq<Entry<T>>, id: word, k: nat) {
    && |after| == |before| && Position(after, id) == Position(before, id) < |before|
    && after[Position(before, id)].accessCount == Wrap(before[Position(before, id)].accessCount + k)
    && forall j | 0 <= j < |after| && j != Position(before, id) :: after[j] == before[j]
  }

  lemma OneUse<T>(c: Cache<T>, m: map<word, T>, id: word, now: nat)
    requires 0 < id <= MAX_SURFACE_ID && Cached(c.entries, id)
    ensures UsedMore(c.entries, Find(c, m, id, now).0.entries, id, 1)
  {
    HitTouches(c, m, id, now);
    HitKeepsPosition(c, m, id, now);
  }

  lemma UsesAdd<T>(a: seq<Entry<T>>, b: seq<Entry<T>>, c: seq<Entry<T>>, id: word, k: nat)
    requires UsedMore(a, b, id, k) && UsedMore(b, c, id, 1)
    ensures UsedMore(a, c, id, k + 1)
  {
    WrapNext(a[Position(a, id)].accessCount, k + 1);
    hide Wrap;
  }

  lemma UsedIsCached<T>(a: seq<Entry<T>>, b: seq<Entry<T>>, id: word, k: nat)
    requires UsedMore(a, b, id, k)
    ensures Cached(b, id)
  {}

  lemma NoUse<T>(a: seq<Entry<T>>, id: word)
    requires Cached(a, id)
    ensures UsedMore(a, a, id, 0)
  {}

  /** Looking a cached id up again and again counts every time, modulo 2^32, and changes no other entry. */
  lemma {:induction false} LooksAreCounted<T>(c: Cache<T>, m: map<word, T>, id: word, now: nat, k: nat)
    requires 0 < id <= MAX_SURFACE_ID && Cached(c.entries, id)
    ensures UsedMore(c.entries, LookAgain(c, m, id, now, k).entries, id, k)
    decreases k
  {
    hide Find, UsedMore, Cached;
    if k == 0 {
      NoUse(c.entries, id);
    } else {
      LooksAreCounted(c, m, id, now, k - 1);
      var before := LookAgain(c, m, id, now, k - 1);
      UsedIsCached(c.entries, before.entries, id, k - 1);
      OneUse(before, m, id, now);
      UsesAdd(c.entries, before.entries, LookAgain(c, m, id, now, k).entries, id, k - 1);
    }
  }

  lemma HitKeepsPosition<T>(c: Cache<T>, m: map<word, T>, id: word, now: nat)
    requires 0 < id <= MAX_SURFACE_ID && Cached(c.entries, id)
    ensures Position(Find(c, m, id, now).0.entries, id) == Position(c.entries, id)
  {
    HitTouches(c, m, id, now);
    hide Find;
    SamePosition(c.entries, Find(c, m, id, now).0.entries, id);
  }

  lemma WrapNext(n: nat, k: nat)
    requires k > 0
    ensures Wrap(Wrap(n + (k - 1)) + 1) == Wrap(n + k)
  {}

  lemma {:induction false} SamePosition<T>(a: seq<Entry<T>>, b: seq<Entry<T>>, id: word)
    requires |a| == |b| && forall i | 0 <= i < |a| :: Matches(a[i], id) <==> Matches(b[i], id)
    ensures Position(a, id) == Position(b, id)
    decreases |a|
  {
    if a != [] { SamePosition(a[..|a| - 1], b[..|b| - 1], id); }
  }

  // ---------------------------------------------------------------- the access pattern

  /** The last id in range that was looked up since the last flush; 0 when none was. */
  function PreviousId<T>(ops: seq<Op<T>>): word
    decreases |ops|
  {
    if ops == [] then 0
    else
      match ops[|ops| - 1]
      case Look(id, _) => if 0 < id <= MAX_SURFACE_ID then id else PreviousId(ops[..|ops| - 1])
      case Flush => 0
      case _ => PreviousId(ops[..|ops| - 1])
  }

  /** The lookups that found a surface right after one of the id before, or of any other id. */
  ghost function Accesses<T>(ops: seq<Op<T>>, sequential: bool): nat
    decreases |ops|
  {
    if ops == [] then 0
    else
      var before, last := ops[..|ops| - 1], ops[|ops| - 1];
      var w := Run(Empty<T>(), before);
      Accesses(before, sequential)
      + if last.Look? && 0 < last.id <= MAX_SURFACE_ID && (Cached(w.cache.entries, last.id) || last.id in w.surfaces)
           && (sequential <==> PreviousId(before) == last.id - 1)
        then 1 else 0
  }

  lemma WrapOneMore(n: nat)
    ensures Wrap(Wrap(n) + 1) == Wrap(n + 1)
  {}

  /** The cache's pattern counters are those of the run's lookups. */
  ghost predicate Counted<T>(ops: seq<Op<T>>, c: Cache<T>) {
    && c.lastId == PreviousId(ops)
    && c.sequential == Wrap(Accesses(ops, true)) && c.random == Wrap(Accesses(ops, false))
  }

  lemma LookIsCounted<T>(ops: seq<Op<T>>)
    requires ops != [] && ops[|ops| - 1].Look?
    requires var before := ops[..|ops| - 1]; Counted(before, Run(Empty<T>(), before).cache)
    ensures var before, last := ops[..|ops| - 1], ops[|ops| - 1];
            var w := Run(Empty<T>(), before);
            Counted(ops, Find(w.cache, w.surfaces, last.id, last.now).0)
  {
    hide Wrap, Find, Run, Cached;
    var before, last := ops[..|ops| - 1], ops[|ops| - 1];
    WrapOneMore(Accesses(before, true));
    WrapOneMore(Accesses(before, false));
    var w := Run(Empty<T>(), before);
    FindCounts(w.cache, w.surfaces, last.id, last.now);
  }

  /** Over every run, legal or not, the cache counts the pattern of its lookups. */
  lemma {:induction false} PatternIsCounted<T>(ops: seq<Op<T>>)
    ensures Counted(ops, Run(Empty<T>(), ops).cache)
    decreases |ops|
  {
    if ops != [] {
      var before, last := ops[..|ops| - 1], ops[|ops| - 1];
      PatternIsCounted(before);
      hide Wrap, Find, Prewarm, Cached;
      var w := Run(Empty<T>(), before);
      match last
      case Look(id, now) => LookIsCounted(ops);
      case Warm(ids) => WarmKeepsPattern(w.cache, w.surfaces, ids);
      case _ =>
    }
  }

  lemma FindCounts<T>(c: Cache<T>, m: map<word, T>, id: word, now: nat)
    ensures var c' := Find(c, m, id, now).0;
            var inRange := 0 < id <= MAX_SURFACE_ID;
            var answered := inRange && (Cached(c.entries, id) || id in m);
            && c'.lastId == (if inRange then id else c.lastId)
            && c'.sequential == (if answered && c.lastId == id - 1 then Wrap(c.sequential + 1) else c.sequential)
            && c'.random == if answered && c.lastId != id - 1 then Wrap(c.random + 1) else c.random
  {
    hide CountAccess, Store, Prefetch, Wrap;
    if 0 < id <= MAX_SURFACE_ID {
      PrefetchKeepsPattern(c, m, id, now);
      var i := Position(c.entries, id);
      if i < |c.entries| {
        AccessCounts(c.(entries := Find(c, m, id, now).0.entries), id);
        CountKeepsEntries(c.(entries := c.entries[i := c.entries[i].(lastAccess := now,
                                                   accessCount := Wrap(c.entries[i].accessCount + 1))]), id);
      } else if id in m {
        var stored := Store(Prefetch(c, m, id, now), Entry(id, Some(m[id]), now, 1, false, false));
        StoreKeepsPattern(Prefetch(c, m, id, now), Entry(id, Some(m[id]), now, 1, false, false));
        AccessCounts(stored, id);
      }
    }
  }

  lemma AccessCounts<T>(c: Cache<T>, id: word)
    requires 0 < id
    ensures var c' := CountAccess(c, id);
            && c'.lastId == id
            && c'.sequential == (if c.lastId == id - 1 then Wrap(c.sequential + 1) else c.sequential)
            && c'.random == if c.lastId != id - 1 then Wrap(c.random + 1) else c.random
  {
    assert Wrap(id - 1) == id - 1;
    hide Wrap;
  }

  lemma CountKeepsEntries<T>(c: Cache<T>, id: word)
    ensures CountAccess(c, id).entries == c.entries
  {}

  lemma StoreKeepsPattern<T>(c: Cache<T>, e: Entry<T>)
    ensures Store(c, e).(entries := c.entries) == c
  {}

  lemma PrefetchKeepsPattern<T>(c: Cache<T>, m: map<word, T>, id: word, now: nat)
    requires id <= MAX_SURFACE_ID
    ensures Prefetch(c, m, id, now).(entries := c.entries) == c
  {}

  lemma {:induction false} WarmKeepsPattern<T>(c: Cache<T>, m: map<word, T>, ids: seq<word>)
    ensures var c' := Prewarm(c, m, ids);
            c'.lastId == c.lastId && c'.sequential == c.sequential && c'.random == c.random
    decreases |ids|
  {
    if ids != [] { WarmKeepsPattern(c, m, ids[..|ids| - 1]); }
  }

  lemma PrefetchIs<T>(c: Cache<T>, m: map<word, T>, id: word, now: nat)
    requires id <= MAX_SURFACE_ID
    ensures Prefetch(c, m, id, now).entries
            == if c.sequential > Wrap(c.random * 2) && id + 1 in m && |c.entries| < CACHE_SIZE
               then c.entries + [Entry(id + 1, Some(m[id + 1]), now, 0, true, false)]
               else c.entries
  {
    hide Wrap;
  }

  /** So over every run a missed lookup also brings in the next surface, never used and last in the cache, exactly
      when there is one, there is room, and more than twice as many accesses were sequential as random, both
      counted and doubled modulo 2^32. */
  lemma PrefetchesExactlyWhen<T>(ops: seq<Op<T>>, id: word, now: nat)
    requires 0 < id <= MAX_SURFACE_ID && !Cached(Run(Empty<T>(), ops).cache.entries, id)
    ensures var w := Run(Empty<T>(), ops);
            var strong := Wrap(Accesses(ops, true)) > Wrap(Wrap(Accesses(ops, false)) * 2);
            Prefetch(w.cache, w.surfaces, id, now).entries
            == if strong && id + 1 in w.surfaces && |w.cache.entries| < CACHE_SIZE
               then w.cache.entries + [Entry(id + 1, Some(w.surfaces[id + 1]), now, 0, true, false)]
               else w.cache.entries
  {
    hide Wrap, Run, Prefetch, Accesses, Cached;
    PatternIsCounted(ops);
    PrefetchIs(Run(Empty<T>(), ops).cache, Run(Empty<T>(), ops).surfaces, id, now);
  }

  // ---------------------------------------------------------------- what is cached ahead, and what is promoted

  /** The ids in a list that name a surface, in their order. */
  function Existing<T>(m: map<word, T>, ids: seq<word>): (r: seq<word>)
    ensures forall id <- r :: id in m
  {
    if ids == [] then []
    else
      var id := ids[|ids| - 1];
      Existing(m, ids[..|ids| - 1]) + if id != 0 && id in m then [id] else []
  }

  function Warmed<T>(id: word, surface: T): Entry<T> {
    Entry(id, Some(surface), 0, 0, true, true)
  }

  /** Prewarming keeps what is cached and adds the surfaces the list names, in its order, as unused entries of high
      priority, as many as there is room for. */
  lemma {:induction false} PrewarmAdds<T>(c: Cache<T>, m: map<word, T>, ids: seq<word>)
    requires |c.entries| <= 64
    ensures var after, wanted, n := Prewarm(c, m, ids), Existing(m, ids), |c.entries|;
            && after == c.(entries := after.entries) && c.entries <= after.entries
            && |after.entries| == (if n + |wanted| <= 64 then n + |wanted| else 64)
            && forall k | 0 <= k < |after.entries| - n :: after.entries[n + k] == Warmed(wanted[k], m[wanted[k]])
    decreases |ids|
  {
    if ids != [] { PrewarmAdds(c, m, ids[..|ids| - 1]); }
  }

  /** After sorting, the entries stand in order of use, and those gain high priority whose place is within the first
      quarter, rounded down; nothing else about an entry changes. */
  lemma TopQuarterIsPromoted<T>(before: seq<Entry<T>>, sorted: seq<Entry<T>>, after: seq<Entry<T>>, i: nat)
    requires Optimized(before, sorted, after) && i < |after|
    ensures |after| == |sorted| == |before|
    ensures after[i] == if 4 * (i + 1) <= |before| then sorted[i].(highPriority := true) else sorted[i]
  {
    assert |multiset(sorted)| == |multiset(before)|;
  }
}
