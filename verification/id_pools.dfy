/** The four recycling id pools: layers and animations (FB/VMCoreAnimationAccelerator.cpp:771-934),
    surfaces (FB/VMIOSurfaceManager_Helpers.cpp:460-493), clients (FB/VMIOSurfaceManager.cpp:3469-3503). */
module IdPools {
  import opened Words

  datatype Kind = Layer | Animation | Surface | Client

  /** Released ids wait in free, the last one first out; counter is the source's m_next_*_id. */
  datatype Pool = Pool(kind: Kind, free: seq<word>, counter: word)

  function Empty(kind: Kind): Pool {
    Pool(kind, [], if kind == Client then 0 else 1)
  }

  /** The id a pool mints when nothing is free: clients count before use, the others after. */
  function NextFresh(p: Pool): int {
    if p.kind == Client then p.counter + 1 else p.counter
  }

  /** The most ids a pool keeps; clients have no limit. */
  function Limit(kind: Kind): Option<nat> {
    match kind
    case Layer => Some(128)
    case Animation => Some(256)
    case Surface => Some(64)
    case Client => None
  }

  function Allocate(p: Pool): (Pool, word) {
    if p.free != [] then (p.(free := p.free[..|p.free| - 1]), p.free[|p.free| - 1])
    else
      var bumped := Wrap(p.counter + 1);
      (p.(counter := bumped), if p.kind == Client then bumped else p.counter)
  }

  function Release(p: Pool, id: word): Pool {
    match p.kind
    case Layer =>
      if id == 0 || id >= p.counter || id in p.free || |p.free| >= 128 then p
      else p.(free := p.free + [id])
    case Animation =>
      if id == 0 || id >= p.counter || id in p.free then p
      else p.(free := (if |p.free| < 256 then p.free else p.free[64..]) + [id])
    case Surface =>
      if id == 0 || |p.free| >= 64 then p else p.(free := p.free + [id])
    case Client =>
      if id == 0 then p else p.(free := p.free + [id])
  }

  // ---------------------------------------------------------------- in place

  class IdPool {
    const kind: Kind
    var free: seq<word>
    var counter: word

    ghost function Value(): Pool
      reads this
    {
      Pool(kind, free, counter)
    }

    constructor (kind: Kind)
      ensures Value() == Empty(kind)
    {
      this.kind := kind;
      free, counter := [], if kind == Client then 0 else 1;
    }

    method AllocateId() returns (id: word)
      modifies this
      ensures (Value(), id) == Allocate(old(Value()))
    {
      if |free| > 0 {
        var last := |free| - 1;
        id := free[last];
        free := free[..last];
      } else if kind == Client {
        counter := Wrap(counter + 1);
        id := counter;
      } else {
        id := counter;
        counter := Wrap(counter + 1);
      }
    }

    method IsFree(id: word) returns (found: bool)
      ensures found <==> id in free
    {
      var i := 0;
      while i < |free|
        invariant 0 <= i <= |free|
        invariant id !in free[..i]
      {
        if free[i] == id { return true; }
        i := i + 1;
      }
      assert free[..i] == free;
      found := false;
    }

    method ReleaseLayerId(id: word)
      requires kind == Layer
      modifies this
      ensures Value() == Release(old(Value()), id)
    {
      if id == 0 || id >= counter { return; }
      var known := IsFree(id);
      if known { return; }
      if |free| < 128 { free := free + [id]; }
    }

    method ReleaseAnimationId(id: word)
      requires kind == Animation
      modifies this
      ensures Value() == Release(old(Value()), id)
    {
      if id == 0 || id >= counter { return; }
      var known := IsFree(id);
      if known { return; }
      if |free| >= 256 {
        ghost var full := free;
        var removed := 0;
        while removed < 256 / 4 && |free| > 0
          invariant 0 <= removed <= 64 && free == full[removed..] && counter == old(counter)
        {
          free := free[1..];
          removed := removed + 1;
        }
      }
      free := free + [id];
    }

    method ReleaseSurfaceId(id: word)
      requires kind == Surface
      modifies this
      ensures Value() == Release(old(Value()), id)
    {
      if id == 0 { return; }
      if |free| < 64 { free := free + [id]; }
    }

    method ReleaseClientId(id: word)
      requires kind == Client
      modifies this
      ensures Value() == Release(old(Value()), id)
    {
      if id == 0 { return; }
      free := free + [id];
    }
  }

  // ---------------------------------------------------------------- runs

  datatype Op = Take | Give(id: word)

  /** A pool with the ids its callers hold and the most they ever held at once. */
  datatype Session = Session(pool: Pool, live: set<word>, peak: nat)

  function Larger(a: nat, b: nat): nat {
    if a < b then b else a
  }

  function Do(s: Session, op: Op): Session {
    match op
    case Take =>
      var (pool, id) := Allocate(s.pool);
      var live := s.live + {id};
      Session(pool, live, Larger(s.peak, |live|))
    case Give(id) => Session(Release(s.pool, id), s.live - {id}, s.peak)
  }

  function Run(s: Session, ops: seq<Op>): Session
    decreases |ops|
  {
    if ops == [] then s else Do(Run(s, ops[..|ops| - 1]), ops[|ops| - 1])
  }

  /** An id may be minted while the 32-bit counter does not wrap. */
  predicate CanTake(p: Pool) {
    p.free != [] || p.counter + 1 < 0x1_0000_0000
  }

  /** What callers must keep to: the surface and client pools do not check what they are given. */
  predicate Allowed(s: Session, op: Op) {
    match op
    case Take => CanTake(s.pool)
    case Give(id) => (s.pool.kind == Surface || s.pool.kind == Client) ==> id in s.live
  }

  ghost predicate AllowedRun(s: Session, ops: seq<Op>) {
    forall i | 0 <= i < |ops| :: Allowed(Run(s, ops[..i]), ops[i])
  }

  predicate Distinct(ids: seq<word>) {
    forall i, j | 0 <= i < j < |ids| :: ids[i] != ids[j]
  }

  ghost predicate Sound(p: Pool, live: set<word>) {
    && Distinct(p.free)
    && (forall id <- p.free :: 0 < id < NextFresh(p) && id !in live)
    && (forall id <- live :: 0 < id < NextFresh(p))
    && (Limit(p.kind).Some? ==> |p.free| <= Limit(p.kind).value)
    && 0 < NextFresh(p)
  }

  /** An id handed out is never one that is already held. */
  lemma TakeIsNew(p: Pool, live: set<word>)
    requires Sound(p, live) && CanTake(p)
    ensures var (p', id) := Allocate(p); id !in live && id != 0 && Sound(p', live + {id})
  {
    var (p', id) := Allocate(p);
    if p.free == [] {
      assert NextFresh(p) == id && NextFresh(p') == id + 1;
    } else {
      assert id == p.free[|p.free| - 1] && id in p.free;
      assert forall x <- p'.free :: x in p.free;
    }
  }

  lemma GiveKeepsSound(p: Pool, live: set<word>, id: word)
    requires Sound(p, live) && ((p.kind == Surface || p.kind == Client) ==> id in live)
    ensures Sound(Release(p, id), live - {id})
  {
    var kept := if p.kind == Animation && |p.free| >= 256 then p.free[64..] else p.free;
    assert forall x <- kept :: x in p.free;
    assert id in live ==> id !in kept;
    assert Release(p, id) == p || Release(p, id).free == kept + [id];
  }

  /** The last step of a run. */
  lemma LastStep(s: Session, ops: seq<Op>) returns (before: Session, last: Op)
    requires ops != [] && AllowedRun(s, ops)
    ensures AllowedRun(s, ops[..|ops| - 1]) && before == Run(s, ops[..|ops| - 1])
    ensures Allowed(before, last) && Run(s, ops) == Do(before, last)
  {
    var n := |ops| - 1;
    before, last := Run(s, ops[..n]), ops[n];
    assert Allowed(Run(s, ops[..n]), ops[n]);
    forall i | 0 <= i < n ensures Allowed(Run(s, ops[..n][..i]), ops[i]) {
      assert ops[..n][..i] == ops[..i];
    }
  }

  function Start(kind: Kind): Session {
    Session(Empty(kind), {}, 0)
  }

  /** No id is live twice, on any run of a pool. */
  lemma {:induction false} RunIsSound(kind: Kind, ops: seq<Op>)
    requires AllowedRun(Start(kind), ops)
    ensures var s := Run(Start(kind), ops); Sound(s.pool, s.live) && s.pool.kind == kind
    decreases |ops|
  {
    if ops != [] {
      var s, last := LastStep(Start(kind), ops);
      RunIsSound(kind, ops[..|ops| - 1]);
      if last.Take? { TakeIsNew(s.pool, s.live); } else { GiveKeepsSound(s.pool, s.live, last.id); }
    }
  }

  /** As full as the pool gets: 128 layer, 256 animation and 64 surface ids wait, client ids without limit. */
  predicate Full(p: Pool) {
    || (p.kind == Layer && |p.free| == 128)
    || (p.kind == Animation && |p.free| == 256)
    || (p.kind == Surface && |p.free| == 64)
  }

  /** Unless the pool was full, taking after giving hands the same id back and restores the pool. */
  lemma TakeUndoesGive(p: Pool, live: set<word>, id: word)
    requires Sound(p, live) && id in live
    ensures Allocate(Release(p, id)) == (p, id) <==> !Full(p)
  {
    if p.kind == Animation && |p.free| == 256 {
      assert |Allocate(Release(p, id)).0.free| == 192;
    }
  }

  // ---------------------------------------------------------------- releases that were not allowed

  /** The exact condition for a release of any id, held or not: the layer and animation pools check it
      themselves; the others are safe when they ignore the id, or it was minted and is not waiting. */
  predicate SafeToRelease(p: Pool, id: word) {
    || p.kind == Layer || p.kind == Animation || id == 0 || (p.kind == Surface && |p.free| >= 64)
    || (id !in p.free && id < NextFresh(p))
  }

  lemma ReleaseIsSoundExactly(p: Pool, live: set<word>, id: word)
    requires Sound(p, live)
    ensures Sound(Release(p, id), live - {id}) <==> SafeToRelease(p, id)
  {
    var kept := if p.kind == Animation && |p.free| >= 256 then p.free[64..] else p.free;
    assert forall x <- kept :: x in p.free;
    if !SafeToRelease(p, id) {
      var q := Release(p, id);
      assert q.free == p.free + [id] && q.free[|p.free|] == id;
      if id in p.free {
        var k :| 0 <= k < |p.free| && p.free[k] == id;
        assert q.free[k] == q.free[|p.free|];
      } else {
        assert id in q.free;
      }
    } else {
      assert Release(p, id) == p || Release(p, id).free == kept + [id];
    }
  }

  /** The ids of the next takes. */
  function Takes(p: Pool, n: nat): (ids: seq<word>)
    ensures |ids| == n
    decreases n
  {
    if n == 0 then [] else var (q, id) := Allocate(p); [id] + Takes(q, n - 1)
  }

  lemma {:induction false} WaitingAreTaken(p: Pool, n: nat, k: nat)
    requires k < n && k < |p.free|
    ensures Takes(p, n)[k] == p.free[|p.free| - 1 - k]
    decreases n
  {
    if k > 0 { WaitingAreTaken(Allocate(p).0, n - 1, k - 1); }
  }

  lemma {:induction false} FreshAreTaken(p: Pool, n: nat, k: nat)
    requires |p.free| <= k < n && NextFresh(p) + (k - |p.free|) < 0x1_0000_0000 && 0 <= NextFresh(p)
    ensures Takes(p, n)[k] == NextFresh(p) + (k - |p.free|)
    decreases n
  {
    var (q, id) := Allocate(p);
    if k > 0 {
      FreshAreTaken(q, n - 1, k - 1);
    } else {
      assert id == NextFresh(p);
    }
  }

  /** What a full pool forgets: layers and surfaces the id given back, animations the 64 that have waited longest.
      The next takes hand out the rest, the last one in first, and then ids never used before. */
  lemma FullPoolForgets(p: Pool, live: set<word>, id: word, n: nat, k: nat)
    requires Sound(p, live) && id in live && Full(p) && k < n && NextFresh(p) + k < 0x1_0000_0000
    ensures Takes(Release(p, id), n)[k]
            == if p.kind == Animation then
                 if k == 0 then id else if k <= 192 then p.free[256 - k] else NextFresh(p) + (k - 193)
               else if k < |p.free| then p.free[|p.free| - 1 - k] else NextFresh(p) + (k - |p.free|)
  {
    var q := Release(p, id);
    if k < |q.free| { WaitingAreTaken(q, n, k); } else { FreshAreTaken(q, n, k); }
  }

  /** The ids of a new pool are 1, 2, 3 and so on. */
  lemma FirstIdsAre(kind: Kind, n: nat, k: nat)
    requires k < n && k + 1 < 0x1_0000_0000
    ensures Takes(Empty(kind), n)[k] == k + 1
  {
    FreshAreTaken(Empty(kind), n, k);
  }

  /** After any release that was not safe, later takes hand one id out twice without its release in between. */
  lemma UnsafeReleaseHandsOutTwice(p: Pool, live: set<word>, id: word) returns (n: nat, k: nat)
    requires Sound(p, live) && !SafeToRelease(p, id)
    ensures 0 < k < n && var ids := Takes(Release(p, id), n); ids[0] == id && ids[k] == id
  {
    var q := Release(p, id);
    assert q.free == p.free + [id];
    if id in p.free {
      var j :| 0 <= j < |p.free| && p.free[j] == id;
      k := |p.free| - j;
      n := k + 1;
      WaitingAreTaken(q, n, k);
    } else {
      k := |q.free| + (id - NextFresh(p));
      n := k + 1;
      FreshAreTaken(q, n, k);
    }
    WaitingAreTaken(q, n, 0);
  }

  // ---------------------------------------------------------------- clients

  /** Every client id ever minted is held or waiting, and as many were minted as were ever held at once. */
  ghost predicate ClientsAccounted(s: Session) {
    && s.pool.kind == Client && Sound(s.pool, s.live)
    && |s.live| + |s.pool.free| == s.pool.counter == s.peak
  }

  lemma {:induction false} ClientIdsMintedEqualPeak(ops: seq<Op>)
    requires AllowedRun(Start(Client), ops)
    ensures ClientsAccounted(Run(Start(Client), ops))
    decreases |ops|
  {
    if ops != [] {
      var s, last := LastStep(Start(Client), ops);
      ClientIdsMintedEqualPeak(ops[..|ops| - 1]);
      ClientStep(s, last);
    }
  }

  lemma ClientStep(s: Session, op: Op)
    requires ClientsAccounted(s) && Allowed(s, op)
    ensures ClientsAccounted(Do(s, op))
  {
    match op
    case Take => TakeIsNew(s.pool, s.live);
    case Give(id) => GiveKeepsSound(s.pool, s.live, id);
  }
}
