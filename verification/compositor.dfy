/** The frame loop of the Core Animation compositor (FB/VMCoreAnimationAccelerator.cpp:583-675,
    696-730, 952-1056, 2084-2138): frames count down repeats and drop finished animations. */
module Compositor {
  import opened Words
  import opened Arithmetic
  import Ids = IdPools

  /** The part of an animation record the frame loop looks at. */
  datatype Anim = Anim(id: word, duration: real, repeat: real)

  /** A session since the accelerator was set up.  history holds how many animations each frame completed;
      held is every animation id given out and not released. */
  datatype State = State(
    ids: Ids.Pool,
    animations: seq<Anim>,
    running: nat,
    frame: nat,
    history: seq<nat>,
    held: set<word>)

  const FRAME_INTERVAL := 16667.0

  function Timestamp(frame: nat): real {
    frame as real * FRAME_INTERVAL / 1000000.0
  }

  /** elapsed / duration >= 1.0; a zero duration divides to infinity. */
  predicate Due(a: Anim, time: real) {
    if a.duration == 0.0 then true else time / a.duration >= 1.0
  }

  function Tick(a: Anim, time: real): Anim {
    if Due(a, time) && a.repeat > 0.0 then a.(repeat := a.repeat - 1.0) else a
  }

  predicate Completes(a: Anim, time: real) {
    Due(a, time) && !(a.repeat > 0.0)
  }

  predicate Finished(a: Anim, time: real) {
    Due(a, time) && a.repeat == 0.0
  }

  function TickAll(animations: seq<Anim>, time: real): (r: seq<Anim>)
    ensures |r| == |animations|
  {
    seq(|animations|, i requires 0 <= i < |animations| => Tick(animations[i], time))
  }

  function CompletedCount(animations: seq<Anim>, time: real): (n: nat)
    ensures n <= |animations|
  {
    if animations == [] then 0
    else CompletedCount(animations[..|animations| - 1], time)
         + (if Completes(animations[|animations| - 1], time) then 1 else 0)
  }

  /** What cleanup leaves, in the order it was. */
  function Unfinished(animations: seq<Anim>, done: Anim -> bool): (r: seq<Anim>)
    ensures |r| <= |animations|
  {
    if animations == [] then []
    else
      var last := animations[|animations| - 1];
      Unfinished(animations[..|animations| - 1], done) + (if done(last) then [] else [last])
  }

  /** cleanupCompletedAnimations; without memory for its index list it drops the last ones instead. */
  function Cleanup(s: State, time: real, completed: nat, memory: bool): State
    requires completed <= |s.animations|
  {
    var kept := if memory then Unfinished(s.animations, a => Finished(a, time)) else s.animations[..|s.animations| - completed];
    s.(animations := kept, running := AtLeast0(s.running - (|s.animations| - |kept|)))
  }

  function Frame(s: State, memory: bool): State {
    var next := s.(frame := s.frame + 1);
    var time := Timestamp(next.frame);
    if s.running == 0 then next.(history := s.history + [0])
    else
      var completed := CompletedCount(s.animations, time);
      var ticked := next.(animations := TickAll(s.animations, time), history := s.history + [completed]);
      if completed > 0 then Cleanup(ticked, time, completed, memory) else ticked
  }

  /** addAnimation on an existing layer; stored is false when there is no memory for the record. */
  function Add(s: State, duration: real, repeat: real, stored: bool): (State, word) {
    var (ids, id) := Ids.Allocate(s.ids);
    if !stored then (s.(ids := Ids.Release(ids, id)), id)
    else (s.(ids := ids, animations := s.animations + [Anim(id, duration, repeat)], running := s.running + 1,
             held := s.held + {id}), id)
  }

  function IndexOf(animations: seq<Anim>, id: word): (i: nat)
    ensures i <= |animations|
    ensures i < |animations| ==> animations[i].id == id
    ensures forall j | 0 <= j < i :: animations[j].id != id
  {
    if animations == [] then 0
    else
      var i := IndexOf(animations[..|animations| - 1], id);
      if i < |animations| - 1 then i
      else if animations[|animations| - 1].id == id then |animations| - 1
      else |animations|
  }

  function Remove(s: State, id: word): State {
    var i := IndexOf(s.animations, id);
    if id == 0 || i == |s.animations| then s
    else s.(animations := s.animations[..i] + s.animations[i + 1..], ids := Ids.Release(s.ids, id),
            running := AtLeast0(s.running - 1), held := s.held - {id})
  }

  function Started(): State {
    State(Ids.Empty(Ids.Animation), [], 0, 0, [], {})
  }

  /** startCompositor when it was not running: the counters begin again, the list stays. */
  function Start(s: State): State {
    s.(running := 0, frame := 0, history := [])
  }

  // ---------------------------------------------------------------- cleanup by index

  /** The positions cleanup collects, ascending. */
  function FinishedIndices(animations: seq<Anim>, done: Anim -> bool): seq<nat> {
    if animations == [] then []
    else
      var n := |animations| - 1;
      FinishedIndices(animations[..n], done) + (if done(animations[n]) then [n] else [])
  }

  /** Remove the listed positions, the last one first. */
  function RemoveAt(animations: seq<Anim>, indices: seq<nat>): seq<Anim>
    decreases |indices|
  {
    if indices == [] then animations
    else
      var r := RemoveAt(animations, indices[1..]);
      if indices[0] < |r| then r[..indices[0]] + r[indices[0] + 1..] else r
  }

  ghost predicate Ascending(indices: seq<nat>, bound: nat) {
    (forall i, j | 0 <= i < j < |indices| :: indices[i] < indices[j])
    && (forall i | 0 <= i < |indices| :: indices[i] < bound)
  }

  lemma {:induction false} RemoveAtLength(animations: seq<Anim>, indices: seq<nat>)
    requires Ascending(indices, |animations|)
    ensures |RemoveAt(animations, indices)| == |animations| - |indices|
    ensures indices != [] ==> indices[0] < |RemoveAt(animations, indices[1..])|
    ensures var m := if indices == [] then |animations| else indices[0];
            m <= |RemoveAt(animations, indices)| && RemoveAt(animations, indices)[..m] == animations[..m]
    decreases |indices|
  {
    if indices != [] { RemoveAtLength(animations, indices[1..]); }
  }

  lemma {:induction false} RemoveAtKeepsLast(animations: seq<Anim>, last: Anim, indices: seq<nat>)
    requires Ascending(indices, |animations|)
    ensures RemoveAt(animations + [last], indices) == RemoveAt(animations, indices) + [last]
    decreases |indices|
  {
    if indices != [] {
      RemoveAtKeepsLast(animations, last, indices[1..]);
      RemoveAtLength(animations, indices);
    }
  }

  lemma {:induction false} RemoveAtDropsLast(animations: seq<Anim>, last: Anim, indices: seq<nat>)
    requires Ascending(indices, |animations|)
    ensures RemoveAt(animations + [last], indices + [|animations|]) == RemoveAt(animations, indices)
    decreases |indices|
  {
    if indices == [] {
      assert (indices + [|animations|])[1..] == [];
      assert (animations + [last])[..|animations|] + (animations + [last])[|animations| + 1..] == animations;
    } else {
      assert (indices + [|animations|])[1..] == indices[1..] + [|animations|];
      RemoveAtDropsLast(animations, last, indices[1..]);
      RemoveAtLength(animations, indices);
    }
  }

  lemma {:induction false} FinishedIndicesAscend(animations: seq<Anim>, done: Anim -> bool)
    ensures Ascending(FinishedIndices(animations, done), |animations|)
    decreases |animations|
  {
    if animations != [] { FinishedIndicesAscend(animations[..|animations| - 1], done); }
  }

  /** Removing by descending index is the order-preserving filter. */
  lemma {:induction false} CleanupIsFilter(animations: seq<Anim>, done: Anim -> bool)
    ensures RemoveAt(animations, FinishedIndices(animations, done)) == Unfinished(animations, done)
    decreases |animations|
  {
    if animations != [] {
      var n := |animations| - 1;
      CleanupIsFilter(animations[..n], done);
      FilterLast(animations[..n], animations[n], done, animations);
    }
  }

  lemma FilterLast(before: seq<Anim>, last: Anim, done: Anim -> bool, all: seq<Anim>)
    requires all == before + [last]
    requires RemoveAt(before, FinishedIndices(before, done)) == Unfinished(before, done)
    ensures RemoveAt(all, FinishedIndices(all, done)) == Unfinished(all, done)
  {
    assert all[..|all| - 1] == before;
    var indices := FinishedIndices(before, done);
    FinishedIndicesAscend(before, done);
    if done(last) {
      assert FinishedIndices(all, done) == indices + [|before|];
      RemoveAtDropsLast(before, last, indices);
    } else {
      assert FinishedIndices(all, done) == indices;
      RemoveAtKeepsLast(before, last, indices);
    }
  }

  // ---------------------------------------------------------------- in place

  class Session {
    const ids: Ids.IdPool
    var animations: seq<Anim>
    var animationsRunning: nat
    var frameNumber: nat
    ghost var history: seq<nat>
    ghost var held: set<word>

    ghost function Value(): State
      reads this, ids
    {
      State(ids.Value(), animations, animationsRunning, frameNumber, history, held)
    }

    ghost predicate Valid()
      reads this
    {
      ids.kind == Ids.Animation && |history| == frameNumber
    }

    constructor ()
      ensures Valid() && fresh(ids) && Value() == Started()
    {
      ids := new Ids.IdPool(Ids.Animation);
      animations, animationsRunning, frameNumber := [], 0, 0;
      history, held := [], {};
    }

    method StartCompositor()
      requires Valid()
      modifies this`animationsRunning, this`frameNumber, this`history
      ensures Valid() && Value() == Start(old(Value()))
    {
      animationsRunning, frameNumber, history := 0, 0, [];
    }

    method AddAnimation(duration: real, repeat: real, stored: bool) returns (id: word)
      requires Valid()
      modifies this, ids
      ensures Valid() && (Value(), id) == Add(old(Value()), duration, repeat, stored)
    {
      id := ids.AllocateId();
      if !stored {
        ids.ReleaseAnimationId(id);
        return;
      }
      animations := animations + [Anim(id, duration, repeat)];
      animationsRunning := animationsRunning + 1;
      held := held + {id};
    }

    method FindAnimation(id: word) returns (i: nat)
      ensures i == IndexOf(animations, id)
    {
      i := 0;
      while i < |animations| && animations[i].id != id
        invariant 0 <= i <= |animations|
        invariant forall j | 0 <= j < i :: animations[j].id != id
      {
        i := i + 1;
      }
    }

    method RemoveAnimation(id: word)
      requires Valid()
      modifies this, ids
      ensures Valid() && Value() == Remove(old(Value()), id)
    {
      if id == 0 { return; }
      var i := FindAnimation(id);
      if i == |animations| { return; }
      animations := animations[..i] + animations[i + 1..];
      ids.ReleaseAnimationId(id);
      if animationsRunning > 0 { animationsRunning := animationsRunning - 1; }
      held := held - {id};
    }

    /** Tick every record in place, counting the ones that completed. */
    method TickRecords(time: real) returns (completed: nat)
      modifies this`animations
      ensures animations == TickAll(old(animations), time)
      ensures completed == CompletedCount(old(animations), time)
    {
      ghost var before := animations;
      completed := 0;
      var i := 0;
      while i < |animations|
        invariant 0 <= i <= |animations| == |before|
        invariant forall k | 0 <= k < i :: animations[k] == Tick(before[k], time)
        invariant forall k | i <= k < |before| :: animations[k] == before[k]
        invariant completed == CompletedCount(before[..i], time)
      {
        var a := animations[i];
        if Due(a, time) {
          completed := completed + 1;
          if a.repeat > 0.0 {
            a := a.(repeat := a.repeat - 1.0);
            completed := completed - 1;
          }
        }
        animations := animations[i := a];
        assert before[..i + 1][..i] == before[..i];
        i := i + 1;
      }
      assert before[..i] == before;
    }

    /** Without memory for the index list, drop as many as completed from the end. */
    method DropLast(completed: nat)
      requires completed <= |animations|
      modifies this`animations, this`animationsRunning
      ensures animations == old(animations)[..|old(animations)| - completed]
      ensures animationsRunning == AtLeast0(old(animationsRunning) - completed)
    {
      var left := completed;
      while |animations| > 0 && left > 0
        invariant 0 <= left <= completed && |animations| == |old(animations)| - (completed - left)
        invariant animations == old(animations)[..|old(animations)| - (completed - left)]
        invariant animationsRunning == AtLeast0(old(animationsRunning) - (completed - left))
      {
        animations := animations[..|animations| - 1];
        left := left - 1;
        if animationsRunning > 0 { animationsRunning := animationsRunning - 1; }
      }
    }

    method CollectFinished(time: real) returns (indices: seq<nat>)
      ensures indices == FinishedIndices(animations, a => Finished(a, time))
    {
      ghost var done := a => Finished(a, time);
      indices := [];
      var i := 0;
      while i < |animations|
        invariant 0 <= i <= |animations|
        invariant indices == FinishedIndices(animations[..i], done)
      {
        assert animations[..i + 1][..i] == animations[..i];
        if Finished(animations[i], time) { indices := indices + [i]; }
        i := i + 1;
      }
      assert animations[..i] == animations;
    }

    method RemoveDescending(indices: seq<nat>)
      requires Ascending(indices, |animations|)
      modifies this`animations, this`animationsRunning
      ensures animations == RemoveAt(old(animations), indices)
      ensures animationsRunning == AtLeast0(old(animationsRunning) - |indices|)
    {
      ghost var before := animations;
      var i := |indices|;
      while i > 0
        invariant 0 <= i <= |indices|
        invariant animations == RemoveAt(before, indices[i..])
        invariant animationsRunning == AtLeast0(old(animationsRunning) - (|indices| - i))
      {
        i := i - 1;
        var index := indices[i];
        assert indices[i..][1..] == indices[i + 1..];
        RemoveAtLength(before, indices[i..]);
        if index < |animations| {
          animations := animations[..index] + animations[index + 1..];
          if animationsRunning > 0 { animationsRunning := animationsRunning - 1; }
        }
      }
      assert indices[0..] == indices;
    }

    method CleanupCompletedAnimations(time: real, completed: nat, memory: bool)
      requires Valid() && 0 < completed <= |animations|
      modifies this`animations, this`animationsRunning
      ensures Valid() && Value() == Cleanup(old(Value()), time, completed, memory)
    {
      if !memory {
        DropLast(completed);
        return;
      }
      ghost var done := a => Finished(a, time);
      var indices := CollectFinished(time);
      FinishedIndicesAscend(animations, done);
      CleanupIsFilter(animations, done);
      RemoveAtLength(animations, indices);
      RemoveDescending(indices);
    }

    method CompositeFrame(memory: bool)
      requires Valid()
      modifies this
      ensures Valid() && Value() == Frame(old(Value()), memory)
    {
      frameNumber := frameNumber + 1;
      var time := Timestamp(frameNumber);
      if animationsRunning == 0 {
        history := history + [0];
        return;
      }
      var completed := TickRecords(time);
      history := history + [completed];
      if completed > 0 { CleanupCompletedAnimations(time, completed, memory); }
    }
  }
}
