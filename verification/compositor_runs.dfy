/** Whole compositor sessions: how long an animation stays, and what the counters mean. */
module CompositorRuns {
  import opened Words
  import opened Compositor
  import Ids = IdPools

  datatype Op = Added(duration: real, repeat: real, stored: bool) | Removed(id: word) | Framed(memory: bool)

  function Step(s: State, op: Op): State {
    match op
    case Added(duration, repeat, stored) => Add(s, duration, repeat, stored).0
    case Removed(id) => Remove(s, id)
    case Framed(memory) => Frame(s, memory)
  }

  function Run(s: State, ops: seq<Op>): State
    decreases |ops|
  {
    if ops == [] then s else Step(Run(s, ops[..|ops| - 1]), ops[|ops| - 1])
  }

  /** Ids may be minted while the 32-bit counter does not wrap. */
  predicate Allowed(s: State, op: Op) {
    op.Added? ==> Ids.CanTake(s.ids)
  }

  ghost predicate AllowedRun(s: State, ops: seq<Op>) {
    forall i | 0 <= i < |ops| :: Allowed(Run(s, ops[..i]), ops[i])
  }

  ghost predicate Good(s: State) {
    && s.ids.kind == Ids.Animation && Ids.Sound(s.ids, s.held)
    && s.running == |s.animations| && |s.history| == s.frame
    && (forall a <- s.animations :: a.id in s.held)
    && DistinctIds(s.animations)
  }

  ghost predicate DistinctIds(animations: seq<Anim>) {
    forall i, j | 0 <= i < j < |animations| :: animations[i].id != animations[j].id
  }

  lemma LastStep(s: State, ops: seq<Op>) returns (before: State, last: Op)
    requires ops != [] && AllowedRun(s, ops)
    ensures AllowedRun(s, ops[..|ops| - 1]) && before == Run(s, ops[..|ops| - 1])
    ensures last == ops[|ops| - 1] && Allowed(before, last) && Run(s, ops) == Step(before, last)
  {
    var n := |ops| - 1;
    before, last := Run(s, ops[..n]), ops[n];
    assert Allowed(Run(s, ops[..n]), ops[n]);
    forall i | 0 <= i < n ensures Allowed(Run(s, ops[..n][..i]), ops[i]) {
      assert ops[..n][..i] == ops[..i];
    }
  }

  // ---------------------------------------------------------------- lists

  lemma {:induction false} UnfinishedMember(animations: seq<Anim>, done: Anim -> bool, a: Anim)
    ensures a in Unfinished(animations, done) <==> a in animations && !done(a)
    decreases |animations|
  {
    if animations != [] {
      var n := |animations| - 1;
      UnfinishedMember(animations[..n], done, a);
      assert animations == animations[..n] + [animations[n]];
    }
  }

  lemma {:induction false} UnfinishedDistinct(animations: seq<Anim>, done: Anim -> bool)
    requires DistinctIds(animations)
    ensures DistinctIds(Unfinished(animations, done))
    decreases |animations|
  {
    if animations != [] {
      var n := |animations| - 1;
      UnfinishedDistinct(animations[..n], done);
      var before := Unfinished(animations[..n], done);
      forall a <- before ensures a.id != animations[n].id { UnfinishedMember(animations[..n], done, a); }
    }
  }

  lemma {:induction false} CompletedMember(animations: seq<Anim>, time: real, a: Anim)
    requires a in animations && Completes(a, time)
    ensures CompletedCount(animations, time) > 0
    decreases |animations|
  {
    var n := |animations| - 1;
    if animations[n] != a { CompletedMember(animations[..n], time, a); }
  }

  // ---------------------------------------------------------------- every step

  lemma FilterGood(list: seq<Anim>, ticked: seq<Anim>, done: Anim -> bool, held: set<word>)
    requires DistinctIds(list) && |ticked| == |list| && (forall a <- list :: a.id in held)
    requires forall j | 0 <= j < |list| :: ticked[j].id == list[j].id
    ensures DistinctIds(ticked) && (forall a <- ticked :: a.id in held)
    ensures DistinctIds(Unfinished(ticked, done)) && (forall a <- Unfinished(ticked, done) :: a.id in held)
  {
    forall a <- ticked ensures a.id in held {
      var j :| 0 <= j < |ticked| && ticked[j] == a;
      assert list[j] in list;
    }
    UnfinishedDistinct(ticked, done);
    forall a <- Unfinished(ticked, done) ensures a.id in held { UnfinishedMember(ticked, done, a); }
  }

  lemma FrameGood(s: State, memory: bool)
    requires Good(s)
    ensures Good(Frame(s, memory))
  {
    if s.running != 0 {
      var time := Timestamp(s.frame + 1);
      FilterGood(s.animations, TickAll(s.animations, time), a => Finished(a, time), s.held);
    }
  }

  lemma AddGood(s: State, duration: real, repeat: real, stored: bool)
    requires Good(s) && Ids.CanTake(s.ids)
    ensures Good(Add(s, duration, repeat, stored).0)
    ensures Add(s, duration, repeat, stored).1 !in s.held
  {
    var (ids, id) := Ids.Allocate(s.ids);
    Ids.TakeIsNew(s.ids, s.held);
    if !stored {
      Ids.GiveKeepsSound(ids, s.held + {id}, id);
      assert s.held + {id} - {id} == s.held;
    }
  }

  lemma RemoveGood(s: State, id: word)
    requires Good(s)
    ensures Good(Remove(s, id))
  {
    var i := IndexOf(s.animations, id);
    if id != 0 && i < |s.animations| { Ids.GiveKeepsSound(s.ids, s.held, id); }
  }

  lemma StepGood(s: State, op: Op)
    requires Good(s) && Allowed(s, op)
    ensures Good(Step(s, op))
  {
    match op
    case Added(duration, repeat, stored) => AddGood(s, duration, repeat, stored);
    case Removed(id) => RemoveGood(s, id);
    case Framed(memory) => FrameGood(s, memory);
  }

  /** On every session animations_running is the length of the list and no id is in it twice. */
  lemma {:induction false} SessionIsGood(s0: State, ops: seq<Op>)
    requires Good(s0) && AllowedRun(s0, ops)
    ensures Good(Run(s0, ops))
    decreases |ops|
  {
    if ops != [] {
      var s, last := LastStep(s0, ops);
      SessionIsGood(s0, ops[..|ops| - 1]);
      StepGood(s, last);
    }
  }

  /** A first start satisfies it, and so does a later one exactly when no animation was added before it. */
  lemma StartIsGood(s: State)
    requires Good(s)
    ensures Good(Started())
    ensures Good(Start(s)) <==> s.animations == []
  {}

  /** The counter never exceeds the list, and falls short of it by no more than was there at the start. */
  ghost predicate Lags(s: State, early: nat) {
    s.running <= |s.animations| <= s.running + early
  }

  lemma {:induction false} UnfinishedIsShorter(animations: seq<Anim>, done: Anim -> bool)
    ensures |Unfinished(animations, done)| <= |animations|
    decreases |animations|
  {
    if animations != [] { UnfinishedIsShorter(animations[..|animations| - 1], done); }
  }

  lemma StepLags(s: State, op: Op, early: nat)
    requires Lags(s, early)
    ensures Lags(Step(s, op), early)
  {
    if op.Framed? && s.running != 0 {
      var time := Timestamp(s.frame + 1);
      UnfinishedIsShorter(TickAll(s.animations, time), a => Finished(a, time));
    }
  }

  /** Over every session after a start, whatever it does: so animations_running is the length of the list, less
      at most the animations added before the start. */
  lemma {:induction false} CounterLags(s: State, ops: seq<Op>)
    ensures Lags(Run(Start(s), ops), |s.animations|)
    decreases |ops|
  {
    if ops != [] {
      CounterLags(s, ops[..|ops| - 1]);
      StepLags(Run(Start(s), ops[..|ops| - 1]), ops[|ops| - 1], |s.animations|);
    }
  }

  // ---------------------------------------------------------------- when an animation is due

  function Ceil(r: real): int {
    if r.Floor as real == r then r.Floor else r.Floor + 1
  }

  /** The first frame number whose timestamp reaches the duration. */
  function DueFrame(duration: real): int {
    Ceil(duration * 1000000.0 / FRAME_INTERVAL)
  }

  lemma DueFromFrame(frame: nat, duration: real)
    requires duration > 0.0
    ensures Timestamp(frame) >= duration <==> frame >= DueFrame(duration)
  {
    var x := duration * 1000000.0 / FRAME_INTERVAL;
    assert Timestamp(frame) >= duration <==> frame as real >= x;
  }

  /** A frame lasts 16667 microseconds: an animation of so many seconds is due from the first frame on that ends no
      earlier than it does. */
  lemma DueFrameIs(frame: nat, duration: real)
    requires duration > 0.0
    ensures frame >= DueFrame(duration) <==> 16667.0 * frame as real >= 1000000.0 * duration
  {
    DueFromFrame(frame, duration);
    assert Timestamp(frame) == 16667.0 * frame as real / 1000000.0;
    hide Timestamp, DueFrame;
  }

  lemma QuotientReachesOne(time: real, duration: real)
    requires duration > 0.0
    ensures time / duration >= 1.0 <==> time >= duration
  {
    var q := time / duration;
    assert q * duration == time;
    if q >= 1.0 { assert (q - 1.0) * duration >= 0.0; } else { assert (1.0 - q) * duration > 0.0; }
  }

  lemma DueAt(a: Anim, frame: nat)
    requires a.duration > 0.0
    ensures Due(a, Timestamp(frame)) <==> frame >= DueFrame(a.duration)
  {
    QuotientReachesOne(Timestamp(frame), a.duration);
    DueFromFrame(frame, a.duration);
  }

  // ---------------------------------------------------------------- what a frame completes

  /** The record's duration is over and no repeat is left: a record counted down in a frame is not done in it. */
  predicate Done(a: Anim, time: real) {
    0.0 <= a.duration <= time && a.repeat <= 0.0
  }

  lemma DueMeansOver(a: Anim, time: real)
    requires time >= 0.0
    ensures Due(a, time) <==> 0.0 <= a.duration <= time
  {
    if a.duration > 0.0 { QuotientReachesOne(time, a.duration); }
    if a.duration < 0.0 { NotOverNegative(time, a.duration); }
  }

  lemma NotOverNegative(time: real, duration: real)
    requires time >= 0.0 && duration < 0.0
    ensures time / duration < 1.0
  {
    var q := time / duration;
    assert q * duration == time;
    assert q > 0.0 ==> q * duration < 0.0;
  }

  /** The records a frame at this time completes, by their positions. */
  ghost function DonePositions(animations: seq<Anim>, time: real): set<nat> {
    set i: nat | i < |animations| && Done(animations[i], time)
  }

  /** The count of completed animations is the number of records that are done. */
  lemma {:induction false} CompletedExactly(animations: seq<Anim>, time: real)
    requires time >= 0.0
    ensures CompletedCount(animations, time) == |DonePositions(animations, time)|
    decreases |animations|
  {
    if animations == [] {
      assert DonePositions(animations, time) == {};
    } else {
      var n := |animations| - 1;
      CompletedExactly(animations[..n], time);
      DueMeansOver(animations[n], time);
      var before := DonePositions(animations[..n], time);
      assert DonePositions(animations, time) == if Done(animations[n], time) then before + {n} else before;
    }
  }

  ghost predicate SomeDone(animations: seq<Anim>, time: real) {
    exists a <- animations :: Done(a, time)
  }

  lemma CountIsPositive(animations: seq<Anim>, time: real)
    requires time >= 0.0
    ensures CompletedCount(animations, time) > 0 <==> SomeDone(animations, time)
  {
    CompletedExactly(animations, time);
    var done := DonePositions(animations, time);
    if done != {} {
      var i :| i in done;
      assert animations[i] in animations;
    }
    if SomeDone(animations, time) {
      var a :| a in animations && Done(a, time);
      var i :| 0 <= i < |animations| && animations[i] == a;
      assert i in done;
    }
  }

  lemma TimestampIsPositive(frame: nat)
    ensures Timestamp(frame) >= 0.0
  {}

  /** Every frame writes down how many records it completed. */
  lemma FrameHistory(s: State, memory: bool)
    requires Good(s)
    ensures Frame(s, memory).history == s.history + [|DonePositions(s.animations, Timestamp(s.frame + 1))|]
  {
    TimestampIsPositive(s.frame + 1);
    CompletedExactly(s.animations, Timestamp(s.frame + 1));
    if s.running == 0 { assert DonePositions(s.animations, Timestamp(s.frame + 1)) == {}; }
  }

  /** Without memory for its index list a frame keeps the records in front, whichever are done, and drops as many
      from the end as it completed. */
  lemma FrameWithoutMemory(s: State)
    requires Good(s)
    ensures var time := Timestamp(s.frame + 1);
            var s', done := Frame(s, false), |DonePositions(s.animations, time)|;
            && |s'.animations| == |s.animations| - done
            && forall i | 0 <= i < |s'.animations| :: s'.animations[i] == Tick(s.animations[i], time)
  {
    FrameHistory(s, false);
    TimestampIsPositive(s.frame + 1);
    CompletedExactly(s.animations, Timestamp(s.frame + 1));
  }

  /** A due record with repeats left loses one in a frame; every other record stays as it is. */
  lemma TickMeans(a: Anim, time: real)
    requires time >= 0.0
    ensures Tick(a, time).id == a.id && Tick(a, time).duration == a.duration
    ensures Tick(a, time).repeat == if a.repeat > 0.0 && 0.0 <= a.duration <= time then a.repeat - 1.0 else a.repeat
  {
    DueMeansOver(a, time);
  }

  /** The frame of this number found some record done. */
  ghost predicate CompletesIn(s: State, ops: seq<Op>, frame: nat) {
    exists i | 0 <= i < |ops| ::
      ops[i].Framed? && Run(s, ops[..i]).frame + 1 == frame
      && SomeDone(Run(s, ops[..i]).animations, Timestamp(frame))
  }

  lemma CompletesInPrefix(s: State, ops: seq<Op>, frame: nat)
    requires ops != []
    ensures var before := ops[..|ops| - 1];
            CompletesIn(s, ops, frame)
            <==> CompletesIn(s, before, frame)
                 || (ops[|ops| - 1].Framed? && Run(s, before).frame + 1 == frame
                     && SomeDone(Run(s, before).animations, Timestamp(frame)))
  {
    var n := |ops| - 1;
    assert forall i | 0 <= i < n :: ops[..n][..i] == ops[..i] && ops[..n][i] == ops[i];
    if CompletesIn(s, ops[..n], frame) {
      var i :| 0 <= i < n && ops[..n][i].Framed? && Run(s, ops[..n][..i]).frame + 1 == frame
               && SomeDone(Run(s, ops[..n][..i]).animations, Timestamp(frame));
      assert ops[i].Framed?;
    }
  }

  /** No frame completes anything before it happened. */
  lemma {:induction false} CompletesOnlySoFar(s: State, ops: seq<Op>, frame: nat)
    requires CompletesIn(s, ops, frame)
    ensures frame <= Run(s, ops).frame
    decreases |ops|
  {
    CompletesInPrefix(s, ops, frame);
    FrameNeverFalls(Run(s, ops[..|ops| - 1]), ops[|ops| - 1]);
    if CompletesIn(s, ops[..|ops| - 1], frame) { CompletesOnlySoFar(s, ops[..|ops| - 1], frame); }
  }

  lemma FrameNeverFalls(s: State, op: Op)
    ensures Step(s, op).frame == s.frame + if op.Framed? then 1 else 0
    ensures !op.Framed? ==> Step(s, op).history == s.history
  {}

  lemma StepTells(u: State, op: Op, k: nat)
    requires Good(u) && k < Step(u, op).frame
    ensures |Step(u, op).history| == Step(u, op).frame
    ensures k < u.frame ==> k < |u.history| && Step(u, op).history[k] == u.history[k]
    ensures k >= u.frame ==>
              op.Framed? && u.frame == k && (Step(u, op).history[k] > 0 <==> SomeDone(u.animations, Timestamp(k + 1)))
  {
    FrameNeverFalls(u, op);
    if op.Framed? {
      FrameHistory(u, op.memory);
      TimestampIsPositive(u.frame + 1);
      CompletedExactly(u.animations, Timestamp(u.frame + 1));
      CountIsPositive(u.animations, Timestamp(u.frame + 1));
    }
  }

  /** Over every session the history tells the frames that found some record done. */
  lemma {:induction false} HistoryTells(s: State, ops: seq<Op>, k: nat)
    requires Good(s) && AllowedRun(s, ops) && s.frame <= k < Run(s, ops).frame
    ensures |Run(s, ops).history| == Run(s, ops).frame
    ensures Run(s, ops).history[k] > 0 <==> CompletesIn(s, ops, k + 1)
    decreases |ops|
  {
    hide Good, Step, Allowed, SomeDone, CompletesIn;
    var u, last := LastStep(s, ops);
    var before := ops[..|ops| - 1];
    SessionIsGood(s, before);
    StepTells(u, last, k);
    CompletesInPrefix(s, ops, k + 1);
    if k < u.frame {
      HistoryTells(s, before, k);
    } else {
      NotYetCompleted(s, before, k + 1);
    }
  }

  lemma NotYetCompleted(s: State, ops: seq<Op>, frame: nat)
    requires Run(s, ops).frame < frame
    ensures !CompletesIn(s, ops, frame)
  {
    if CompletesIn(s, ops, frame) { CompletesOnlySoFar(s, ops, frame); }
  }

  // ---------------------------------------------------------------- the life of one animation

  predicate Gone(s: State, id: word) {
    forall a <- s.animations :: a.id != id
  }

  /** Frames that found the animation due, up to now; f is the first one. */
  function DueFrames(s: State, f: int): nat {
    if s.frame < f then 0 else s.frame - f + 1
  }

  /** Whether an animation of n repeats, first due in frame f, is still in the list. */
  ghost predicate StillThere(s: State, f: int, n: nat)
    requires |s.history| == s.frame && f > 0
  {
    var k := DueFrames(s, f);
    k < n || k == 0 || (k == n && s.history[f + n - 2] == 0)
  }

  ghost predicate Lives(s: State, id: word, duration: real, f: int, n: nat)
    requires |s.history| == s.frame && f > 0
  {
    if StillThere(s, f, n) then Anim(id, duration, (n - DueFrames(s, f)) as real) in s.animations
    else Gone(s, id)
  }

  /** Runs on which the animation is not removed by hand and cleanup has memory. */
  predicate Undisturbed(op: Op, id: word) {
    op != Removed(id) && op != Framed(false)
  }

  /** The first frame after frame0 that finds the animation due. */
  function FirstDue(frame0: nat, duration: real): (f: int)
    ensures f > frame0
  {
    if frame0 < DueFrame(duration) then DueFrame(duration) else frame0 + 1
  }

  /** Of a ticked list with distinct ids, the filter drops exactly the records that are done. */
  lemma FilterRecord(list: seq<Anim>, ticked: seq<Anim>, done: Anim -> bool, i: nat)
    requires DistinctIds(list) && |ticked| == |list| && i < |list|
    requires forall j | 0 <= j < |list| :: ticked[j].id == list[j].id
    ensures done(ticked[i]) ==> forall x <- Unfinished(ticked, done) :: x.id != list[i].id
    ensures !done(ticked[i]) ==> ticked[i] in Unfinished(ticked, done)
  {
    UnfinishedMember(ticked, done, ticked[i]);
    if done(ticked[i]) {
      forall x <- Unfinished(ticked, done) ensures x.id != list[i].id {
        UnfinishedMember(ticked, done, x);
      }
    }
  }

  /** What one frame does to one record. */
  lemma FrameRecord(s: State, a: Anim)
    requires Good(s) && a in s.animations
    ensures var time := Timestamp(s.frame + 1);
            var s', b := Frame(s, true), Tick(a, time);
            && (Completes(a, time) ==> s'.history[s.frame] > 0)
            && (if s'.history[s.frame] > 0 && Finished(b, time) then Gone(s', a.id) else b in s'.animations)
  {
    var time := Timestamp(s.frame + 1);
    var ticked, done := TickAll(s.animations, time), (x: Anim) => Finished(x, time);
    var i :| 0 <= i < |s.animations| && s.animations[i] == a;
    assert ticked[i] == Tick(a, time);
    FilterRecord(s.animations, ticked, done, i);
    if Completes(a, time) { CompletedMember(s.animations, time, a); }
  }

  lemma FrameKeepsGone(s: State, id: word)
    requires Gone(s, id)
    ensures Gone(Frame(s, true), id)
  {
    var s', time := Frame(s, true), Timestamp(s.frame + 1);
    var ticked, done := TickAll(s.animations, time), (x: Anim) => Finished(x, time);
    assert forall x <- ticked :: x.id != id;
    forall x <- s'.animations ensures x.id != id { UnfinishedMember(ticked, done, x); }
  }

  lemma FrameLives(s: State, id: word, duration: real, frame0: nat, n: nat)
    requires Good(s) && duration > 0.0 && frame0 <= s.frame
    requires Lives(s, id, duration, FirstDue(frame0, duration), n)
    ensures |Frame(s, true).history| == Frame(s, true).frame
    ensures Lives(Frame(s, true), id, duration, FirstDue(frame0, duration), n)
  {
    var f := FirstDue(frame0, duration);
    if StillThere(s, f, n) {
      var a := Anim(id, duration, (n - DueFrames(s, f)) as real);
      DueAt(a, s.frame + 1);
      FrameRecord(s, a);
    } else {
      FrameKeepsGone(s, id);
    }
  }

  /** Taking out the record of another id takes no other record. */
  lemma RemoveOther(animations: seq<Anim>, i: nat, id: word)
    requires i < |animations| && animations[i].id != id
    ensures var rest := animations[..i] + animations[i + 1..];
            forall a: Anim | a.id == id :: a in rest <==> a in animations
  {
    var rest := animations[..i] + animations[i + 1..];
    forall a: Anim | a.id == id ensures a in rest <==> a in animations {
      if a in animations {
        var j :| 0 <= j < |animations| && animations[j] == a;
        if j < i { assert rest[j] == a; } else { assert rest[j - 1] == a; }
      }
    }
  }

  /** A step that is no frame leaves the records of an id that is held as they are. */
  lemma OtherStepKeepsRecords(s: State, op: Op, id: word)
    requires Good(s) && Allowed(s, op) && Undisturbed(op, id) && !op.Framed? && id in s.held
    ensures var s' := Step(s, op);
            && s'.frame == s.frame && s'.history == s.history && id in s'.held
            && forall a: Anim | a.id == id :: a in s'.animations <==> a in s.animations
  {
    match op
    case Added(d, r, stored) => AddGood(s, d, r, stored);
    case Removed(other) =>
      var i := IndexOf(s.animations, other);
      if other != 0 && i < |s.animations| { RemoveOther(s.animations, i, id); }
  }

  lemma OtherStepLives(s: State, op: Op, id: word, duration: real, f: int, n: nat)
    requires Good(s) && Allowed(s, op) && Undisturbed(op, id) && !op.Framed? && id in s.held && f > 0
    requires Lives(s, id, duration, f, n)
    ensures |Step(s, op).history| == Step(s, op).frame
    ensures Lives(Step(s, op), id, duration, f, n) && id in Step(s, op).held
  {
    OtherStepKeepsRecords(s, op, id);
    hide Step, Allowed, Undisturbed;
  }

  /** What a run since frame0 keeps of an animation of n repeats. */
  ghost predicate Kept(s: State, id: word, duration: real, frame0: nat, n: nat) {
    Good(s) && frame0 <= s.frame && id in s.held && Lives(s, id, duration, FirstDue(frame0, duration), n)
  }

  lemma StartIsKept(s: State, id: word, duration: real, n: nat)
    requires Good(s) && Anim(id, duration, n as real) in s.animations
    ensures Kept(s, id, duration, s.frame, n)
  {}

  lemma FrameIsKept(s: State, id: word, duration: real, frame0: nat, n: nat)
    requires duration > 0.0 && Kept(s, id, duration, frame0, n)
    ensures Kept(Frame(s, true), id, duration, frame0, n)
  {
    FrameGood(s, true);
    FrameLives(s, id, duration, frame0, n);
  }

  lemma OtherIsKept(s: State, op: Op, id: word, duration: real, frame0: nat, n: nat)
    requires Kept(s, id, duration, frame0, n) && Allowed(s, op) && Undisturbed(op, id) && !op.Framed?
    ensures Kept(Step(s, op), id, duration, frame0, n)
  {
    StepGood(s, op);
    OtherStepLives(s, op, id, duration, FirstDue(frame0, duration), n);
  }

  lemma StepIsKept(s: State, op: Op, id: word, duration: real, frame0: nat, n: nat)
    requires duration > 0.0 && Kept(s, id, duration, frame0, n) && Allowed(s, op) && Undisturbed(op, id)
    ensures Kept(Step(s, op), id, duration, frame0, n)
  {
    hide Kept, Good, Allowed;
    if op.Framed? { FrameIsKept(s, id, duration, frame0, n); } else { OtherIsKept(s, op, id, duration, frame0, n); }
  }

  lemma {:induction false} RunLives(s: State, ops: seq<Op>, id: word, duration: real, n: nat)
    requires Good(s) && AllowedRun(s, ops) && duration > 0.0
    requires Anim(id, duration, n as real) in s.animations
    requires forall op <- ops :: Undisturbed(op, id)
    ensures Kept(Run(s, ops), id, duration, s.frame, n)
    decreases |ops|
  {
    hide Kept, Good, Allowed, Undisturbed, Step;
    if ops == [] {
      StartIsKept(s, id, duration, n);
    } else {
      var before, last := LastStep(s, ops);
      RunLives(s, ops[..|ops| - 1], id, duration, n);
      StepIsKept(before, last, id, duration, s.frame, n);
    }
  }

  /** When the animation is still in the list, and when it is gone. */
  lemma KeptTells(s: State, id: word, duration: real, frame0: nat, n: nat)
    requires Kept(s, id, duration, frame0, n)
    ensures |s.history| == s.frame
    ensures var f := FirstDue(frame0, duration);
            && (s.frame < f ==> !Gone(s, id))
            && (f <= s.frame ==>
                  (Gone(s, id) <==>
                     n == 0 || s.frame > f + n - 1 || (s.frame == f + n - 1 && s.history[f + n - 2] > 0)))
  {}

  lemma LifetimeFrom(s: State, id: word, duration: real, n: nat, ops: seq<Op>)
    requires Good(s) && AllowedRun(s, ops) && duration > 0.0 && Anim(id, duration, n as real) in s.animations
    requires forall op <- ops :: Undisturbed(op, id)
    ensures var s', f := Run(s, ops), FirstDue(s.frame, duration);
            && (s'.frame < f ==> !Gone(s', id))
            && (f <= s'.frame ==>
                  (Gone(s', id) <==>
                     n == 0 || s'.frame > f + n - 1 || (s'.frame == f + n - 1 && CompletesIn(s, ops, f + n - 1))))
  {
    hide Good, Kept, Gone, CompletesIn, Run, Undisturbed, AllowedRun;
    RunLives(s, ops, id, duration, n);
    var f := FirstDue(s.frame, duration);
    KeptTells(Run(s, ops), id, duration, s.frame, n);
    if n > 0 && Run(s, ops).frame == f + n - 1 { HistoryTells(s, ops, f + n - 2); }
  }

  /** An animation of whole repeat count n is in the list before frame f + n - 1 and never after it
      (before frame f when n is 0); whether it leaves in frame f + n - 1 itself or one frame later
      depends on whether that frame found some record done. */
  lemma Lifetime(s: State, duration: real, n: nat, ops: seq<Op>)
    requires Good(s) && Ids.CanTake(s.ids) && duration > 0.0
    requires var (s1, id) := Add(s, duration, n as real, true);
             AllowedRun(s1, ops) && forall op <- ops :: Undisturbed(op, id)
    ensures var (s1, id) := Add(s, duration, n as real, true);
            var s', f := Run(s1, ops), FirstDue(s.frame, duration);
            && (s'.frame < f ==> !Gone(s', id))
            && (f <= s'.frame ==>
                  (Gone(s', id) <==>
                     n == 0 || s'.frame > f + n - 1 || (s'.frame == f + n - 1 && CompletesIn(s1, ops, f + n - 1))))
  {
    var (s1, id) := Add(s, duration, n as real, true);
    AddGood(s, duration, n as real, true);
    hide Good, Gone, CompletesIn, Run, AllowedRun, FirstDue, Undisturbed;
    LifetimeFrom(s1, id, duration, n, ops);
  }

  // ---------------------------------------------------------------- an animation alone

  ghost predicate OnlyId(s: State, id: word) {
    forall a <- s.animations :: a.id == id
  }

  lemma FrameKeepsOnly(s: State, id: word)
    requires OnlyId(s, id)
    ensures OnlyId(Frame(s, true), id)
  {
    var time := Timestamp(s.frame + 1);
    var ticked, done := TickAll(s.animations, time), (x: Anim) => Finished(x, time);
    assert forall x <- ticked :: x.id == id;
    forall x <- Unfinished(ticked, done) ensures x.id == id { UnfinishedMember(ticked, done, x); }
  }

  lemma {:induction false} FramesKeepOnly(s: State, id: word, count: nat)
    requires OnlyId(s, id)
    ensures OnlyId(Run(s, Frames(count)), id)
    decreases count
  {
    if count > 0 {
      FramesKeepOnly(s, id, count - 1);
      assert Frames(count)[..count - 1] == Frames(count - 1);
      FrameKeepsOnly(Run(s, Frames(count - 1)), id);
    }
  }

  /** A record that is alone and has repeats left leaves nothing done. */
  lemma AloneIsNotDone(s: State, a: Anim, time: real)
    requires Good(s) && OnlyId(s, a.id) && a in s.animations && a.repeat > 0.0
    ensures !SomeDone(s.animations, time)
  {
    forall b <- s.animations ensures b == a {
      var i :| 0 <= i < |s.animations| && s.animations[i] == a;
      var j :| 0 <= j < |s.animations| && s.animations[j] == b;
      assert s.animations[i].id == s.animations[j].id;
    }
  }

  /** When the frame before its last repeat ends, it still has one. */
  lemma NotDoneBefore(s: State, id: word, duration: real, n: nat, i: nat)
    requires Good(s) && OnlyId(s, id) && Anim(id, duration, n as real) in s.animations && duration > 0.0 && n >= 1
    requires s.frame + i == FirstDue(s.frame, duration) + n - 2
    ensures !SomeDone(Run(s, Frames(i)).animations, Timestamp(s.frame + i + 1))
  {
    FramesAdvance(s, i);
    RunLives(s, Frames(i), id, duration, n);
    FramesKeepOnly(s, id, i);
    StillRepeats(Run(s, Frames(i)), id, duration, s.frame, n);
  }

  lemma StillRepeats(u: State, id: word, duration: real, frame0: nat, n: nat)
    requires Kept(u, id, duration, frame0, n) && OnlyId(u, id) && n >= 1
    requires u.frame == FirstDue(frame0, duration) + n - 2
    ensures !SomeDone(u.animations, Timestamp(u.frame + 1))
  {
    var f := FirstDue(frame0, duration);
    assert StillThere(u, f, n);
    AloneIsNotDone(u, Anim(id, duration, (n - DueFrames(u, f)) as real), Timestamp(u.frame + 1));
  }

  lemma NoneDoneInTime(s: State, id: word, duration: real, n: nat, count: nat)
    requires Good(s) && OnlyId(s, id) && Anim(id, duration, n as real) in s.animations && duration > 0.0 && n >= 1
    ensures !CompletesIn(s, Frames(count), FirstDue(s.frame, duration) + n - 1)
  {
    hide Good, OnlyId, SomeDone, Run, FirstDue;
    var ops, frame := Frames(count), FirstDue(s.frame, duration) + n - 1;
    forall i | 0 <= i < |ops|
      ensures !(ops[i].Framed? && Run(s, ops[..i]).frame + 1 == frame
                && SomeDone(Run(s, ops[..i]).animations, Timestamp(frame)))
    {
      assert ops[..i] == Frames(i);
      FramesAdvance(s, i);
      if s.frame + i + 1 == frame { NotDoneBefore(s, id, duration, n, i); }
    }
  }

  /** Alone in its session, an animation of n >= 1 repeats is in the list up to frame f + n - 1 and gone from
      frame f + n on, f being the first frame that finds it due. */
  lemma AloneLifetime(s: State, duration: real, n: nat, count: nat)
    requires Good(s) && s.animations == [] && Ids.CanTake(s.ids) && duration > 0.0 && n >= 1
    ensures var (s1, id) := Add(s, duration, n as real, true);
            Run(s1, Frames(count)).frame == s.frame + count
            && (Gone(Run(s1, Frames(count)), id) <==> s.frame + count >= FirstDue(s.frame, duration) + n)
  {
    var (s1, id) := Add(s, duration, n as real, true);
    AddGood(s, duration, n as real, true);
    FramesAdvance(s1, count);
    Lifetime(s, duration, n, Frames(count));
    NoneDoneInTime(s1, id, duration, n, count);
    hide Good, CompletesIn, Run, FirstDue, Gone;
  }

  // ---------------------------------------------------------------- repeat counts that never reach zero

  predicate Whole(r: real) {
    r >= 0.0 && r.Floor as real == r
  }

  /** The record is in the list with a repeat count that cannot count down to zero. */
  ghost predicate Stuck(s: State, id: word, duration: real) {
    exists a <- s.animations :: a.id == id && a.duration == duration && !Whole(a.repeat)
  }

  lemma FractionLessOne(r: real)
    requires !Whole(r) && r > 0.0
    ensures !Whole(r - 1.0)
  {
    var below := r - 1.0;
    assert Whole(below) ==> (below.Floor + 1) as real == r;
  }

  lemma TickKeepsFraction(a: Anim, time: real)
    requires !Whole(a.repeat)
    ensures !Whole(Tick(a, time).repeat) && Tick(a, time).repeat != 0.0
  {
    if a.repeat > 0.0 { FractionLessOne(a.repeat); }
    assert Whole(0.0);
  }

  lemma FrameKeepsStuck(s: State, id: word, duration: real)
    requires Good(s) && Stuck(s, id, duration)
    ensures Stuck(Frame(s, true), id, duration)
  {
    var a :| a in s.animations && a.id == id && a.duration == duration && !Whole(a.repeat);
    var time := Timestamp(s.frame + 1);
    FrameRecord(s, a);
    TickKeepsFraction(a, time);
    var b := Tick(a, time);
    assert b.id == id && b.duration == duration;
    assert b in Frame(s, true).animations;
  }

  lemma StepKeepsStuck(s: State, op: Op, id: word, duration: real)
    requires Good(s) && Allowed(s, op) && Undisturbed(op, id) && id in s.held && Stuck(s, id, duration)
    ensures Stuck(Step(s, op), id, duration) && id in Step(s, op).held
  {
    if op.Framed? {
      FrameKeepsStuck(s, id, duration);
    } else {
      OtherStepKeepsStuck(s, op, id, duration);
    }
  }

  lemma {:induction false} RunKeepsStuck(s: State, ops: seq<Op>, id: word, duration: real)
    requires Good(s) && AllowedRun(s, ops) && Stuck(s, id, duration) && id in s.held
    requires forall op <- ops :: Undisturbed(op, id)
    ensures Good(Run(s, ops)) && Stuck(Run(s, ops), id, duration) && id in Run(s, ops).held
    decreases |ops|
  {
    if ops != [] {
      var before, last := LastStep(s, ops);
      RunKeepsStuck(s, ops[..|ops| - 1], id, duration);
      StepGood(before, last);
      StepKeepsStuck(before, last, id, duration);
    }
  }

  lemma OtherStepKeepsStuck(s: State, op: Op, id: word, duration: real)
    requires Good(s) && Allowed(s, op) && Undisturbed(op, id) && !op.Framed? && id in s.held
    requires Stuck(s, id, duration)
    ensures Stuck(Step(s, op), id, duration) && id in Step(s, op).held
  {
    OtherStepKeepsRecords(s, op, id);
    var a :| a in s.animations && a.id == id && a.duration == duration && !Whole(a.repeat);
    assert a in Step(s, op).animations;
  }

  /** The run of count frames and nothing else. */
  function Frames(count: nat): (ops: seq<Op>)
    ensures |ops| == count
  {
    seq(count, i => Framed(true))
  }

  lemma {:induction false} FramesAdvance(s: State, count: nat)
    ensures AllowedRun(s, Frames(count)) && Run(s, Frames(count)).frame == s.frame + count
    decreases count
  {
    if count > 0 {
      FramesAdvance(s, count - 1);
      assert Frames(count)[..count - 1] == Frames(count - 1);
    }
  }

  /** Some run of frames gets rid of an animation exactly when its repeat count is a whole number. */
  lemma LeavesExactlyWhenWhole(s: State, duration: real, repeat: real)
    requires Good(s) && Ids.CanTake(s.ids) && duration > 0.0
    ensures var (s1, id) := Add(s, duration, repeat, true);
            (exists ops | AllowedRun(s1, ops) && (forall op <- ops :: Undisturbed(op, id)) :: Gone(Run(s1, ops), id))
            <==> Whole(repeat)
  {
    var (s1, id) := Add(s, duration, repeat, true);
    AddGood(s, duration, repeat, true);
    if Whole(repeat) {
      var n: nat := repeat.Floor;
      var ops := Frames(FirstDue(s.frame, duration) + n - s.frame);
      FramesAdvance(s1, |ops|);
      Lifetime(s, duration, n, ops);
      assert AllowedRun(s1, ops) && (forall op <- ops :: Undisturbed(op, id)) && Gone(Run(s1, ops), id);
    } else {
      forall ops | AllowedRun(s1, ops) && (forall op <- ops :: Undisturbed(op, id))
        ensures !Gone(Run(s1, ops), id)
      {
        assert Stuck(s1, id, duration);
        RunKeepsStuck(s1, ops, id, duration);
      }
    }
  }
}
