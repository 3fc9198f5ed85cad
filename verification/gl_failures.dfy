/** What the translator answers, and what reaches the device, when calls are illegal or requests are refused
    (FB/VMOpenGLTranslator.cpp:249-314, 349-424). */
module GLFailures {
  import opened Words
  import opened GLSemantics
  import opened GLTranslator
  import opened GLCorrectness

  /** The device takes the next request but k; the first one only under a handle it does not know. */
  predicate Takes(t: State, g: Gpu, k: nat) {
    g.accepts(g.requests + k) && (k == 0 ==> t.next !in g.handles)
  }

  /** What a flush needs: the buffer, its contents, the element layout and the draw; the answers to the two bindings
      before the draw are not looked at. */
  predicate FlushGoesThrough(t: State, g: Gpu) {
    t.batch == [] || (t.attached && Takes(t, g, 0) && Takes(t, g, 1) && Takes(t, g, 2) && Takes(t, g, 5))
  }

  predicate IsVertex(call: Call) {
    call.Vertex2? || call.Vertex3? || call.Vertex4?
  }

  /** A call is legal outside Begin and End, inside, or anywhere. */
  predicate Legal(inside: bool, call: Call) {
    (call.Begin? ==> !inside) && (call.End? || IsVertex(call) ==> inside)
  }

  lemma FlushAnswers(t: State, g: Gpu)
    requires |t.batch| <= MAX_BATCH
    ensures Flush(t, g).2 == if FlushGoesThrough(t, g) then Success else if !t.attached then NotReady else Error
  {}

  /** An illegal call is an error and changes nothing. Of the legal ones only End can fail, when its flush does: a
      vertex is recorded whatever becomes of the full batch before it. */
  lemma AnswersTell(t: State, g: Gpu, call: Call)
    requires |t.batch| <= MAX_BATCH
    ensures var (after, device, status) := Translate(t, g, call);
            && (!Legal(t.inside, call) ==> status == Error && after == t && device == g)
            && (Legal(t.inside, call) ==> (status == Success <==> (call.End? ==> FlushGoesThrough(t, g))))
            && (Legal(t.inside, call) && status == NotReady ==> !t.attached)
  {
    if call.End? { FlushAnswers(t.(inside := false), g); }
    hide Flush;
  }

  /** The events among these that the device took, when they were requested one after the other. */
  function Taken(t: State, g: Gpu, events: seq<Event>): seq<Event> {
    if events == [] then []
    else
      var k := |events| - 1;
      Taken(t, g, events[..k]) + if Takes(t, g, k) then [events[k]] else []
  }

  /** How many requests a flush makes: up to the first of the first three that is refused, or all six. */
  function Attempts(t: State, g: Gpu): nat {
    if !Takes(t, g, 0) then 1 else if !Takes(t, g, 1) then 2 else if !Takes(t, g, 2) then 3 else 6
  }

  /** The device after the first of these requests. */
  function After(t: State, g: Gpu, events: seq<Event>, k: nat): Gpu
    requires k <= |events|
  {
    g.(log := g.log + Taken(t, g, events[..k]), requests := g.requests + k,
       handles := if k > 0 && Takes(t, g, 0) then g.handles + {t.next} else g.handles)
  }

  lemma TakenOne(t: State, g: Gpu, events: seq<Event>, k: nat)
    requires k < |events|
    ensures Taken(t, g, events[..k + 1]) == Taken(t, g, events[..k]) + if Takes(t, g, k) then [events[k]] else []
  {
    assert events[..k + 1][..k] == events[..k];
  }

  lemma CreateFirst(t: State, g: Gpu, events: seq<Event>, size: nat)
    requires events != [] && events[0] == Created(t.next, size)
    ensures CreateOn(g, t.next, size) == (After(t, g, events, 1), Takes(t, g, 0))
  {
    TakenOne(t, g, events, 0);
    assert Taken(t, g, events[..1]) == if Takes(t, g, 0) then [events[0]] else [];
    assert g.log + [] == g.log;
  }

  lemma SubmitAppends(g: Gpu, words: seq<word>)
    ensures SubmitTo(g, words)
            == (g.(log := g.log + if g.accepts(g.requests) then [Submitted(words)] else [], requests := g.requests + 1),
                g.accepts(g.requests))
  {
    assert g.log + [] == g.log;
  }

  lemma AfterNext(t: State, g: Gpu, events: seq<Event>, k: nat)
    requires 0 < k < |events|
    ensures var before := After(t, g, events, k);
            After(t, g, events, k + 1)
            == before.(log := before.log + if Takes(t, g, k) then [events[k]] else [], requests := before.requests + 1)
  {
    hide Taken, Takes;
    TakenOne(t, g, events, k);
    Regroup(g.log, Taken(t, g, events[..k]), if Takes(t, g, k) then [events[k]] else []);
  }

  lemma Regroup(a: seq<Event>, b: seq<Event>, c: seq<Event>)
    ensures (a + b) + c == a + (b + c)
  {}

  lemma SubmitNext(t: State, g: Gpu, events: seq<Event>, k: nat, words: seq<word>)
    requires 0 < k < |events| && events[k] == Submitted(words)
    ensures SubmitTo(After(t, g, events, k), words) == (After(t, g, events, k + 1), Takes(t, g, k))
  {
    hide Taken, SubmitTo;
    SubmitAppends(After(t, g, events, k), words);
    AfterNext(t, g, events, k);
  }

  lemma NewBufferReaches(t: State, g: Gpu, events: seq<Event>, data: seq<word>)
    requires |data| <= 12 * MAX_BATCH && |events| == 6
    requires events[0] == Created(t.next, 4 * |data|) && events[1] == Submitted(InlineWrite(t.next, data))
    ensures NewBuffer(g, t.next, data)
            == (After(t, g, events, if Takes(t, g, 0) then 2 else 1), Takes(t, g, 0) && Takes(t, g, 1))
  {
    CreateFirst(t, g, events, 4 * |data|);
    SubmitNext(t, g, events, 1, InlineWrite(t.next, data));
    hide InlineWrite, After, Takes, CreateOn, SubmitTo;
  }

  lemma DrawReaches(t: State, g: Gpu, events: seq<Event>, elements: word, count: nat, mode: word)
    requires 0 < count <= MAX_BATCH && |events| == 6
    requires events[3] == Submitted(BindElements(elements)) && events[4] == Submitted(SetVertexBuffer(t.next))
    requires events[5] == Submitted(DrawBatch(count, mode))
    ensures DrawFrom(After(t, g, events, 3), t.next, elements, count, mode)
            == (After(t, g, events, 6), Takes(t, g, 5))
  {
    SubmitNext(t, g, events, 3, BindElements(elements));
    SubmitNext(t, g, events, 4, SetVertexBuffer(t.next));
    SubmitNext(t, g, events, 5, DrawBatch(count, mode));
    hide BindElements, SetVertexBuffer, DrawBatch, After, Takes, SubmitTo;
  }

  /** Of the six events of a flush those reach the device that it takes, up to the point where the flush gives up;
      one handle is used up by then, or three once the contents are there. */
  lemma FlushReaches(t: State, g: Gpu)
    requires 0 < |t.batch| <= MAX_BATCH && t.attached
    ensures var (after, device, _) := Flush(t, g);
            var second := Wrap(t.next + 1);
            var third := Wrap(second + 1);
            && device == After(t, g, FlushEvents(t.next, third, t.batch, t.mode), Attempts(t, g))
            && after == t.(next := if Attempts(t, g) < 3 then second else Wrap(third + 1))
  {
    var vbo, elements := t.next, Wrap(Wrap(t.next + 1) as int + 1);
    var events := FlushEvents(vbo, elements, t.batch, t.mode);
    NewBufferReaches(t, g, events, Pack(t.batch));
    SubmitNext(t, g, events, 2, CreateElements(elements));
    DrawReaches(t, g, events, elements, |t.batch|, PipeMode(t.mode));
    hide Wrap, Pack, InlineWrite, CreateElements, BindElements, SetVertexBuffer, DrawBatch, PipeMode;
    hide FlushEvents, After, Takes, Taken, CreateOn, SubmitTo, NewBuffer, DrawFrom;
  }
}
