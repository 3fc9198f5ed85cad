/** Running the emitted commands on a host gives the meaning of the OpenGL calls: exactly when
    no Begin/End group has more vertices than one inline write can declare in its header. */
module GLCorrectness {
  import opened Words
  import opened GLSemantics
  import opened VirglHost
  import opened GLTranslator

  /** An inline write declares 11 + 12 * n words in 16 bits. */
  const MAX_INLINE := 5460

  // ---------------------------------------------------------------- runs

  function Occur(h: Host, e: Event): Host {
    match e
    case Created(handle, size) => CreateBuffer(h, handle, size)
    case Submitted(words) => Submit(h, words)
  }

  function Replay(step: (Host, Event) -> Host, h: Host, log: seq<Event>): Host
    decreases |log|
  {
    if log == [] then h else step(Replay(step, h, log[..|log| - 1]), log[|log| - 1])
  }

  function RunTranslator(t: State, g: Gpu, calls: seq<Call>): (r: (State, Gpu))
    requires |t.batch| <= MAX_BATCH
    ensures |r.0.batch| <= MAX_BATCH
    decreases |calls|
  {
    if calls == [] then (t, g)
    else
      var (t1, g1) := RunTranslator(t, g, calls[..|calls| - 1]);
      var (t2, g2, _) := Translate(t1, g1, calls[|calls| - 1]);
      (t2, g2)
  }

  /** The attributes the translator starts with. */
  function GLStart(): GL {
    GL(false, Group(0, []), Initial().color, Initial().texcoord, [])
  }

  // ---------------------------------------------------------------- what a batch draws

  function Cells(v: Vec4): seq<Option<word>> {
    [Some(v.x), Some(v.y), Some(v.z), Some(v.w)]
  }

  function Image(v: Vertex): Fetched {
    [Cells(v.position), Cells(v.color), Cells(v.texcoord)]
  }

  function Blank(): seq<Option<word>> {
    [None, None, None, None]
  }

  function Unwritten(): Fetched {
    [Blank(), Blank(), Blank()]
  }

  function Images(vertices: seq<Vertex>): (r: seq<Fetched>)
    ensures |r| == |vertices|
  {
    seq(|vertices|, i requires 0 <= i < |vertices| => Image(vertices[i]))
  }

  /** The draw a host makes of a batch: its vertices, or blanks when the upload did not fit its header. */
  function Wire(mode: word, batch: seq<Vertex>): Draw {
    Draw(PipeMode(mode), if |batch| <= MAX_INLINE then Images(batch) else seq(|batch|, i => Unwritten()))
  }

  function WireBatches(mode: word, batches: seq<seq<Vertex>>): (r: seq<Draw>)
    ensures |r| == |batches|
  {
    seq(|batches|, i requires 0 <= i < |batches| => Wire(mode, batches[i]))
  }

  function WireGroups(groups: seq<Group>): seq<Draw> {
    if groups == [] then []
    else
      var g := groups[|groups| - 1];
      WireGroups(groups[..|groups| - 1]) + WireBatches(g.mode, Batches(g.vertices))
  }

  /** Every draw due after some calls: the finished groups and the full batches of an open one. */
  function WireAll(gl: GL): seq<Draw> {
    WireGroups(gl.finished) +
    (if gl.inside then WireBatches(gl.current.mode, Batches(gl.current.vertices[..Sent(|gl.current.vertices|)]))
     else [])
  }

  // ---------------------------------------------------------------- one flush on the host

  function Somes(data: seq<word>): seq<Option<word>> {
    seq(|data|, i requires 0 <= i < |data| => Some(data[i]))
  }

  function FlushEvents(vbo: word, elements: word, batch: seq<Vertex>, mode: word): seq<Event>
    requires 0 < |batch| <= MAX_BATCH
  {
    [Created(vbo, STRIDE * |batch|),
     Submitted(InlineWrite(vbo, Pack(batch))),
     Submitted(CreateElements(elements)),
     Submitted(BindElements(elements)),
     Submitted(SetVertexBuffer(vbo)),
     Submitted(DrawBatch(|batch|, PipeMode(mode)))]
  }

  lemma InlineDeclares(handle: word, data: seq<word>)
    requires |data| <= 12 * MAX_BATCH
    ensures InlineWrite(handle, data)[0] / 65536 == (11 + |data|) % 65536
    ensures InlineWrite(handle, data)[0] % 256 == RESOURCE_INLINE_WRITE
    ensures InlineWrite(handle, data)[0] / 256 % 256 == 0
    ensures InlineWrite(handle, data)[1..12] == [handle, 0, 0, 0, 0, 0, 0, 0, 4 * |data|, 1, 1]
  {
    HeaderFields(RESOURCE_INLINE_WRITE, 11 + |data|);
  }

  /** An inline write declares its true length exactly for batches of at most MAX_INLINE vertices. */
  lemma DeclaredLength(handle: word, batch: seq<Vertex>)
    requires |batch| <= MAX_BATCH
    ensures var words := InlineWrite(handle, Pack(batch));
            words[0] / 65536 == |words| - 1 <==> |batch| <= MAX_INLINE
  {
    InlineDeclares(handle, Pack(batch));
  }

  lemma UploadFits(h: Host, vbo: word, data: seq<word>)
    requires 11 + |data| < 65536
    requires vbo in h.resources && |h.resources[vbo].cells| == |data|
    ensures Submit(h, InlineWrite(vbo, data)) ==
            h.(resources := h.resources[vbo := h.resources[vbo].(cells := Somes(data))])
  {
    hide Submit, Header;
    var payload := [vbo, 0, 0, 0, 0, 0, 0, 0, 4 * |data|, 1, 1] + data;
    assert InlineWrite(vbo, data) == [Header(RESOURCE_INLINE_WRITE, |payload|)] + payload;
    SubmitOne(h, RESOURCE_INLINE_WRITE, payload);
    assert payload[11..] == data;
    assert (4 * |data| + 3) / 4 == |data|;
    var cells := h.resources[vbo].cells;
    assert cells[..0] + Somes(data) + cells[|data|..] == Somes(data);
  }

  /** When the length does not fit the header, the host drops the upload. */
  lemma UploadDropped(h: Host, vbo: word, data: seq<word>)
    requires 65536 <= 11 + |data| && |data| <= 12 * MAX_BATCH
    ensures Submit(h, InlineWrite(vbo, data)) == h
  {
    var words := InlineWrite(vbo, data);
    InlineDeclares(vbo, data);
    var length := words[0] / 65536;
    assert length == 11 + |data| - 65536;
    var payload := words[1..1 + length];
    if length >= 11 {
      assert payload[8] == words[9] == 4 * |data|;
      assert |payload[11..]| != (4 * |data| + 3) / 4;
    }
    assert Inline(h, payload) == None;
  }

  function Elements(): seq<Element> {
    [Element(0, 0, 0, FORMAT_R32G32B32A32_FLOAT),
     Element(16, 0, 0, FORMAT_R32G32B32A32_FLOAT),
     Element(32, 0, 0, FORMAT_R32G32B32A32_FLOAT)]
  }

  lemma ElementsParsed()
    ensures ParseElements(ElementWords()) == Elements()
  {
    var parsed := ParseElements(ElementWords());
    assert |parsed| == 3;
    assert parsed[0] == Elements()[0];
    assert parsed[1] == Elements()[1];
    assert parsed[2] == Elements()[2];
  }

  lemma ElementsDescribed(h: Host, handle: word)
    requires h.dialect == TypeInPayload
    ensures Submit(h, CreateElements(handle)) == h.(elements := h.elements[handle := Elements()])
  {
    hide Submit, Header;
    var payload := [handle, OBJECT_VERTEX_ELEMENTS] + ElementWords();
    assert CreateElements(handle) == [Header(CREATE_OBJECT, |payload|)] + payload;
    SubmitOne(h, CREATE_OBJECT, payload);
    assert payload[2..] == ElementWords();
    ElementsParsed();
  }

  lemma ElementsBound(h: Host, handle: word)
    requires h.dialect == TypeInPayload && handle in h.elements
    ensures Submit(h, BindElements(handle)) == h.(bound := Some(handle))
  {
    hide Submit, Header;
    var payload := [handle, OBJECT_VERTEX_ELEMENTS];
    assert BindElements(handle) == [Header(BIND_OBJECT, |payload|)] + payload;
    SubmitOne(h, BIND_OBJECT, payload);
  }

  lemma SetBufferExecutes(h: Host, vbo: word)
    ensures Execute(h, SET_VERTEX_BUFFERS, 0, [STRIDE, 0, vbo, 0])
            == if h.dialect == BuffersInTriples then None else Some(h.(buffer := Some(VertexBuffer(STRIDE, 0, vbo))))
  {}

  lemma SetBufferSubmits(h: Host, vbo: word)
    ensures Submit(h, SetVertexBuffer(vbo))
            == if h.dialect == BuffersInTriples then h else h.(buffer := Some(VertexBuffer(STRIDE, 0, vbo)))
  {
    hide Submit, Execute, Header;
    var payload := [STRIDE, 0, vbo, 0];
    assert SetVertexBuffer(vbo) == [Header(SET_VERTEX_BUFFERS, |payload|)] + payload;
    SubmitOne(h, SET_VERTEX_BUFFERS, payload);
    SetBufferExecutes(h, vbo);
  }

  lemma BufferSet(h: Host, vbo: word)
    requires h.dialect != BuffersInTriples
    ensures Submit(h, SetVertexBuffer(vbo)) == h.(buffer := Some(VertexBuffer(STRIDE, 0, vbo)))
  {
    hide Submit, SetVertexBuffer;
    SetBufferSubmits(h, vbo);
  }

  lemma BufferRefused(h: Host, vbo: word)
    requires h.dialect == BuffersInTriples
    ensures Submit(h, SetVertexBuffer(vbo)) == h
  {
    hide Submit, SetVertexBuffer;
    SetBufferSubmits(h, vbo);
  }

  lemma BatchDrawn(h: Host, count: nat, mode: word)
    requires 0 < count <= MAX_BATCH
    ensures Submit(h, DrawBatch(count, mode)) ==
            match DrawVbo(h, [0, count, mode, 0, 1, 0, 0, 0, 0, 0, count - 1]) { case None => h case Some(next) => next }
  {
    hide Submit, DrawVbo, Header;
    var payload := [0, count, mode, 0, 1, 0, 0, 0, 0, 0, count - 1];
    assert DrawBatch(count, mode) == [Header(DRAW_VBO, |payload|)] + payload;
    SubmitOne(h, DRAW_VBO, payload);
  }

  lemma CellImage(r: Resource, batch: seq<Vertex>, i: nat, c: nat, at: nat)
    requires r.cells == Somes(Pack(batch)) && i < |batch| && c < 12 && at == 48 * i + 4 * c
    ensures FetchCell(r, at) == Some(Component(batch[i], c))
  {
    assert at == 4 * (12 * i + c);
    assert (12 * i + c) / 12 == i && (12 * i + c) % 12 == c;
  }

  lemma CellsFetched(r: Resource, at: nat, v: Vec4)
    requires FetchCell(r, at) == Some(v.x) && FetchCell(r, at + 4) == Some(v.y)
    requires FetchCell(r, at + 8) == Some(v.z) && FetchCell(r, at + 12) == Some(v.w)
    ensures FetchAttribute(r, at) == Cells(v)
  {}

  function Attribute(v: Vertex, e: nat): Vec4 {
    if e == 0 then v.position else if e == 1 then v.color else v.texcoord
  }

  lemma AttributeComponents(v: Vertex, e: nat)
    requires e < 3
    ensures var a := Attribute(v, e);
            && Component(v, 4 * e) == a.x && Component(v, 4 * e + 1) == a.y
            && Component(v, 4 * e + 2) == a.z && Component(v, 4 * e + 3) == a.w
  {}

  lemma AttributeFetched(r: Resource, batch: seq<Vertex>, i: nat, e: nat, at: nat)
    requires r.cells == Somes(Pack(batch)) && i < |batch| && e < 3 && at == 48 * i + 16 * e
    ensures FetchAttribute(r, at) == Cells(Attribute(batch[i], e))
  {
    CellImage(r, batch, i, 4 * e, at);
    CellImage(r, batch, i, 4 * e + 1, at + 4);
    CellImage(r, batch, i, 4 * e + 2, at + 8);
    CellImage(r, batch, i, 4 * e + 3, at + 12);
    AttributeComponents(batch[i], e);
    CellsFetched(r, at, Attribute(batch[i], e));
  }

  lemma VertexFetched(r: Resource, vbo: word, i: nat, image: Fetched)
    requires |image| == 3
    requires image[0] == FetchAttribute(r, 48 * i)
    requires image[1] == FetchAttribute(r, 48 * i + 16)
    requires image[2] == FetchAttribute(r, 48 * i + 32)
    ensures FetchVertex(r, Elements(), VertexBuffer(STRIDE, 0, vbo), i) == image
  {
    hide FetchAttribute, FetchCell;
    var fetched := FetchVertex(r, Elements(), VertexBuffer(STRIDE, 0, vbo), i);
    assert fetched[0] == image[0] && fetched[1] == image[1] && fetched[2] == image[2];
  }

  lemma FetchesImage(r: Resource, batch: seq<Vertex>, vbo: word, i: nat)
    requires r.cells == Somes(Pack(batch)) && i < |batch|
    ensures FetchVertex(r, Elements(), VertexBuffer(STRIDE, 0, vbo), i) == Image(batch[i])
  {
    AttributeFetched(r, batch, i, 0, 48 * i);
    AttributeFetched(r, batch, i, 1, 48 * i + 16);
    AttributeFetched(r, batch, i, 2, 48 * i + 32);
    VertexFetched(r, vbo, i, Image(batch[i]));
  }

  lemma FetchesBlank(r: Resource, n: nat, vbo: word, i: nat)
    requires r.cells == seq(n, j => None)
    ensures FetchVertex(r, Elements(), VertexBuffer(STRIDE, 0, vbo), i) == Unwritten()
  {
    VertexFetched(r, vbo, i, Unwritten());
  }

  /** A draw over the freshly created buffer fetches the batch, or blanks when the upload was dropped. */
  lemma DrawsWire(h: Host, vbo: word, batch: seq<Vertex>, mode: word)
    requires 0 < |batch| <= MAX_BATCH
    requires h.bound.Some? && h.bound.value in h.elements && h.elements[h.bound.value] == Elements()
    requires h.buffer == Some(VertexBuffer(STRIDE, 0, vbo)) && vbo in h.resources
    requires h.resources[vbo].cells == if |batch| <= MAX_INLINE then Somes(Pack(batch)) else seq(12 * |batch|, j => None)
    ensures Submit(h, DrawBatch(|batch|, PipeMode(mode))) == h.(draws := h.draws + [Wire(mode, batch)])
  {
    hide Submit, DrawBatch, FetchVertex, Pack, Somes;
    BatchDrawn(h, |batch|, PipeMode(mode));
    FetchesWire(h.resources[vbo], vbo, batch, mode);
  }

  lemma FetchesWire(r: Resource, vbo: word, batch: seq<Vertex>, mode: word)
    requires r.cells == if |batch| <= MAX_INLINE then Somes(Pack(batch)) else seq(12 * |batch|, j => None)
    ensures seq(|batch|, i requires 0 <= i < |batch| => FetchVertex(r, Elements(), VertexBuffer(STRIDE, 0, vbo), 0 + i))
            == Wire(mode, batch).vertices
  {
    forall i: nat | i < |batch|
      ensures FetchVertex(r, Elements(), VertexBuffer(STRIDE, 0, vbo), i) == Wire(mode, batch).vertices[i]
    {
      if |batch| <= MAX_INLINE { FetchesImage(r, batch, vbo, i); } else { FetchesBlank(r, 12 * |batch|, vbo, i); }
    }
  }

  /** One flush, replayed: a fresh buffer of exactly the batch's bytes, then one draw that reads it. */
  lemma FlushDraws(h: Host, vbo: word, elements: word, batch: seq<Vertex>, mode: word) returns (h': Host)
    requires h.dialect == TypeInPayload && 0 < |batch| <= MAX_BATCH
    ensures h' == Replay(Occur, h, FlushEvents(vbo, elements, batch, mode))
    ensures h'.dialect == TypeInPayload && h'.draws == h.draws + [Wire(mode, batch)]
    ensures h'.buffer == Some(VertexBuffer(STRIDE, 0, vbo)) && vbo in h'.resources
    ensures h'.resources[vbo].size == 48 * |batch|
    ensures |batch| <= MAX_INLINE ==> h'.resources[vbo].cells == Somes(Pack(batch))
  {
    hide Submit, Wire, InlineWrite, CreateElements, BindElements, SetVertexBuffer, DrawBatch, PipeMode, Pack;
    var h1 := CreateBuffer(h, vbo, STRIDE * |batch|);
    var h2 := Submit(h1, InlineWrite(vbo, Pack(batch)));
    assert |h1.resources[vbo].cells| == 12 * |batch|;
    if |batch| <= MAX_INLINE {
      UploadFits(h1, vbo, Pack(batch));
    } else {
      UploadDropped(h1, vbo, Pack(batch));
    }
    var h3 := Submit(h2, CreateElements(elements));
    ElementsDescribed(h2, elements);
    var h4 := Submit(h3, BindElements(elements));
    ElementsBound(h3, elements);
    var h5 := Submit(h4, SetVertexBuffer(vbo));
    BufferSet(h4, vbo);
    h' := Submit(h5, DrawBatch(|batch|, PipeMode(mode)));
    DrawsWire(h5, vbo, batch, mode);
    ReplaySix(h, FlushEvents(vbo, elements, batch, mode));
  }

  lemma ReplaySix(h: Host, log: seq<Event>)
    requires |log| == 6
    ensures Replay(Occur, h, log) == Occur(Occur(Occur(Occur(Occur(Occur(h, log[0]), log[1]), log[2]), log[3]), log[4]), log[5])
  {
    var h1 := Occur(h, log[0]);
    var h2 := Occur(h1, log[1]);
    var h3 := Occur(h2, log[2]);
    var h4 := Occur(h3, log[3]);
    var h5 := Occur(h4, log[4]);
    var h6 := Occur(h5, log[5]);
    ReplaySteps(Occur, [h, h1, h2, h3, h4, h5, h6], log);
  }

  /** A list of states each a step after the one before is what Replay goes through. */
  lemma {:induction false} ReplaySteps(step: (Host, Event) -> Host, states: seq<Host>, log: seq<Event>)
    requires |states| == |log| + 1
    requires forall i | 0 <= i < |log| :: states[i + 1] == step(states[i], log[i])
    ensures Replay(step, states[0], log) == states[|log|]
    decreases |log|
  {
    if log != [] { ReplaySteps(step, states[..|log|], log[..|log| - 1]); }
  }

  // ---------------------------------------------------------------- whole runs

  ghost predicate AcceptsAll(g: Gpu) {
    forall k: nat :: g.accepts(k)
  }

  /** No handle from next on is in use. */
  ghost predicate FreshFrom(g: Gpu, next: int) {
    forall handle <- g.handles :: handle < next
  }

  lemma BufferLogs(g: Gpu, vbo: word, data: seq<word>)
    requires AcceptsAll(g) && vbo !in g.handles && |data| <= 12 * MAX_BATCH
    ensures NewBuffer(g, vbo, data)
            == (g.(log := g.log + [Created(vbo, 4 * |data|), Submitted(InlineWrite(vbo, data))],
                   requests := g.requests + 2, handles := g.handles + {vbo}), true)
  {
    hide InlineWrite;
    var first, second := Created(vbo, 4 * |data|), Submitted(InlineWrite(vbo, data));
    assert g.log + [first] + [second] == g.log + [first, second];
  }

  lemma DrawLogs(g: Gpu, vbo: word, elements: word, count: nat, mode: word)
    requires AcceptsAll(g) && 0 < count <= MAX_BATCH
    ensures DrawFrom(g, vbo, elements, count, mode)
            == (g.(log := g.log + [Submitted(BindElements(elements)), Submitted(SetVertexBuffer(vbo)),
                                   Submitted(DrawBatch(count, mode))], requests := g.requests + 3), true)
  {
    hide BindElements, SetVertexBuffer, DrawBatch;
    var x, y := Submitted(BindElements(elements)), Submitted(SetVertexBuffer(vbo));
    var z := Submitted(DrawBatch(count, mode));
    assert g.log + [x] + [y] + [z] == g.log + [x, y, z];
  }

  lemma FlushLogs(t: State, g: Gpu)
    requires t.attached && 0 < |t.batch| <= MAX_BATCH && t.next + 3 < 0x1_0000_0000
    requires AcceptsAll(g) && FreshFrom(g, t.next)
    ensures var (t', g', status) := Flush(t, g);
            && t' == t.(next := t.next + 3) && status == Success
            && g'.log == g.log + FlushEvents(t.next, t.next + 2, t.batch, t.mode)
            && AcceptsAll(g') && FreshFrom(g', t'.next)
  {
    hide InlineWrite, Pack, CreateElements, BindElements, SetVertexBuffer, DrawBatch, PipeMode, NewBuffer, DrawFrom;
    BufferLogs(g, t.next, Pack(t.batch));
    var g1 := NewBuffer(g, t.next, Pack(t.batch)).0;
    var g2 := SubmitTo(g1, CreateElements(t.next + 2)).0;
    DrawLogs(g2, t.next, t.next + 2, |t.batch|, PipeMode(t.mode));
    assert Flush(t, g).1.log == g.log + FlushEvents(t.next, t.next + 2, t.batch, t.mode);
  }

  lemma {:induction false} ReplayAppend(step: (Host, Event) -> Host, h: Host, a: seq<Event>, b: seq<Event>)
    ensures Replay(step, h, a + b) == Replay(step, Replay(step, h, a), b)
    decreases |b|
  {
    if b == [] {
      assert a + b == a;
    } else {
      ReplayAppend(step, h, a, b[..|b| - 1]);
      assert (a + b)[..|a + b| - 1] == a + b[..|b| - 1];
    }
  }

  /** A host that turns the events of a flush into one draw of the batch. */
  ghost predicate DrawsBatches(step: (Host, Event) -> Host) {
    forall h: Host, vbo, elements, batch, mode {:trigger Replay(step, h, FlushEvents(vbo, elements, batch, mode))} ::
      h.dialect == TypeInPayload && 0 < |batch| <= MAX_BATCH ==>
        var h' := Replay(step, h, FlushEvents(vbo, elements, batch, mode));
        h'.dialect == TypeInPayload && h'.draws == h.draws + [Wire(mode, batch)]
  }

  lemma OccurDrawsBatches()
    ensures DrawsBatches(Occur)
  {
    forall h: Host, vbo, elements, batch, mode | h.dialect == TypeInPayload && 0 < |batch| <= MAX_BATCH
      ensures var h' := Replay(Occur, h, FlushEvents(vbo, elements, batch, mode));
              h'.dialect == TypeInPayload && h'.draws == h.draws + [Wire(mode, batch)]
    {
      var h' := FlushDraws(h, vbo, elements, batch, mode);
    }
  }

  /** The translator and its host agree with the OpenGL state. */
  ghost predicate Agrees(step: (Host, Event) -> Host, gl: GL, t: State, g: Gpu, h0: Host) {
    var h := Replay(step, h0, g.log);
    && t.attached && t.inside == gl.inside && t.color == gl.color && t.texcoord == gl.texcoord && |t.batch| <= MAX_BATCH
    && (gl.inside ==> t.mode == gl.current.mode
                      && t.batch == gl.current.vertices[Sent(|gl.current.vertices|)..])
    && h.dialect == TypeInPayload && h.draws == h0.draws + WireAll(gl)
    && AcceptsAll(g) && FreshFrom(g, t.next) && t.next == 100 + 3 * |WireAll(gl)|
  }

  lemma FlushAgrees(step: (Host, Event) -> Host, t: State, g: Gpu, h0: Host)
    requires DrawsBatches(step)
    requires t.attached && 0 < |t.batch| <= MAX_BATCH && t.next + 3 < 0x1_0000_0000
    requires AcceptsAll(g) && FreshFrom(g, t.next) && Replay(step, h0, g.log).dialect == TypeInPayload
    ensures var (t', g', status) := Flush(t, g);
            && t' == t.(next := t.next + 3)
            && Replay(step, h0, g'.log).dialect == TypeInPayload
            && Replay(step, h0, g'.log).draws == Replay(step, h0, g.log).draws + [Wire(t.mode, t.batch)]
            && AcceptsAll(g') && FreshFrom(g', t'.next)
  {
    FlushLogs(t, g);
    ReplayAppend(step, h0, g.log, FlushEvents(t.next, t.next + 2, t.batch, t.mode));
  }

  lemma WireAppend(mode: word, batches: seq<seq<Vertex>>, last: seq<Vertex>)
    ensures WireBatches(mode, batches + [last]) == WireBatches(mode, batches) + [Wire(mode, last)]
  {}

  /** The batches of a stream are the sent ones and the rest. */
  lemma WireStream(mode: word, vertices: seq<Vertex>)
    requires vertices != []
    ensures WireBatches(mode, Batches(vertices)) ==
            WireBatches(mode, Batches(vertices[..Sent(|vertices|)])) + [Wire(mode, vertices[Sent(|vertices|)..])]
  {
    var s := Sent(|vertices|);
    assert Batches(vertices) == Batches(vertices[..s]) + [vertices[s..]];
    WireAppend(mode, Batches(vertices[..s]), vertices[s..]);
  }

  lemma SentStep(n: nat)
    ensures Sent(n + 1) == if n - Sent(n) < MAX_BATCH then Sent(n) else n
  {}

  /** A vertex that finds its batch full leaves that batch to draw. */
  lemma VertexDraws(gl: GL, position: Vec4)
    requires gl.inside
    ensures var vs, vs' := gl.current.vertices, Issue(gl, position).current.vertices;
            var full := |vs| - Sent(|vs|) >= MAX_BATCH;
            && WireAll(Issue(gl, position))
               == WireAll(gl) + (if full then [Wire(gl.current.mode, vs[Sent(|vs|)..])] else [])
            && vs'[Sent(|vs'|)..] == (if full then [] else vs[Sent(|vs|)..]) + vs'[|vs|..]
  {
    var vs := gl.current.vertices;
    var vs' := Issue(gl, position).current.vertices;
    SentStep(|vs|);
    assert vs' == vs + vs'[|vs|..];
    if |vs| - Sent(|vs|) < MAX_BATCH {
      assert vs'[..Sent(|vs'|)] == vs[..Sent(|vs|)];
    } else {
      assert vs'[..Sent(|vs'|)] == vs;
      WireStream(gl.current.mode, vs);
    }
  }

  lemma VertexAgrees(step: (Host, Event) -> Host, gl: GL, t: State, g: Gpu, h0: Host, position: Vec4)
    requires DrawsBatches(step) && Agrees(step, gl, t, g, h0) && 100 + 3 * |WireAll(Issue(gl, position))| < 0x1_0000_0000
    ensures var (t', g', _) := AddVertex(t, g, position); Agrees(step, Issue(gl, position), t', g', h0)
  {
    if gl.inside {
      VertexDraws(gl, position);
      if |t.batch| >= MAX_BATCH { FlushAgrees(step, t, g, h0); }
    }
  }

  /** Closing a group leaves its last batch to draw. */
  lemma EndDraws(gl: GL)
    requires gl.inside
    ensures var vs := gl.current.vertices;
            WireAll(Apply(gl, End)) ==
            WireAll(gl) + (if vs == [] then [] else [Wire(gl.current.mode, vs[Sent(|vs|)..])])
  {
    var vs, groups := gl.current.vertices, Apply(gl, End).finished;
    assert groups[..|gl.finished|] == gl.finished;
    assert WireGroups(groups) == WireGroups(gl.finished) + WireBatches(gl.current.mode, Batches(vs));
    if vs != [] { WireStream(gl.current.mode, vs); }
  }

  lemma EndAgrees(step: (Host, Event) -> Host, gl: GL, t: State, g: Gpu, h0: Host)
    requires DrawsBatches(step) && Agrees(step, gl, t, g, h0) && 100 + 3 * |WireAll(Apply(gl, End))| < 0x1_0000_0000
    ensures var (t', g', _) := Translate(t, g, End); Agrees(step, Apply(gl, End), t', g', h0)
  {
    if gl.inside {
      EndDraws(gl);
      if gl.current.vertices == [] {
        assert t.batch == [];
      } else {
        LastBatchAgrees(step, gl, t, g, h0);
      }
    }
  }

  lemma LastBatchAgrees(step: (Host, Event) -> Host, gl: GL, t: State, g: Gpu, h0: Host)
    requires DrawsBatches(step) && Agrees(step, gl, t, g, h0) && gl.inside && gl.current.vertices != []
    requires 100 + 3 * |WireAll(Apply(gl, End))| < 0x1_0000_0000
    ensures var (t', g', _) := Flush(t.(inside := false), g); Agrees(step, Apply(gl, End), t', g', h0)
  {
    EndDraws(gl);
    hide DrawsBatches, Replay, FreshFrom, AcceptsAll, Flush, WireAll, Wire, Sent;
    assert 0 < |t.batch|;
    FlushAgrees(step, t.(inside := false), g, h0);
    Regroup(h0.draws, WireAll(gl), [Wire(t.mode, t.batch)]);
    assert |WireAll(Apply(gl, End))| == |WireAll(gl)| + 1;
  }

  lemma CallAgrees(step: (Host, Event) -> Host, gl: GL, t: State, g: Gpu, h0: Host, call: Call)
    requires DrawsBatches(step) && Agrees(step, gl, t, g, h0) && 100 + 3 * |WireAll(Apply(gl, call))| < 0x1_0000_0000
    ensures var (t', g', _) := Translate(t, g, call); Agrees(step, Apply(gl, call), t', g', h0)
  {
    match call
    case End => EndAgrees(step, gl, t, g, h0);
    case Vertex2(x, y) => VertexAgrees(step, gl, t, g, h0, Vec4(x, y, FLOAT_ZERO, FLOAT_ONE));
    case Vertex3(x, y, z) => VertexAgrees(step, gl, t, g, h0, Vec4(x, y, z, FLOAT_ONE));
    case Vertex4(x, y, z, w) => VertexAgrees(step, gl, t, g, h0, Vec4(x, y, z, w));
    case Begin(mode) => if !gl.inside { assert WireAll(Apply(gl, call)) == WireAll(gl); }
    case _ => assert WireAll(Apply(gl, call)) == WireAll(gl);
  }

  lemma DrawsGrow(gl: GL, call: Call)
    ensures |WireAll(gl)| <= |WireAll(Apply(gl, call))|
  {
    var gl' := Apply(gl, call);
    if gl.inside && call == End {
      EndDraws(gl);
    } else if gl.inside && (call.Vertex2? || call.Vertex3? || call.Vertex4?) {
      var vs, vs' := gl.current.vertices, gl'.current.vertices;
      SentStep(|vs|);
      if Sent(|vs'|) == Sent(|vs|) {
        assert vs'[..Sent(|vs'|)] == vs[..Sent(|vs|)];
      } else {
        assert vs'[..Sent(|vs'|)] == vs;
        WireStream(gl.current.mode, vs);
      }
    }
  }

  lemma {:induction false} RunAgrees(step: (Host, Event) -> Host, calls: seq<Call>, g0: Gpu, h0: Host)
    requires DrawsBatches(step)
    requires g0.log == [] && AcceptsAll(g0) && FreshFrom(g0, 100) && h0.dialect == TypeInPayload
    requires 100 + 3 * |WireAll(Interpret(GLStart(), calls))| < 0x1_0000_0000
    ensures var (t, g) := RunTranslator(Initial(), g0, calls); Agrees(step, Interpret(GLStart(), calls), t, g, h0)
    decreases |calls|
  {
    if calls != [] {
      var before, last := calls[..|calls| - 1], calls[|calls| - 1];
      DrawsGrow(Interpret(GLStart(), before), last);
      RunAgrees(step, before, g0, h0);
      var (t, g) := RunTranslator(Initial(), g0, before);
      CallAgrees(step, Interpret(GLStart(), before), t, g, h0, last);
    }
  }

  /** The emitted commands, run on a host, draw every batch the OpenGL calls call for, in order.
      The calls are arbitrary; three handles a draw must not run out. */
  lemma TranslationDraws(calls: seq<Call>, g0: Gpu, h0: Host)
    requires g0.log == [] && AcceptsAll(g0) && FreshFrom(g0, 100) && h0.dialect == TypeInPayload
    requires 100 + 3 * |WireAll(Interpret(GLStart(), calls))| < 0x1_0000_0000
    ensures Replay(Occur, h0, RunTranslator(Initial(), g0, calls).1.log).draws ==
            h0.draws + WireAll(Interpret(GLStart(), calls))
  {
    OccurDrawsBatches();
    RunAgrees(Occur, calls, g0, h0);
  }

  // ---------------------------------------------------------------- the picture

  /** The primitives a list of draws assembles, as the vertices fetched. */
  ghost function Drawn(draws: seq<Draw>): seq<seq<Fetched>>
    decreases |draws|
  {
    if draws == [] then []
    else Drawn(draws[..|draws| - 1]) + Primitives(draws[|draws| - 1].mode, draws[|draws| - 1].vertices)
  }

  /** The primitives OpenGL assembles from the finished groups, each by its own mode. */
  ghost function Meaning(groups: seq<Group>): seq<seq<Fetched>>
    decreases |groups|
  {
    if groups == [] then []
    else
      var g := groups[|groups| - 1];
      Meaning(groups[..|groups| - 1]) + Primitives(g.mode, Images(g.vertices))
  }

  /** The mode that is sent assembles what the mode that was begun does, unknown modes included. */
  lemma SentModeAssembles(mode: word, n: nat)
    ensures Assemble(PipeMode(mode), n) == Assemble(mode, n)
  {
    assert Count(PipeMode(mode), n) == Count(mode, n);
    forall i: nat | i < Count(mode, n) ensures Primitive(PipeMode(mode), n, i) == Primitive(mode, n, i) {}
  }

  lemma SentModeDraws<V>(mode: word, vertices: seq<V>)
    ensures Primitives(PipeMode(mode), vertices) == Primitives(mode, vertices)
  {
    SentModeAssembles(mode, |vertices|);
  }

  ghost predicate FitsInline(groups: seq<Group>) {
    forall i | 0 <= i < |groups| :: |groups[i].vertices| <= MAX_INLINE
  }

  /** The host's picture is OpenGL's exactly when every Begin/End group has at most 5460 vertices. */
  lemma PictureIsMeaning(calls: seq<Call>, g0: Gpu, h0: Host)
    requires g0.log == [] && AcceptsAll(g0) && FreshFrom(g0, 100)
    requires h0.dialect == TypeInPayload && h0.draws == []
    requires 100 + 3 * |WireAll(Interpret(GLStart(), calls))| < 0x1_0000_0000
    requires !Interpret(GLStart(), calls).inside
    ensures var groups := Interpret(GLStart(), calls).finished;
            Drawn(Replay(Occur, h0, RunTranslator(Initial(), g0, calls).1.log).draws) == Meaning(groups)
            <==> FitsInline(groups)
  {
    TranslationDraws(calls, g0, h0);
    var gl := Interpret(GLStart(), calls);
    assert h0.draws + WireAll(gl) == WireGroups(gl.finished);
    if FitsInline(gl.finished) {
      SmallGroupsDraw(gl.finished);
    } else {
      var i :| 0 <= i < |gl.finished| && |gl.finished[i].vertices| > MAX_INLINE;
      BigGroupSpoils(gl.finished, i);
      MeaningIsWritten(gl.finished);
    }
  }

  lemma {:induction false} DrawnAppend(a: seq<Draw>, b: seq<Draw>)
    ensures Drawn(a + b) == Drawn(a) + Drawn(b)
    decreases |b|
  {
    hide Drawn, Primitives;
    if b == [] {
      NothingDrawn();
      assert a + b == a && Drawn(a) + [] == Drawn(a);
    } else {
      var rest, last := b[..|b| - 1], b[|b| - 1];
      DrawnAppend(a, rest);
      DrawnOneMore(a + rest, a + b, last);
      DrawnOneMore(rest, b, last);
      Regroup(Drawn(a), Drawn(rest), Primitives(last.mode, last.vertices));
    }
  }

  lemma NothingDrawn()
    ensures Drawn([]) == []
  {}

  lemma DrawnOneMore(draws: seq<Draw>, more: seq<Draw>, last: Draw)
    requires more == draws + [last]
    ensures Drawn(more) == Drawn(draws) + Primitives(last.mode, last.vertices)
  {
    assert more[..|draws|] == draws;
  }

  lemma Regroup<T>(a: seq<T>, b: seq<T>, c: seq<T>)
    ensures (a + b) + c == a + (b + c)
  {}

  lemma DrawnOne(d: Draw)
    ensures Drawn([d]) == Primitives(d.mode, d.vertices)
  {
    assert [d][..0] == [];
  }

  lemma {:induction false} SmallGroupsDraw(groups: seq<Group>)
    requires FitsInline(groups)
    ensures Drawn(WireGroups(groups)) == Meaning(groups)
    decreases |groups|
  {
    if groups != [] {
      var before, g := groups[..|groups| - 1], groups[|groups| - 1];
      SmallGroupsDraw(before);
      DrawnAppend(WireGroups(before), WireBatches(g.mode, Batches(g.vertices)));
      SmallGroupDraws(g);
    }
  }

  lemma SmallGroupDraws(g: Group)
    requires |g.vertices| <= MAX_INLINE
    ensures Drawn(WireBatches(g.mode, Batches(g.vertices))) == Primitives(g.mode, Images(g.vertices))
  {
    if g.vertices == [] {
      assert Primitives(g.mode, Images(g.vertices)) == [];
    } else {
      SentModeDraws(g.mode, Images(g.vertices));
      assert Sent(|g.vertices|) == 0;
      WireStream(g.mode, g.vertices);
      assert WireBatches(g.mode, Batches(g.vertices)) == [Wire(g.mode, g.vertices)];
      DrawnOne(Wire(g.mode, g.vertices));
    }
  }

  ghost predicate Written(f: Fetched) {
    |f| == 3 && |f[0]| == 4 && f[0][0].Some?
  }

  ghost predicate AllWritten(prims: seq<seq<Fetched>>) {
    forall p, k | 0 <= p < |prims| && 0 <= k < |prims[p]| :: Written(prims[p][k])
  }

  lemma {:induction false} MeaningIsWritten(groups: seq<Group>)
    ensures AllWritten(Meaning(groups))
    decreases |groups|
  {
    if groups != [] {
      MeaningIsWritten(groups[..|groups| - 1]);
      var g := groups[|groups| - 1];
      PrimitivesWritten(g.mode, g.vertices);
    }
  }

  lemma PrimitivesWritten(mode: word, vertices: seq<Vertex>)
    ensures AllWritten(Primitives(mode, Images(vertices)))
  {
    AssembleWithin(mode, |vertices|);
  }

  lemma BlanksNotWritten(mode: word, n: nat)
    requires MAX_INLINE < n
    ensures !AllWritten(Primitives(mode, seq(n, i => Unwritten())))
  {
    var blanks := seq(n, i => Unwritten());
    AssembleWithin(mode, n);
    assert |Assemble(mode, n)[0]| > 0;
    assert Primitives(mode, blanks)[0][0] == Unwritten();
  }

  lemma DrawnStream(mode: word, vertices: seq<Vertex>)
    requires vertices != []
    ensures var s := Sent(|vertices|);
            Drawn(WireBatches(mode, Batches(vertices))) ==
            Drawn(WireBatches(mode, Batches(vertices[..s])))
            + Primitives(PipeMode(mode), Wire(mode, vertices[s..]).vertices)
  {
    var s := Sent(|vertices|);
    WireStream(mode, vertices);
    DrawnAppend(WireBatches(mode, Batches(vertices[..s])), [Wire(mode, vertices[s..])]);
    DrawnOne(Wire(mode, vertices[s..]));
  }

  lemma BigBatchSpoils(mode: word, batch: seq<Vertex>)
    requires |batch| > MAX_INLINE
    ensures !AllWritten(Primitives(PipeMode(mode), Wire(mode, batch).vertices))
  {
    BlanksNotWritten(PipeMode(mode), |batch|);
  }

  ghost predicate Spoiled(mode: word, vertices: seq<Vertex>) {
    !AllWritten(Drawn(WireBatches(mode, Batches(vertices))))
  }

  lemma LastBatchOrEarlier(mode: word, vertices: seq<Vertex>)
    requires vertices != []
    requires var s := Sent(|vertices|);
             Spoiled(mode, vertices[..s]) || !AllWritten(Primitives(PipeMode(mode), Wire(mode, vertices[s..]).vertices))
    ensures Spoiled(mode, vertices)
  {
    var s := Sent(|vertices|);
    DrawnStream(mode, vertices);
    SpoiledPart(Drawn(WireBatches(mode, Batches(vertices))), Drawn(WireBatches(mode, Batches(vertices[..s]))),
                Primitives(PipeMode(mode), Wire(mode, vertices[s..]).vertices));
  }

  lemma {:induction false} BigStreamSpoils(mode: word, vertices: seq<Vertex>)
    requires |vertices| > MAX_INLINE
    ensures Spoiled(mode, vertices)
    decreases |vertices|
  {
    var s := Sent(|vertices|);
    if s == 0 {
      BigBatchSpoils(mode, vertices[s..]);
    } else {
      BigStreamSpoils(mode, vertices[..s]);
    }
    LastBatchOrEarlier(mode, vertices);
  }

  lemma SpoiledPart(whole: seq<seq<Fetched>>, a: seq<seq<Fetched>>, b: seq<seq<Fetched>>)
    requires whole == a + b && (!AllWritten(a) || !AllWritten(b))
    ensures !AllWritten(whole)
  {
    if AllWritten(a) {
      var p, k :| 0 <= p < |b| && 0 <= k < |b[p]| && !Written(b[p][k]);
      assert whole[|a| + p] == b[p];
    } else {
      var p, k :| 0 <= p < |a| && 0 <= k < |a[p]| && !Written(a[p][k]);
      assert whole[p] == a[p];
    }
  }

  lemma {:induction false} BigGroupSpoils(groups: seq<Group>, i: nat)
    requires i < |groups| && |groups[i].vertices| > MAX_INLINE
    ensures !AllWritten(Drawn(WireGroups(groups)))
    decreases |groups|
  {
    var before, g := groups[..|groups| - 1], groups[|groups| - 1];
    var last := WireBatches(g.mode, Batches(g.vertices));
    DrawnAppend(WireGroups(before), last);
    if i == |groups| - 1 {
      BigStreamSpoils(g.mode, g.vertices);
    } else {
      BigGroupSpoils(before, i);
    }
    SpoiledPart(Drawn(WireGroups(groups)), Drawn(WireGroups(before)), Drawn(last));
  }

  // ---------------------------------------------------------------- hosts that never draw

  /** The submissions the translator makes. */
  ghost predicate FromFlush(e: Event) {
    e.Created?
    || (exists handle, data | |data| <= 12 * MAX_BATCH :: e.words == InlineWrite(handle, data))
    || (exists handle :: e.words == CreateElements(handle))
    || (exists handle :: e.words == BindElements(handle))
    || (exists handle :: e.words == SetVertexBuffer(handle))
    || (exists count, mode | 0 < count <= MAX_BATCH :: e.words == DrawBatch(count, mode))
  }

  ghost predicate Known(log: seq<Event>) {
    forall e <- log :: FromFlush(e)
  }

  lemma SubmitKnown(g: Gpu, words: seq<word>)
    requires Known(g.log) && FromFlush(Submitted(words))
    ensures Known(SubmitTo(g, words).0.log)
  {}

  lemma NewBufferKnown(g: Gpu, vbo: word, data: seq<word>)
    requires Known(g.log) && |data| <= 12 * MAX_BATCH
    ensures Known(NewBuffer(g, vbo, data).0.log)
  {
    assert FromFlush(Submitted(InlineWrite(vbo, data)));
    assert FromFlush(Created(vbo, 4 * |data|));
  }

  lemma DrawFromKnown(g: Gpu, vbo: word, elements: word, count: nat, mode: word)
    requires Known(g.log) && 0 < count <= MAX_BATCH
    ensures Known(DrawFrom(g, vbo, elements, count, mode).0.log)
  {
    var g1 := SubmitTo(g, BindElements(elements)).0;
    var g2 := SubmitTo(g1, SetVertexBuffer(vbo)).0;
    SubmitKnown(g, BindElements(elements));
    SubmitKnown(g1, SetVertexBuffer(vbo));
    SubmitKnown(g2, DrawBatch(count, mode));
  }

  lemma FlushKnown(t: State, g: Gpu)
    requires |t.batch| <= MAX_BATCH && Known(g.log)
    ensures Known(Flush(t, g).1.log)
  {
    if t.batch != [] && t.attached {
      var elements := Wrap(Wrap(t.next + 1) as int + 1);
      assert FromFlush(Submitted(CreateElements(elements)));
      hide Known, FromFlush, NewBuffer, SubmitTo, DrawFrom, CreateElements;
      var g1 := NewBuffer(g, t.next, Pack(t.batch)).0;
      var g2 := SubmitTo(g1, CreateElements(elements)).0;
      NewBufferKnown(g, t.next, Pack(t.batch));
      SubmitKnown(g1, CreateElements(elements));
      DrawFromKnown(g2, t.next, elements, |t.batch|, PipeMode(t.mode));
    }
  }

  lemma CallKnown(t: State, g: Gpu, call: Call)
    requires |t.batch| <= MAX_BATCH && Known(g.log)
    ensures Known(Translate(t, g, call).1.log)
  {
    if call == End {
      FlushKnown(t.(inside := false), g);
    } else {
      FlushKnown(t, g);
    }
  }

  lemma {:induction false} RunMakesKnownEvents(calls: seq<Call>, t0: State, g0: Gpu)
    requires |t0.batch| <= MAX_BATCH && g0.log == []
    ensures Known(RunTranslator(t0, g0, calls).1.log)
    decreases |calls|
  {
    if calls != [] {
      var before, last := calls[..|calls| - 1], calls[|calls| - 1];
      RunMakesKnownEvents(before, t0, g0);
      var (t, g) := RunTranslator(t0, g0, before);
      CallKnown(t, g, last);
    }
  }

  /** Nothing is bound where the object type is missed, or no buffer is set where lists come in triples. */
  predicate Blind(h: Host) {
    || (h.dialect == TypeInHeader && h.bound == None)
    || (h.dialect == BuffersInTriples && h.buffer == None)
  }

  ghost predicate StaysBlind(h: Host, next: Host) {
    Blind(next) && next.draws == h.draws
  }

  lemma CreateStaysBlind(h: Host, handle: word)
    requires Blind(h)
    ensures StaysBlind(h, Submit(h, CreateElements(handle)))
  {
    assert CreateElements(handle) == [Header(CREATE_OBJECT, 14)] + ([handle, OBJECT_VERTEX_ELEMENTS] + ElementWords());
    SubmitOne(h, CREATE_OBJECT, [handle, OBJECT_VERTEX_ELEMENTS] + ElementWords());
  }

  lemma BindStaysBlind(h: Host, handle: word)
    requires Blind(h)
    ensures StaysBlind(h, Submit(h, BindElements(handle)))
  {
    assert BindElements(handle) == [Header(BIND_OBJECT, 2)] + [handle, OBJECT_VERTEX_ELEMENTS];
    SubmitOne(h, BIND_OBJECT, [handle, OBJECT_VERTEX_ELEMENTS]);
  }

  lemma BufferStaysBlind(h: Host, handle: word)
    requires Blind(h)
    ensures StaysBlind(h, Submit(h, SetVertexBuffer(handle)))
  {
    if h.dialect == BuffersInTriples { BufferRefused(h, handle); } else { BufferSet(h, handle); }
  }

  lemma InlineStaysBlind(h: Host, handle: word, data: seq<word>)
    requires Blind(h) && |data| <= 12 * MAX_BATCH
    ensures StaysBlind(h, Submit(h, InlineWrite(handle, data)))
  {
    var payload := [handle, 0, 0, 0, 0, 0, 0, 0, 4 * |data|, 1, 1] + data;
    if |payload| < 65536 {
      assert InlineWrite(handle, data) == [Header(RESOURCE_INLINE_WRITE, |payload|)] + payload;
      SubmitOne(h, RESOURCE_INLINE_WRITE, payload);
    } else {
      UploadDropped(h, handle, data);
    }
  }

  lemma DrawStaysBlind(h: Host, count: nat, mode: word)
    requires Blind(h) && 0 < count <= MAX_BATCH
    ensures StaysBlind(h, Submit(h, DrawBatch(count, mode)))
  {
    BatchDrawn(h, count, mode);
  }

  lemma KnownEventStaysBlind(h: Host, e: Event)
    requires FromFlush(e) && Blind(h)
    ensures StaysBlind(h, Occur(h, e))
  {
    if e.Submitted? {
      hide Submit, Blind, StaysBlind, InlineWrite, CreateElements, BindElements, SetVertexBuffer, DrawBatch;
      if handle, data :| |data| <= 12 * MAX_BATCH && e.words == InlineWrite(handle, data) {
        InlineStaysBlind(h, handle, data);
      } else if handle :| e.words == CreateElements(handle) {
        CreateStaysBlind(h, handle);
      } else if handle :| e.words == BindElements(handle) {
        BindStaysBlind(h, handle);
      } else if handle :| e.words == SetVertexBuffer(handle) {
        BufferStaysBlind(h, handle);
      } else {
        var count, mode :| 0 < count <= MAX_BATCH && e.words == DrawBatch(count, mode);
        DrawStaysBlind(h, count, mode);
      }
    }
  }

  lemma {:induction false} ReplayStaysBlind(h0: Host, log: seq<Event>)
    requires Known(log) && Blind(h0)
    ensures StaysBlind(h0, Replay(Occur, h0, log))
    decreases |log|
  {
    if log != [] {
      ReplayStaysBlind(h0, log[..|log| - 1]);
      KnownEventStaysBlind(Replay(Occur, h0, log[..|log| - 1]), log[|log| - 1]);
    }
  }

  /** The object type is never put in the header, so a host that looks for it there never draws,
      whatever the calls and whichever submissions succeed. */
  lemma HeaderHostNeverDraws(calls: seq<Call>, g0: Gpu, h0: Host)
    requires g0.log == [] && h0.dialect == TypeInHeader && h0.bound == None
    ensures Replay(Occur, h0, RunTranslator(Initial(), g0, calls).1.log).draws == h0.draws
  {
    RunMakesKnownEvents(calls, Initial(), g0);
    ReplayStaysBlind(h0, RunTranslator(Initial(), g0, calls).1.log);
  }

  /** A vertex buffer is set with four words, so a host that wants three for each never draws either. */
  lemma TriplesHostNeverDraws(calls: seq<Call>, g0: Gpu, h0: Host)
    requires g0.log == [] && h0.dialect == BuffersInTriples && h0.buffer == None
    ensures Replay(Occur, h0, RunTranslator(Initial(), g0, calls).1.log).draws == h0.draws
  {
    RunMakesKnownEvents(calls, Initial(), g0);
    ReplayStaysBlind(h0, RunTranslator(Initial(), g0, calls).1.log);
  }
}
