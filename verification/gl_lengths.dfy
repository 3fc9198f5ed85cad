/** What every submission of a run declares, and what an unattached translator does. */
module GLLengths {
  import opened Words
  import opened GLSemantics
  import opened VirglHost
  import opened GLTranslator
  import opened GLCorrectness

  /** The header's length is the number of words behind it. */
  predicate Declares(words: seq<word>) {
    words != [] && words[0] / 65536 == |words| - 1
  }

  ghost predicate AllDeclare(log: seq<Event>) {
    forall e <- log | e.Submitted? :: Declares(e.words)
  }

  lemma InlineDeclaresExactly(handle: word, data: seq<word>)
    requires |data| <= 12 * MAX_BATCH
    ensures Declares(InlineWrite(handle, data)) <==> |InlineWrite(handle, data)| <= 65536
  {
    InlineDeclares(handle, data);
  }

  /** Every command but an inline write is short, and declares its length. */
  lemma ShortCommandsDeclare(handle: word, count: nat, mode: word)
    ensures Declares(CreateElements(handle)) && Declares(BindElements(handle)) && Declares(SetVertexBuffer(handle))
    ensures 0 < count <= MAX_BATCH ==> Declares(DrawBatch(count, mode))
  {
    HeaderFields(CREATE_OBJECT, 14);
    HeaderFields(BIND_OBJECT, 2);
    HeaderFields(SET_VERTEX_BUFFERS, 4);
    HeaderFields(DRAW_VBO, 11);
  }

  lemma KnownDeclaresExactly(e: Event)
    requires FromFlush(e) && e.Submitted?
    ensures Declares(e.words) <==> |e.words| <= 65536
  {
    if handle, data :| |data| <= 12 * MAX_BATCH && e.words == InlineWrite(handle, data) {
      InlineDeclaresExactly(handle, data);
    } else if handle :| e.words == CreateElements(handle) {
      ShortCommandsDeclare(handle, 0, 0);
    } else if handle :| e.words == BindElements(handle) {
      ShortCommandsDeclare(handle, 0, 0);
    } else if handle :| e.words == SetVertexBuffer(handle) {
      ShortCommandsDeclare(handle, 0, 0);
    } else {
      var count, mode :| 0 < count <= MAX_BATCH && e.words == DrawBatch(count, mode);
      ShortCommandsDeclare(0, count, mode);
    }
  }

  /** Over every run, whatever is called and whatever fails, a submission declares its own length exactly
      when it has at most 65536 words. */
  lemma SubmissionsDeclareExactly(calls: seq<Call>, t0: State, g0: Gpu)
    requires |t0.batch| <= MAX_BATCH && g0.log == []
    ensures forall e <- RunTranslator(t0, g0, calls).1.log | e.Submitted? ::
              Declares(e.words) <==> |e.words| <= 65536
  {
    RunMakesKnownEvents(calls, t0, g0);
    forall e <- RunTranslator(t0, g0, calls).1.log | e.Submitted?
      ensures Declares(e.words) <==> |e.words| <= 65536
    {
      KnownDeclaresExactly(e);
    }
  }

  // ---------------------------------------------------------------- in terms of the calls

  /** Every batch sent so far had at most 5460 vertices: so had every finished group, and an open group has
      not sent a batch. */
  ghost predicate BatchesFit(gl: GL) {
    FitsInline(gl.finished) && (gl.inside ==> |gl.current.vertices| <= MAX_BATCH)
  }

  lemma FlushDeclares(vbo: word, elements: word, batch: seq<Vertex>, mode: word)
    requires 0 < |batch| <= MAX_BATCH
    ensures AllDeclare(FlushEvents(vbo, elements, batch, mode)) <==> |batch| <= MAX_INLINE
  {
    var events := FlushEvents(vbo, elements, batch, mode);
    DeclaredLength(vbo, batch);
    ShortCommandsDeclare(elements, |batch|, PipeMode(mode));
    ShortCommandsDeclare(vbo, |batch|, PipeMode(mode));
    assert events[1] in events && events[1] == Submitted(InlineWrite(vbo, Pack(batch)));
  }

  lemma AllDeclareAppend(a: seq<Event>, b: seq<Event>)
    ensures AllDeclare(a + b) <==> AllDeclare(a) && AllDeclare(b)
  {
    assert forall e <- a :: e in a + b;
    assert forall e <- b :: e in a + b;
  }

  lemma FlushedDeclares(t: State, g: Gpu)
    requires t.attached && 0 < |t.batch| <= MAX_BATCH && t.next + 3 < 0x1_0000_0000
    requires AcceptsAll(g) && FreshFrom(g, t.next)
    ensures AllDeclare(Flush(t, g).1.log) <==> AllDeclare(g.log) && |t.batch| <= MAX_INLINE
  {
    FlushLogs(t, g);
    MoreDeclares(g.log, t.next, t.next + 2, t.batch, t.mode);
  }

  lemma MoreDeclares(log: seq<Event>, vbo: word, elements: word, batch: seq<Vertex>, mode: word)
    requires 0 < |batch| <= MAX_BATCH
    ensures AllDeclare(log + FlushEvents(vbo, elements, batch, mode)) <==> AllDeclare(log) && |batch| <= MAX_INLINE
  {
    FlushDeclares(vbo, elements, batch, mode);
    AllDeclareAppend(log, FlushEvents(vbo, elements, batch, mode));
  }

  lemma VertexDeclares(gl: GL, t: State, g: Gpu, h0: Host, position: Vec4)
    requires Agrees(Occur, gl, t, g, h0) && 100 + 3 * |WireAll(Issue(gl, position))| < 0x1_0000_0000
    requires AllDeclare(g.log) <==> BatchesFit(gl)
    ensures AllDeclare(AddVertex(t, g, position).1.log) <==> BatchesFit(Issue(gl, position))
  {
    if gl.inside {
      VertexDraws(gl, position);
      if |t.batch| >= MAX_BATCH { FlushedDeclares(t, g); }
    }
  }

  lemma EndDeclares(gl: GL, t: State, g: Gpu, h0: Host)
    requires Agrees(Occur, gl, t, g, h0) && 100 + 3 * |WireAll(Apply(gl, End))| < 0x1_0000_0000
    requires AllDeclare(g.log) <==> BatchesFit(gl)
    ensures AllDeclare(Translate(t, g, End).1.log) <==> BatchesFit(Apply(gl, End))
  {
    if gl.inside {
      EndFits(gl);
      if gl.current.vertices != [] {
        EndDraws(gl);
        FlushedDeclares(t.(inside := false), g);
      }
    }
  }

  /** Closing a group sends its last batch. */
  lemma EndFits(gl: GL)
    requires gl.inside
    ensures var vs := gl.current.vertices;
            BatchesFit(Apply(gl, End)) <==> BatchesFit(gl) && |vs| - Sent(|vs|) <= MAX_INLINE
  {
    var groups := Apply(gl, End).finished;
    assert groups[|gl.finished|] == gl.current && forall i | 0 <= i < |gl.finished| :: groups[i] == gl.finished[i];
  }

  lemma CallDeclares(gl: GL, t: State, g: Gpu, h0: Host, call: Call)
    requires Agrees(Occur, gl, t, g, h0) && 100 + 3 * |WireAll(Apply(gl, call))| < 0x1_0000_0000
    requires AllDeclare(g.log) <==> BatchesFit(gl)
    ensures AllDeclare(Translate(t, g, call).1.log) <==> BatchesFit(Apply(gl, call))
  {
    match call
    case End => EndDeclares(gl, t, g, h0);
    case Vertex2(x, y) => VertexDeclares(gl, t, g, h0, Vec4(x, y, FLOAT_ZERO, FLOAT_ONE));
    case Vertex3(x, y, z) => VertexDeclares(gl, t, g, h0, Vec4(x, y, z, FLOAT_ONE));
    case Vertex4(x, y, z, w) => VertexDeclares(gl, t, g, h0, Vec4(x, y, z, w));
    case _ =>
  }

  /** Where requests succeed, every submission of a run declares its own length exactly when every batch
      the calls have sent fits one inline write. */
  lemma {:induction false} RunDeclaresExactly(calls: seq<Call>, g0: Gpu, h0: Host)
    requires g0.log == [] && AcceptsAll(g0) && FreshFrom(g0, 100) && h0.dialect == TypeInPayload
    requires 100 + 3 * |WireAll(Interpret(GLStart(), calls))| < 0x1_0000_0000
    ensures AllDeclare(RunTranslator(Initial(), g0, calls).1.log) <==> BatchesFit(Interpret(GLStart(), calls))
    decreases |calls|
  {
    if calls != [] {
      var before, last := calls[..|calls| - 1], calls[|calls| - 1];
      DrawsGrow(Interpret(GLStart(), before), last);
      RunDeclaresExactly(before, g0, h0);
      OccurDrawsBatches();
      RunAgrees(Occur, before, g0, h0);
      var (t, g) := RunTranslator(Initial(), g0, before);
      CallDeclares(Interpret(GLStart(), before), t, g, h0, last);
    }
  }

  // ---------------------------------------------------------------- without an accelerator

  /** A translator without an accelerator collects vertices but takes no handle and makes no request. */
  lemma {:induction false} NothingWithoutAccelerator(calls: seq<Call>, t0: State, g0: Gpu)
    requires |t0.batch| <= MAX_BATCH && !t0.attached
    ensures var (t, g) := RunTranslator(t0, g0, calls); g == g0 && t.next == t0.next && !t.attached
    decreases |calls|
  {
    if calls != [] { NothingWithoutAccelerator(calls[..|calls| - 1], t0, g0); }
  }
}
