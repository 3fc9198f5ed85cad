/** The OpenGL to virgl translator (FB/VMOpenGLTranslator.cpp): calls collect vertices in a
    buffer of MAX_BATCH * 12 words, and a flush turns the buffer into virgl commands. */
module GLTranslator {
  import opened Words
  import opened GLSemantics
  import opened VirglHost

  const STRIDE: word := 48
  const INLINE_WRITE_HEADER := 12

  // ---------------------------------------------------------------- the device

  /** What reached the host: buffers created and words submitted. */
  datatype Event = Created(handle: word, size: nat) | Submitted(words: seq<word>)

  /** The GPU as the guest sees it; accepts says which requests succeed, in order. */
  datatype Gpu = Gpu(log: seq<Event>, handles: set<word>, requests: nat, accepts: nat -> bool)

  /** The guest learns whether a submission went through, never whether the host could decode it. */
  function SubmitTo(g: Gpu, words: seq<word>): (Gpu, bool) {
    var ok := g.accepts(g.requests);
    (g.(log := if ok then g.log + [Submitted(words)] else g.log, requests := g.requests + 1), ok)
  }

  /** A handle in use is refused (FB/VMVirtIOGPU.cpp:1398-1402). */
  function CreateOn(g: Gpu, handle: word, size: nat): (Gpu, bool) {
    var ok := g.accepts(g.requests) && handle !in g.handles;
    var h := g.(requests := g.requests + 1);
    (if ok then h.(log := h.log + [Created(handle, size)], handles := h.handles + {handle}) else h, ok)
  }

  class Device {
    var gpu: Gpu

    constructor (gpu: Gpu)
      ensures this.gpu == gpu
    {
      this.gpu := gpu;
    }

    method ExecuteCommands(words: seq<word>) returns (ok: bool)
      modifies this
      ensures (gpu, ok) == SubmitTo(old(gpu), words)
    {
      var outcome := SubmitTo(gpu, words);
      gpu, ok := outcome.0, outcome.1;
    }

    method CreateResource3D(handle: word, size: nat) returns (ok: bool)
      modifies this
      ensures (gpu, ok) == CreateOn(old(gpu), handle, size)
    {
      var outcome := CreateOn(gpu, handle, size);
      gpu, ok := outcome.0, outcome.1;
    }
  }

  // ---------------------------------------------------------------- words of a batch

  function PipeMode(mode: word): word {
    if mode <= POLYGON then mode else TRIANGLES
  }

  function Part(v: Vec4, c: nat): word
    requires c < 4
  {
    if c == 0 then v.x else if c == 1 then v.y else if c == 2 then v.z else v.w
  }

  function Component(v: Vertex, c: nat): word
    requires c < 12
  {
    if c < 4 then Part(v.position, c) else if c < 8 then Part(v.color, c - 4) else Part(v.texcoord, c - 8)
  }

  /** The vertex buffer's layout: twelve words a vertex. */
  function Pack(vertices: seq<Vertex>): (words: seq<word>)
    ensures |words| == 12 * |vertices|
  {
    seq(12 * |vertices|, j requires 0 <= j < 12 * |vertices| => Component(vertices[j / 12], j % 12))
  }

  function VertexAt(words: seq<word>, i: nat): Vertex
    requires 12 * i + 12 <= |words|
  {
    Vertex(Vec4(words[12 * i], words[12 * i + 1], words[12 * i + 2], words[12 * i + 3]),
           Vec4(words[12 * i + 4], words[12 * i + 5], words[12 * i + 6], words[12 * i + 7]),
           Vec4(words[12 * i + 8], words[12 * i + 9], words[12 * i + 10], words[12 * i + 11]))
  }

  function Unpack(words: seq<word>): (vertices: seq<Vertex>)
    requires |words| % 12 == 0
    ensures |vertices| == |words| / 12
  {
    seq(|words| / 12, i requires 0 <= i < |words| / 12 => VertexAt(words, i))
  }

  lemma PackUnpack(words: seq<word>)
    requires |words| % 12 == 0
    ensures Pack(Unpack(words)) == words
  {
    forall j | 0 <= j < |words| ensures Pack(Unpack(words))[j] == words[j] {
      assert j == 12 * (j / 12) + j % 12;
    }
  }

  // ---------------------------------------------------------------- the commands

  function InlineHeader(handle: word, dwords: nat): (words: seq<word>)
    requires dwords <= 12 * MAX_BATCH
    ensures |words| == INLINE_WRITE_HEADER
  {
    [Header(RESOURCE_INLINE_WRITE, INLINE_WRITE_HEADER + dwords - 1),
     handle, 0, 0, 0, 0, 0, 0, 0, 4 * dwords, 1, 1]
  }

  function InlineWrite(handle: word, data: seq<word>): seq<word>
    requires |data| <= 12 * MAX_BATCH
  {
    InlineHeader(handle, |data|) + data
  }

  function ElementWords(): seq<word> {
    [0, 0, 0, FORMAT_R32G32B32A32_FLOAT,
     16, 0, 0, FORMAT_R32G32B32A32_FLOAT,
     32, 0, 0, FORMAT_R32G32B32A32_FLOAT]
  }

  function CreateElements(handle: word): seq<word> {
    [Header(CREATE_OBJECT, 14), handle, OBJECT_VERTEX_ELEMENTS] + ElementWords()
  }

  function BindElements(handle: word): seq<word> {
    [Header(BIND_OBJECT, 2), handle, OBJECT_VERTEX_ELEMENTS]
  }

  function SetVertexBuffer(handle: word): seq<word> {
    [Header(SET_VERTEX_BUFFERS, 4), STRIDE, 0, handle, 0]
  }

  function DrawBatch(count: nat, mode: word): seq<word>
    requires 0 < count <= MAX_BATCH
  {
    [Header(DRAW_VBO, 11), 0, count, mode, 0, 1, 0, 0, 0, 0, 0, count - 1]
  }

  // ---------------------------------------------------------------- the translator as a value

  /** attached tells whether there is an accelerator to submit to. */
  datatype State = State(
    attached: bool,
    inside: bool,
    mode: word,
    color: Vec4,
    texcoord: Vec4,
    batch: seq<Vertex>,
    next: word)

  datatype Status = Success | NotReady | Error

  /** Step 1 of a flush: a buffer of the batch's size, then its contents. */
  function NewBuffer(g: Gpu, vbo: word, data: seq<word>): (Gpu, bool)
    requires |data| <= 12 * MAX_BATCH
  {
    var (g1, created) := CreateOn(g, vbo, 4 * |data|);
    if created then SubmitTo(g1, InlineWrite(vbo, data)) else (g1, false)
  }

  /** Steps 3 to 5: bind and draw; whether the bindings went through is not looked at. */
  function DrawFrom(g: Gpu, vbo: word, elements: word, count: nat, mode: word): (Gpu, bool)
    requires 0 < count <= MAX_BATCH
  {
    var g1 := SubmitTo(g, BindElements(elements)).0;
    var g2 := SubmitTo(g1, SetVertexBuffer(vbo)).0;
    SubmitTo(g2, DrawBatch(count, mode))
  }

  /** flushVertexBatch: three handles are taken, the second of them is never used. */
  function Flush(t: State, g: Gpu): (State, Gpu, Status)
    requires |t.batch| <= MAX_BATCH
  {
    if t.batch == [] then (t, g, Success)
    else if !t.attached then (t, g, NotReady)
    else
      var vbo := t.next;
      var t1 := t.(next := Wrap(vbo + 1));
      var (g1, filled) := NewBuffer(g, vbo, Pack(t.batch));
      if !filled then (t1, g1, Error)
      else
        var elements := Wrap(t1.next + 1);
        var t2 := t1.(next := Wrap(elements + 1));
        var (g2, described) := SubmitTo(g1, CreateElements(elements));
        if !described then (t2, g2, Error)
        else
          var (g3, drawn) := DrawFrom(g2, vbo, elements, |t.batch|, PipeMode(t.mode));
          (t2, g3, if drawn then Success else Error)
  }

  function AddVertex(t: State, g: Gpu, position: Vec4): (State, Gpu, Status)
    requires |t.batch| <= MAX_BATCH
  {
    if !t.inside then (t, g, Error)
    else
      var full := |t.batch| >= MAX_BATCH;
      var (t1, g1, _) := if full then Flush(t, g) else (t, g, Success);
      var before := if full then [] else t1.batch;
      (t1.(batch := before + [Vertex(position, t1.color, t1.texcoord)]), g1, Success)
  }

  function Translate(t: State, g: Gpu, call: Call): (State, Gpu, Status)
    requires |t.batch| <= MAX_BATCH
  {
    match call
    case Begin(mode) =>
      if t.inside then (t, g, Error) else (t.(inside := true, mode := mode, batch := []), g, Success)
    case End => if !t.inside then (t, g, Error) else Flush(t.(inside := false), g)
    case Vertex2(x, y) => AddVertex(t, g, Vec4(x, y, FLOAT_ZERO, FLOAT_ONE))
    case Vertex3(x, y, z) => AddVertex(t, g, Vec4(x, y, z, FLOAT_ONE))
    case Vertex4(x, y, z, w) => AddVertex(t, g, Vec4(x, y, z, w))
    case Color3(r, gr, b) => (t.(color := Vec4(r, gr, b, FLOAT_ONE)), g, Success)
    case Color4(r, gr, b, a) => (t.(color := Vec4(r, gr, b, a)), g, Success)
    case TexCoord2(s, u) => (t.(texcoord := Vec4(s, u, FLOAT_ZERO, FLOAT_ONE)), g, Success)
    case TexCoord3(s, u, r) => (t.(texcoord := Vec4(s, u, r, FLOAT_ONE)), g, Success)
  }

  // ---------------------------------------------------------------- the translator in place

  class Translator {
    const device: Device
    const attached: bool
    var inBeginEnd: bool
    var primitiveMode: word
    var currentColor: Vec4
    var currentTexcoord: Vec4
    var vertexCount: nat
    var vertexData: array<word>
    var nextHandle: word

    ghost predicate Valid()
      reads this
    {
      vertexCount <= MAX_BATCH && vertexData.Length == 12 * MAX_BATCH
    }

    ghost function Current(): (t: State)
      requires Valid()
      reads this, vertexData
      ensures |t.batch| == vertexCount
    {
      State(attached, inBeginEnd, primitiveMode, currentColor, currentTexcoord,
            Unpack(vertexData[..12 * vertexCount]), nextHandle)
    }

    constructor (device: Device, attached: bool)
      ensures Valid() && fresh(vertexData) && this.device == device
      ensures Current() == Initial().(attached := attached)
    {
      this.device, this.attached := device, attached;
      inBeginEnd, primitiveMode, vertexCount, nextHandle := false, 0, 0, 100;
      currentColor := Vec4(FLOAT_ONE, FLOAT_ONE, FLOAT_ONE, FLOAT_ONE);
      currentTexcoord := Vec4(FLOAT_ZERO, FLOAT_ZERO, FLOAT_ZERO, FLOAT_ZERO);
      vertexData := new word[12 * MAX_BATCH];
    }

    method AllocateHandle() returns (handle: word)
      modifies this`nextHandle
      ensures handle == old(nextHandle) && nextHandle == Wrap(handle + 1)
    {
      handle := nextHandle;
      nextHandle := Wrap(nextHandle + 1);
    }

    method UploadBufferData(handle: word, count: nat) returns (ok: bool)
      requires Valid() && count <= vertexCount
      modifies device
      ensures (device.gpu, ok) == SubmitTo(old(device.gpu), InlineWrite(handle, vertexData[..12 * count]))
    {
      hide Header, SubmitTo, InlineHeader;
      var dwords := (48 * count + 3) / 4;
      var total := INLINE_WRITE_HEADER + dwords;
      var cmd := new word[total];
      WriteHeader(cmd, handle, count, dwords);
      CopyDwords(cmd, dwords);
      assert cmd[..] == cmd[..INLINE_WRITE_HEADER] + cmd[INLINE_WRITE_HEADER..];
      ok := device.ExecuteCommands(cmd[..]);
    }

    method WriteHeader(cmd: array<word>, handle: word, count: nat, dwords: nat)
      requires count <= MAX_BATCH && dwords == 12 * count && cmd.Length == INLINE_WRITE_HEADER + dwords
      modifies cmd
      ensures cmd[..INLINE_WRITE_HEADER] == InlineHeader(handle, dwords)
    {
      hide Header;
      cmd[0] := Header(RESOURCE_INLINE_WRITE, INLINE_WRITE_HEADER + dwords - 1);
      cmd[1], cmd[2], cmd[3], cmd[4], cmd[5] := handle, 0, 0, 0, 0;
      cmd[6], cmd[7], cmd[8] := 0, 0, 0;
      cmd[9], cmd[10], cmd[11] := 48 * count, 1, 1;
    }

    /** The memcpy of the vertex data behind the command's header. */
    method CopyDwords(cmd: array<word>, dwords: nat)
      requires Valid() && dwords <= vertexData.Length && cmd != vertexData
      requires cmd.Length == INLINE_WRITE_HEADER + dwords
      modifies cmd
      ensures cmd[..INLINE_WRITE_HEADER] == old(cmd[..INLINE_WRITE_HEADER])
      ensures cmd[INLINE_WRITE_HEADER..] == vertexData[..dwords]
    {
      var i := 0;
      while i < dwords
        invariant 0 <= i <= dwords
        invariant cmd[..INLINE_WRITE_HEADER] == old(cmd[..INLINE_WRITE_HEADER])
        invariant cmd[INLINE_WRITE_HEADER..INLINE_WRITE_HEADER + i] == vertexData[..i]
      {
        cmd[INLINE_WRITE_HEADER + i] := vertexData[i];
        i := i + 1;
      }
    }

    method CreateVertexElements() returns (handle: word, ok: bool)
      modifies this`nextHandle, device
      ensures handle == old(nextHandle) && nextHandle == Wrap(handle + 1)
      ensures (device.gpu, ok) == SubmitTo(old(device.gpu), CreateElements(handle))
    {
      handle := AllocateHandle();
      var cmd := new word[] [Header(CREATE_OBJECT, 14), handle, OBJECT_VERTEX_ELEMENTS,
                             0, 0, 0, FORMAT_R32G32B32A32_FLOAT,
                             16, 0, 0, FORMAT_R32G32B32A32_FLOAT,
                             32, 0, 0, FORMAT_R32G32B32A32_FLOAT];
      assert cmd[..] == CreateElements(handle);
      ok := device.ExecuteCommands(cmd[..]);
    }

    method BindVertexElements(elements: word) returns (ok: bool)
      modifies device
      ensures (device.gpu, ok) == SubmitTo(old(device.gpu), BindElements(elements))
    {
      var cmd := new word[] [Header(BIND_OBJECT, 2), elements, OBJECT_VERTEX_ELEMENTS];
      assert cmd[..] == BindElements(elements);
      ok := device.ExecuteCommands(cmd[..]);
    }

    method SetVertexBuffers(vbo: word) returns (ok: bool)
      modifies device
      ensures (device.gpu, ok) == SubmitTo(old(device.gpu), SetVertexBuffer(vbo))
    {
      var cmd := new word[] [Header(SET_VERTEX_BUFFERS, 4), STRIDE, 0, vbo, 0];
      assert cmd[..] == SetVertexBuffer(vbo);
      ok := device.ExecuteCommands(cmd[..]);
    }

    method SubmitDraw() returns (ok: bool)
      requires Valid() && vertexCount > 0
      modifies device
      ensures (device.gpu, ok) == SubmitTo(old(device.gpu), DrawBatch(vertexCount, PipeMode(primitiveMode)))
    {
      var cmd := new word[] [Header(DRAW_VBO, 11), 0, vertexCount, PipeMode(primitiveMode),
                             0, 1, 0, 0, 0, 0, 0, vertexCount - 1];
      assert cmd[..] == DrawBatch(vertexCount, PipeMode(primitiveMode));
      ok := device.ExecuteCommands(cmd[..]);
    }

    method CreateVertexBuffer(vbo: word) returns (ok: bool)
      requires Valid()
      modifies device
      ensures (device.gpu, ok) == NewBuffer(old(device.gpu), vbo, vertexData[..12 * vertexCount])
    {
      ok := device.CreateResource3D(vbo, 48 * vertexCount);
      if ok { ok := UploadBufferData(vbo, vertexCount); }
    }

    method DrawVertexBuffer(vbo: word, elements: word) returns (ok: bool)
      requires Valid() && vertexCount > 0
      modifies device
      ensures (device.gpu, ok) == DrawFrom(old(device.gpu), vbo, elements, vertexCount, PipeMode(primitiveMode))
    {
      ok := BindVertexElements(elements);
      ok := SetVertexBuffers(vbo);
      ok := SubmitDraw();
    }

    method FlushVertexBatch() returns (status: Status)
      requires Valid()
      modifies this`nextHandle, device
      ensures Valid() && (Current(), device.gpu, status) == Flush(old(Current()), old(device.gpu))
    {
      hide NewBuffer, DrawFrom, SubmitTo, CreateElements, PipeMode, Pack, Wrap;
      if vertexCount == 0 { return Success; }
      if !attached { return NotReady; }
      ghost var t := Current();
      PackUnpack(vertexData[..12 * vertexCount]);
      var vbo := AllocateHandle();
      var ok := CreateVertexBuffer(vbo);
      assert Current() == t.(next := nextHandle);
      if !ok { return Error; }
      var elements := AllocateHandle();
      elements, ok := CreateVertexElements();
      assert Current() == t.(next := nextHandle);
      if !ok { return Error; }
      ok := DrawVertexBuffer(vbo, elements);
      assert Current() == t.(next := nextHandle);
      status := if ok then Success else Error;
    }

    /** Write the vertex with the current attributes behind the ones already in the buffer. */
    method StoreVertex(v: Vertex)
      requires Valid() && vertexCount < MAX_BATCH
      modifies vertexData
      ensures Unpack(vertexData[..12 * vertexCount + 12]) == old(Unpack(vertexData[..12 * vertexCount])) + [v]
    {
      hide Unpack;
      var offset := vertexCount * 12;
      StoreFour(offset, v.position);
      StoreFour(offset + 4, v.color);
      StoreFour(offset + 8, v.texcoord);
      assert vertexData[..offset + 12][..offset] == old(vertexData[..offset]);
      UnpackAppend(old(vertexData[..offset]), vertexData[..offset + 12], v);
    }

    method StoreFour(at: nat, v: Vec4)
      requires at + 4 <= vertexData.Length
      modifies vertexData
      ensures forall k | 0 <= k < at :: vertexData[k] == old(vertexData[k])
      ensures vertexData[at] == v.x && vertexData[at + 1] == v.y && vertexData[at + 2] == v.z && vertexData[at + 3] == v.w
    {
      vertexData[at], vertexData[at + 1], vertexData[at + 2], vertexData[at + 3] := v.x, v.y, v.z, v.w;
    }

    method GlBegin(mode: word) returns (status: Status)
      requires Valid()
      modifies this
      ensures Valid() && vertexData == old(vertexData)
      ensures (Current(), device.gpu, status) == Translate(old(Current()), old(device.gpu), Begin(mode))
    {
      if inBeginEnd { return Error; }
      inBeginEnd, primitiveMode, vertexCount := true, mode, 0;
      status := Success;
    }

    method GlEnd() returns (status: Status)
      requires Valid()
      modifies this, device
      ensures Valid() && vertexData == old(vertexData)
      ensures (Current(), device.gpu, status) == Translate(old(Current()), old(device.gpu), End)
    {
      if !inBeginEnd { return Error; }
      inBeginEnd := false;
      status := FlushVertexBatch();
    }

    method GlVertex4f(x: word, y: word, z: word, w: word) returns (status: Status)
      requires Valid()
      modifies this, device, vertexData
      ensures Valid() && vertexData == old(vertexData)
      ensures (Current(), device.gpu, status) == Translate(old(Current()), old(device.gpu), Vertex4(x, y, z, w))
    {
      if !inBeginEnd { return Error; }
      if vertexCount >= MAX_BATCH {
        var ignored := FlushVertexBatch();
        vertexCount := 0;
      }
      StoreVertex(Vertex(Vec4(x, y, z, w), currentColor, currentTexcoord));
      vertexCount := vertexCount + 1;
      status := Success;
    }

    method GlVertex3f(x: word, y: word, z: word) returns (status: Status)
      requires Valid()
      modifies this, device, vertexData
      ensures Valid() && vertexData == old(vertexData)
      ensures (Current(), device.gpu, status) == Translate(old(Current()), old(device.gpu), Vertex3(x, y, z))
    {
      status := GlVertex4f(x, y, z, FLOAT_ONE);
    }

    method GlVertex2f(x: word, y: word) returns (status: Status)
      requires Valid()
      modifies this, device, vertexData
      ensures Valid() && vertexData == old(vertexData)
      ensures (Current(), device.gpu, status) == Translate(old(Current()), old(device.gpu), Vertex2(x, y))
    {
      status := GlVertex4f(x, y, FLOAT_ZERO, FLOAT_ONE);
    }

    method GlColor4f(r: word, g: word, b: word, a: word)
      requires Valid()
      modifies this`currentColor
      ensures Valid()
      ensures (Current(), device.gpu, Success) == Translate(old(Current()), old(device.gpu), Color4(r, g, b, a))
    {
      currentColor := Vec4(r, g, b, a);
    }

    method GlColor3f(r: word, g: word, b: word)
      requires Valid()
      modifies this`currentColor
      ensures Valid()
      ensures (Current(), device.gpu, Success) == Translate(old(Current()), old(device.gpu), Color3(r, g, b))
    {
      GlColor4f(r, g, b, FLOAT_ONE);
    }

    method GlTexCoord3f(s: word, t: word, r: word)
      requires Valid()
      modifies this`currentTexcoord
      ensures Valid()
      ensures (Current(), device.gpu, Success) == Translate(old(Current()), old(device.gpu), TexCoord3(s, t, r))
    {
      currentTexcoord := Vec4(s, t, r, FLOAT_ONE);
    }

    method GlTexCoord2f(s: word, t: word)
      requires Valid()
      modifies this`currentTexcoord
      ensures Valid()
      ensures (Current(), device.gpu, Success) == Translate(old(Current()), old(device.gpu), TexCoord2(s, t))
    {
      GlTexCoord3f(s, t, FLOAT_ZERO);
    }
  }

  function Initial(): State {
    State(true, false, 0, Vec4(FLOAT_ONE, FLOAT_ONE, FLOAT_ONE, FLOAT_ONE),
          Vec4(FLOAT_ZERO, FLOAT_ZERO, FLOAT_ZERO, FLOAT_ZERO), [], 100)
  }

  lemma UnpackAppend(before: seq<word>, after: seq<word>, v: Vertex)
    requires |before| % 12 == 0 && |after| == |before| + 12 && after[..|before|] == before
    requires VertexAt(after, |before| / 12) == v
    ensures Unpack(after) == Unpack(before) + [v]
  {
    forall i | 0 <= i < |before| / 12 ensures VertexAt(after, i) == VertexAt(before, i) {
      assert before == after[..|before|];
    }
  }
}
