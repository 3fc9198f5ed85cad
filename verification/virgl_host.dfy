/** The far side of the virgl stream: how a host decodes and runs submitted words
    (FB/virgl_protocol.h).  A header word holds the opcode in bits 0-7, the object type in
    bits 8-15 and the number of payload words in bits 16-31. */
module VirglHost {
  import opened Words

  const CREATE_OBJECT := 1
  const BIND_OBJECT := 2
  const SET_VERTEX_BUFFERS := 6
  const DRAW_VBO := 8
  const RESOURCE_INLINE_WRITE := 9

  const OBJECT_VERTEX_ELEMENTS: word := 5
  const FORMAT_R32G32B32A32_FLOAT: word := 3

  /** Where a host looks for the type of an object: virgl_protocol.h documents both places. The first host ignores
      what follows the first vertex buffer of a list; the last one wants three words for each, as documented. */
  datatype Dialect = TypeInPayload | TypeInHeader | BuffersInTriples

  /** One cell for every four bytes; a cell nobody wrote is None. */
  datatype Resource = Resource(size: nat, cells: seq<Option<word>>)
  datatype Element = Element(offset: word, divisor: word, buffer: word, format: word)
  datatype VertexBuffer = VertexBuffer(stride: word, offset: word, handle: word)

  /** What a draw fetched for one vertex: one list of four cells for each element. */
  type Fetched = seq<seq<Option<word>>>
  datatype Draw = Draw(mode: word, vertices: seq<Fetched>)

  datatype Host = Host(
    dialect: Dialect,
    resources: map<word, Resource>,
    elements: map<word, seq<Element>>,
    bound: Option<word>,
    buffer: Option<VertexBuffer>,
    draws: seq<Draw>)

  /** The header the translator's macro builds: ((len << 16) | cmd) in 32 bits. */
  function Header(command: int, length: int): word
    requires 0 <= command < 256
  {
    Wrap(length * 65536) + command
  }

  lemma WrapKeepsLowHalf(length: nat)
    ensures Wrap(length * 65536) == length % 65536 * 65536
  {
    var kept, lost := length % 65536, length / 65536;
    assert length == 65536 * lost + kept;
    assert length * 65536 == 0x1_0000_0000 * lost + 65536 * kept;
  }

  lemma HeaderFields(command: int, length: nat)
    requires 0 <= command < 256
    ensures Header(command, length) % 256 == command
    ensures Header(command, length) / 256 % 256 == 0
    ensures Header(command, length) / 65536 == length % 65536
  {
    var kept := length % 65536;
    WrapKeepsLowHalf(length);
    assert Header(command, length) == 65536 * kept + command;
    assert Header(command, length) / 256 == 256 * kept;
  }

  /** RESOURCE_CREATE_3D for a buffer: size bytes, none of them written. */
  function CreateBuffer(h: Host, handle: word, size: nat): Host {
    h.(resources := h.resources[handle := Resource(size, seq((size + 3) / 4, i => None))])
  }

  function ParseElements(words: seq<word>): seq<Element>
    requires |words| % 4 == 0
  {
    seq(|words| / 4, i requires 0 <= i < |words| / 4 =>
      Element(words[4 * i], words[4 * i + 1], words[4 * i + 2], words[4 * i + 3]))
  }

  /** The object type and the payload words that follow the object's handle and type. */
  function ObjectType(h: Host, objectType: int, payload: seq<word>): (int, seq<word>)
    requires |payload| >= 2
  {
    if h.dialect == TypeInHeader then (objectType, payload[1..]) else (payload[1], payload[2..])
  }

  /** A buffer has one level, one row and one layer; nothing else can be written inline. */
  predicate InBuffer(payload: seq<word>)
    requires |payload| >= 11
  {
    payload[1] == 0 && payload[6] == 0 && payload[7] == 0 && payload[9] == 1 && payload[10] == 1
  }

  function Inline(h: Host, payload: seq<word>): Option<Host> {
    if |payload| < 11 || !InBuffer(payload) then None
    else
      var handle, x, width, data := payload[0], payload[5], payload[8], payload[11..];
      if handle !in h.resources || |data| != (width as int + 3) / 4 || x % 4 != 0
      then None
      else
        var r := h.resources[handle];
        if |r.cells| < x / 4 + |data| then None
        else
          var written := seq(|data|, i requires 0 <= i < |data| => Some(data[i]));
          var cells := r.cells[..x / 4] + written + r.cells[x / 4 + |data|..];
          Some(h.(resources := h.resources[handle := r.(cells := cells)]))
  }

  function FetchCell(r: Resource, at: nat): Option<word> {
    if at % 4 == 0 && at / 4 < |r.cells| then r.cells[at / 4] else None
  }

  /** Four cells in a row, the size of FORMAT_R32G32B32A32_FLOAT. */
  function FetchAttribute(r: Resource, at: nat): seq<Option<word>> {
    [FetchCell(r, at), FetchCell(r, at + 4), FetchCell(r, at + 8), FetchCell(r, at + 12)]
  }

  function FetchVertex(r: Resource, elements: seq<Element>, vb: VertexBuffer, index: nat): Fetched {
    seq(|elements|, e requires 0 <= e < |elements| =>
      FetchAttribute(r, vb.offset + index * vb.stride + elements[e].offset))
  }

  predicate Fetchable(elements: seq<Element>) {
    forall e <- elements :: e.buffer == 0 && e.format == FORMAT_R32G32B32A32_FLOAT
  }

  /** Draws of one instance, without indices or restarts, whose vertices lie within the bounds they declare. */
  predicate PlainDraw(payload: seq<word>)
    requires |payload| == 11
  {
    && payload[3] == 0 && payload[4] == 1 && payload[6] == 0 && payload[7] == 0
    && payload[9] <= payload[0] && payload[0] as int + payload[1] <= payload[10] as int + 1
  }

  function DrawVbo(h: Host, payload: seq<word>): Option<Host> {
    if |payload| != 11 || !PlainDraw(payload) then None
    else if h.bound == None || h.bound.value !in h.elements || h.buffer == None then None
    else if h.buffer.value.handle !in h.resources || !Fetchable(h.elements[h.bound.value]) then None
    else
      var r, elements := h.resources[h.buffer.value.handle], h.elements[h.bound.value];
      var vertices := seq(payload[1], i requires 0 <= i < payload[1] =>
        FetchVertex(r, elements, h.buffer.value, payload[0] + i));
      Some(h.(draws := h.draws + [Draw(payload[2], vertices)]))
  }

  /** One decoded command; None when the host rejects it. */
  function Execute(h: Host, opcode: int, objectType: int, payload: seq<word>): Option<Host> {
    if opcode == CREATE_OBJECT && |payload| >= 2 then
      var (kind, rest) := ObjectType(h, objectType, payload);
      if kind != OBJECT_VERTEX_ELEMENTS || |rest| % 4 != 0 then None
      else Some(h.(elements := h.elements[payload[0] := ParseElements(rest)]))
    else if opcode == BIND_OBJECT && |payload| >= 2 then
      var (kind, rest) := ObjectType(h, objectType, payload);
      if kind != OBJECT_VERTEX_ELEMENTS || payload[0] !in h.elements then None
      else Some(h.(bound := Some(payload[0])))
    else if opcode == SET_VERTEX_BUFFERS && |payload| >= 3 then
      if h.dialect == BuffersInTriples && |payload| % 3 != 0 then None
      else Some(h.(buffer := Some(VertexBuffer(payload[0], payload[1], payload[2]))))
    else if opcode == DRAW_VBO then DrawVbo(h, payload)
    else if opcode == RESOURCE_INLINE_WRITE then Inline(h, payload)
    else None
  }

  /** A submission is a run of commands; the first one that cannot be decoded ends it. */
  function Submit(h: Host, words: seq<word>): Host
    decreases |words|
  {
    if words == [] then h
    else
      var length := words[0] / 65536;
      if |words| < 1 + length then h
      else
        match Execute(h, words[0] % 256, words[0] / 256 % 256, words[1..1 + length])
        case None => h
        case Some(next) => Submit(next, words[1 + length..])
  }

  /** A header that declares exactly the words that follow it is one command. */
  lemma SubmitOne(h: Host, command: int, payload: seq<word>)
    requires 0 <= command < 256 && |payload| < 65536
    ensures Submit(h, [Header(command, |payload|)] + payload) ==
            match Execute(h, command, 0, payload) { case None => h case Some(next) => next }
  {
    hide Execute, Header;
    var words := [Header(command, |payload|)] + payload;
    HeaderFields(command, |payload|);
    assert words[1..1 + |payload|] == payload;
    assert words[1 + |payload|..] == [];
    if Execute(h, command, 0, payload).Some? { NothingLeft(Execute(h, command, 0, payload).value); }
  }

  lemma NothingLeft(h: Host)
    ensures Submit(h, []) == h
  {}
}
