/** What immediate-mode OpenGL calls mean: the vertices issued between Begin and End, each
    with the attributes current at its call, and the primitives assembled from them
    (section 2.6.1 of the OpenGL 2.1 specification). */
module GLSemantics {
  import opened Words
  import opened Arithmetic

  datatype Vec4 = Vec4(x: word, y: word, z: word, w: word)
  datatype Vertex = Vertex(position: Vec4, color: Vec4, texcoord: Vec4)

  datatype Call =
    | Begin(mode: word)
    | End
    | Vertex2(x: word, y: word)
    | Vertex3(x: word, y: word, z: word)
    | Vertex4(x: word, y: word, z: word, w: word)
    | Color3(r: word, g: word, b: word)
    | Color4(r: word, g: word, b: word, a: word)
    | TexCoord2(s: word, t: word)
    | TexCoord3(s: word, t: word, r: word)

  /** Floats are carried as their bit patterns. */
  const FLOAT_ZERO: word := 0
  const FLOAT_ONE: word := 0x3F800000

  datatype Group = Group(mode: word, vertices: seq<Vertex>)

  datatype GL = GL(inside: bool, current: Group, color: Vec4, texcoord: Vec4, finished: seq<Group>)

  function Issue(gl: GL, position: Vec4): GL {
    if !gl.inside then gl
    else
      var v := Vertex(position, gl.color, gl.texcoord);
      gl.(current := gl.current.(vertices := gl.current.vertices + [v]))
  }

  /** An illegal call (nested Begin, End or a vertex outside) is an error and changes nothing. */
  function Apply(gl: GL, call: Call): GL {
    match call
    case Begin(mode) => if gl.inside then gl else gl.(inside := true, current := Group(mode, []))
    case End => if !gl.inside then gl else gl.(inside := false, finished := gl.finished + [gl.current])
    case Vertex2(x, y) => Issue(gl, Vec4(x, y, FLOAT_ZERO, FLOAT_ONE))
    case Vertex3(x, y, z) => Issue(gl, Vec4(x, y, z, FLOAT_ONE))
    case Vertex4(x, y, z, w) => Issue(gl, Vec4(x, y, z, w))
    case Color3(r, g, b) => gl.(color := Vec4(r, g, b, FLOAT_ONE))
    case Color4(r, g, b, a) => gl.(color := Vec4(r, g, b, a))
    case TexCoord2(s, t) => gl.(texcoord := Vec4(s, t, FLOAT_ZERO, FLOAT_ONE))
    case TexCoord3(s, t, r) => gl.(texcoord := Vec4(s, t, r, FLOAT_ONE))
  }

  function Interpret(gl: GL, calls: seq<Call>): GL
    decreases |calls|
  {
    if calls == [] then gl else Apply(Interpret(gl, calls[..|calls| - 1]), calls[|calls| - 1])
  }

  // ---------------------------------------------------------------- primitive assembly

  const POINTS: word := 0
  const LINES: word := 1
  const LINE_LOOP: word := 2
  const LINE_STRIP: word := 3
  const TRIANGLES: word := 4
  const TRIANGLE_STRIP: word := 5
  const TRIANGLE_FAN: word := 6
  const QUADS: word := 7
  const QUAD_STRIP: word := 8
  const POLYGON: word := 9

  /** How many primitives n vertices form. */
  function Count(mode: word, n: nat): nat {
    if mode == POINTS then n
    else if mode == LINES then n / 2
    else if mode == LINE_LOOP then if n < 2 then 0 else n
    else if mode == LINE_STRIP then AtLeast0(n - 1)
    else if mode == TRIANGLE_STRIP || mode == TRIANGLE_FAN then AtLeast0(n - 2)
    else if mode == QUADS then n / 4
    else if mode == QUAD_STRIP then AtLeast0(n - 2) / 2
    else if mode == POLYGON then if n < 3 then 0 else 1
    else n / 3
  }

  /** The i-th of them, as positions in the vertex stream. */
  function Primitive(mode: word, n: nat, i: nat): seq<nat>
    requires i < Count(mode, n)
  {
    if mode == POINTS then [i]
    else if mode == LINES then [2 * i, 2 * i + 1]
    else if mode == LINE_LOOP then [i, if i + 1 < n then i + 1 else 0]
    else if mode == LINE_STRIP then [i, i + 1]
    else if mode == TRIANGLE_STRIP then if i % 2 == 0 then [i, i + 1, i + 2] else [i + 1, i, i + 2]
    else if mode == TRIANGLE_FAN then [0, i + 1, i + 2]
    else if mode == QUADS then [4 * i, 4 * i + 1, 4 * i + 2, 4 * i + 3]
    else if mode == QUAD_STRIP then [2 * i, 2 * i + 1, 2 * i + 3, 2 * i + 2]
    else if mode == POLYGON then seq(n, k => k)
    else [3 * i, 3 * i + 1, 3 * i + 2]
  }

  function Assemble(mode: word, n: nat): (prims: seq<seq<nat>>)
    ensures |prims| == Count(mode, n)
  {
    seq(Count(mode, n), i requires 0 <= i < Count(mode, n) => Primitive(mode, n, i))
  }

  lemma PrimitiveWithin(mode: word, n: nat, i: nat, k: nat)
    requires i < Count(mode, n) && k < |Primitive(mode, n, i)|
    ensures Primitive(mode, n, i)[k] < n
  {}

  ghost predicate WithinAll(prims: seq<seq<nat>>, n: nat) {
    forall p, k | 0 <= p < |prims| && 0 <= k < |prims[p]| :: prims[p][k] < n
  }

  lemma AssembleWithin(mode: word, n: nat)
    ensures WithinAll(Assemble(mode, n), n)
  {
    forall p, k | 0 <= p < |Assemble(mode, n)| && 0 <= k < |Assemble(mode, n)[p]|
      ensures Assemble(mode, n)[p][k] < n
    {
      PrimitiveWithin(mode, n, p, k);
    }
  }

  /** The vertices at the listed positions. */
  ghost function At<V>(vertices: seq<V>, prims: seq<seq<nat>>): (r: seq<seq<V>>)
    requires WithinAll(prims, |vertices|)
    ensures |r| == |prims|
  {
    seq(|prims|, p requires 0 <= p < |prims| =>
      seq(|prims[p]|, k requires 0 <= k < |prims[p]| => vertices[prims[p][k]]))
  }

  /** The primitives themselves, as lists of vertices. */
  ghost function Primitives<V>(mode: word, vertices: seq<V>): (r: seq<seq<V>>)
    ensures |r| == Count(mode, |vertices|)
  {
    AssembleWithin(mode, |vertices|);
    At(vertices, Assemble(mode, |vertices|))
  }

  // ---------------------------------------------------------------- splitting into batches

  const MAX_BATCH := 10000

  /** Vertices of a group of n already sent when the group is still open: whole batches, never the last one. */
  function Sent(n: nat): (s: nat)
    ensures s <= n && s % MAX_BATCH == 0 && n - s <= MAX_BATCH && (n > 0 ==> s < n)
  {
    if n == 0 then 0 else (n - 1) / MAX_BATCH * MAX_BATCH
  }

  /** A group's vertices cut every MAX_BATCH. */
  function Batches<V>(vertices: seq<V>): seq<seq<V>>
    decreases |vertices|
  {
    if vertices == [] then []
    else var s := Sent(|vertices|); Batches(vertices[..s]) + [vertices[s..]]
  }

  function Moved(prim: seq<nat>, offset: nat): (r: seq<nat>)
    ensures |r| == |prim|
  {
    seq(|prim|, k requires 0 <= k < |prim| => prim[k] + offset)
  }

  function Shift(prims: seq<seq<nat>>, offset: nat): (r: seq<seq<nat>>)
    ensures |r| == |prims|
  {
    seq(|prims|, p requires 0 <= p < |prims| => Moved(prims[p], offset))
  }

  /** The primitives formed when every batch of a stream of n vertices is assembled by itself. */
  function AssembleSplit(mode: word, n: nat): seq<seq<nat>>
    decreases n
  {
    if n == 0 then [] else AssembleSplit(mode, Sent(n)) + Shift(Assemble(mode, n - Sent(n)), Sent(n))
  }

  predicate SplitSafe(mode: word, n: nat) {
    if mode == POINTS || mode == LINES || mode == QUADS then true
    else if mode == QUAD_STRIP || mode == TRIANGLES || mode > POLYGON then n <= MAX_BATCH + 1
    else n <= MAX_BATCH
  }

  /** Cutting a stream into batches keeps its primitives exactly for these modes and lengths. */
  lemma SplitKeepsPrimitives(mode: word, n: nat)
    ensures AssembleSplit(mode, n) == Assemble(mode, n) <==> SplitSafe(mode, n)
  {
    if SplitSafe(mode, n) {
      SplitSafeSuffices(mode, n);
    } else {
      NothingStraddles(mode, n);
      var p := StraddlingPrimitive(mode, n);
      assert Straddles(Assemble(mode, n)[p]);
    }
  }

  /** The primitives drawn when every batch is assembled by itself. */
  ghost function PrimitivesOfBatches<V>(mode: word, batches: seq<seq<V>>): seq<seq<V>>
    decreases |batches|
  {
    if batches == [] then []
    else PrimitivesOfBatches(mode, batches[..|batches| - 1]) + Primitives(mode, batches[|batches| - 1])
  }

  /** Cut vertex streams draw the stream's own primitives whenever mode and length are safe. */
  lemma BatchesKeepPrimitives<V>(mode: word, vertices: seq<V>)
    requires SplitSafe(mode, |vertices|)
    ensures PrimitivesOfBatches(mode, Batches(vertices)) == Primitives(mode, vertices)
  {
    BatchesDrawSplit(mode, vertices);
    SplitSafeSuffices(mode, |vertices|);
  }

  lemma {:induction false} BatchesDrawSplit<V>(mode: word, vertices: seq<V>)
    ensures WithinAll(AssembleSplit(mode, |vertices|), |vertices|)
    ensures PrimitivesOfBatches(mode, Batches(vertices)) == At(vertices, AssembleSplit(mode, |vertices|))
    decreases |vertices|
  {
    if vertices != [] {
      var s := Sent(|vertices|);
      var before, last := vertices[..s], vertices[s..];
      BatchesDrawSplit(mode, before);
      AssembleWithin(mode, |last|);
      var early, late := AssembleSplit(mode, s), Assemble(mode, |last|);
      assert Batches(vertices)[..|Batches(before)|] == Batches(before);
      AtPrefix(vertices, s, early);
      AtShifted(vertices, s, late);
      AtAppended(vertices, early, Shift(late, s));
    }
  }

  lemma AtPrefix<V>(vertices: seq<V>, s: nat, prims: seq<seq<nat>>)
    requires s <= |vertices| && WithinAll(prims, s)
    ensures At(vertices, prims) == At(vertices[..s], prims)
  {
    forall p | 0 <= p < |prims| ensures At(vertices, prims)[p] == At(vertices[..s], prims)[p] {}
  }

  lemma AtShifted<V>(vertices: seq<V>, s: nat, prims: seq<seq<nat>>)
    requires s <= |vertices| && WithinAll(prims, |vertices| - s)
    ensures WithinAll(Shift(prims, s), |vertices|)
    ensures At(vertices, Shift(prims, s)) == At(vertices[s..], prims)
  {
    forall p | 0 <= p < |prims| ensures At(vertices, Shift(prims, s))[p] == At(vertices[s..], prims)[p] {}
  }

  lemma AtAppended<V>(vertices: seq<V>, a: seq<seq<nat>>, b: seq<seq<nat>>)
    requires WithinAll(a, |vertices|) && WithinAll(b, |vertices|)
    ensures WithinAll(a + b, |vertices|)
    ensures At(vertices, a + b) == At(vertices, a) + At(vertices, b)
  {
    forall p, k | 0 <= p < |a + b| && 0 <= k < |(a + b)[p]| ensures (a + b)[p][k] < |vertices| {
      if p >= |a| { assert (a + b)[p] == b[p - |a|]; }
    }
  }

  /** The primitive reaches across the end of the first batch. */
  ghost predicate Straddles(prim: seq<nat>) {
    (exists k | 0 <= k < |prim| :: prim[k] < MAX_BATCH) && (exists k | 0 <= k < |prim| :: MAX_BATCH <= prim[k])
  }

  ghost predicate NoneStraddle(prims: seq<seq<nat>>) {
    forall p | 0 <= p < |prims| :: !Straddles(prims[p])
  }

  lemma ShiftedWithin(prims: seq<seq<nat>>, n: nat, offset: nat)
    requires WithinAll(prims, n) && offset % MAX_BATCH == 0 && n <= MAX_BATCH
    ensures NoneStraddle(Shift(prims, offset))
  {
    var shifted := Shift(prims, offset);
    forall p | 0 <= p < |shifted| ensures !Straddles(shifted[p]) {
      if offset == 0 {
        assert forall k | 0 <= k < |shifted[p]| :: shifted[p][k] == prims[p][k] < MAX_BATCH;
      } else {
        assert forall k | 0 <= k < |shifted[p]| :: shifted[p][k] >= MAX_BATCH;
      }
    }
  }

  lemma {:induction false} NothingStraddles(mode: word, n: nat)
    ensures NoneStraddle(AssembleSplit(mode, n))
    decreases n
  {
    if n > 0 {
      var s := Sent(n);
      NothingStraddles(mode, s);
      AssembleWithin(mode, n - s);
      ShiftedWithin(Assemble(mode, n - s), n - s, s);
    }
  }

  lemma StraddlingPrimitive(mode: word, n: nat) returns (p: nat)
    requires !SplitSafe(mode, n)
    ensures p < |Assemble(mode, n)| && Straddles(Assemble(mode, n)[p])
  {
    p := if mode == LINE_STRIP || mode == LINE_LOOP then 9999
         else if mode == TRIANGLE_STRIP || mode == TRIANGLE_FAN then 9998
         else if mode == QUAD_STRIP then 4999
         else if mode == POLYGON then 0
         else 3333;
    var prim := Primitive(mode, n, p);
    var below, above := 0, if mode == POLYGON then MAX_BATCH else |prim| - 1;
    assert prim[below] < MAX_BATCH <= prim[above];
  }

  lemma {:induction false} SplitSafeSuffices(mode: word, n: nat)
    requires SplitSafe(mode, n)
    ensures AssembleSplit(mode, n) == Assemble(mode, n)
    decreases n
  {
    hide SplitSafe, Assemble, Shift, Sent, Count, Primitive;
    if n == 0 {
      NothingAssembled(mode);
    } else {
      SafePrefix(mode, n);
      SplitSafeSuffices(mode, Sent(n));
      LastBatchJoins(mode, Sent(n), n - Sent(n));
    }
  }

  lemma NothingAssembled(mode: word)
    ensures Assemble(mode, 0) == []
  {}

  lemma SafePrefix(mode: word, n: nat)
    requires SplitSafe(mode, n)
    ensures SplitSafe(mode, Sent(n))
  {}

  lemma LastBatchJoins(mode: word, s: nat, r: nat)
    requires s % MAX_BATCH == 0 && 0 < r <= MAX_BATCH && SplitSafe(mode, s + r)
    ensures Assemble(mode, s) + Shift(Assemble(mode, r), s) == Assemble(mode, s + r)
  {
    if s == 0 {
      NothingAssembled(mode);
      ShiftByZero(Assemble(mode, r));
    } else {
      JoinAtBatch(mode, s, r);
    }
  }

  lemma ShiftByZero(prims: seq<seq<nat>>)
    ensures Shift(prims, 0) == prims
  {
    forall p | 0 <= p < |prims| ensures Shift(prims, 0)[p] == prims[p] {}
  }

  lemma JoinAtBatch(mode: word, s: nat, r: nat)
    requires s % MAX_BATCH == 0 && 0 < s && 0 < r <= MAX_BATCH && SplitSafe(mode, s + r)
    ensures Assemble(mode, s) + Shift(Assemble(mode, r), s) == Assemble(mode, s + r)
  {
    CountsAdd(mode, s, r);
    hide Count, Primitive, SplitSafe;
    var left, right := Assemble(mode, s), Shift(Assemble(mode, r), s);
    forall p: nat | p < Count(mode, s + r) ensures (left + right)[p] == Primitive(mode, s + r, p) {
      if p < Count(mode, s) {
        EarlierPrimitive(mode, s, r, p);
      } else {
        LaterPrimitive(mode, s, r, p - Count(mode, s));
      }
    }
  }

  lemma EarlierPrimitive(mode: word, s: nat, r: nat, p: nat)
    requires s % MAX_BATCH == 0 && 0 < s && 0 < r && SplitSafe(mode, s + r) && p < Count(mode, s)
    ensures p < Count(mode, s + r) && Assemble(mode, s)[p] == Primitive(mode, s + r, p)
  {}

  /** A stream that fills a batch and goes on is of one of three modes, or goes on by a single vertex. */
  lemma SafeContinues(mode: word, s: nat, r: nat)
    requires s % MAX_BATCH == 0 && 0 < s && 0 < r && SplitSafe(mode, s + r)
    ensures mode == POINTS || mode == LINES || mode == QUADS || (s == MAX_BATCH && r == 1 && Count(mode, r) == 0)
    ensures mode == LINES ==> Count(mode, s) == s / 2 && s % 2 == 0
    ensures mode == QUADS ==> Count(mode, s) == s / 4 && s % 4 == 0
  {
    BatchMultiple(s);
    if mode != POINTS && mode != LINES && mode != QUADS { assert s == MAX_BATCH && r == 1; }
  }

  lemma BatchMultiple(s: nat)
    requires s % MAX_BATCH == 0 && 0 < s
    ensures s >= MAX_BATCH && s % 2 == 0 && s % 4 == 0
  {
    var q := s / MAX_BATCH;
    assert s == 4 * (2500 * q) == 2 * (5000 * q);
  }

  lemma CountsAdd(mode: word, s: nat, r: nat)
    requires s % MAX_BATCH == 0 && 0 < s && 0 < r && SplitSafe(mode, s + r)
    ensures Count(mode, s) + Count(mode, r) == Count(mode, s + r)
  {
    SafeContinues(mode, s, r);
    hide SplitSafe;
  }

  lemma LaterPrimitive(mode: word, s: nat, r: nat, i: nat)
    requires s % MAX_BATCH == 0 && 0 < s && 0 < r && SplitSafe(mode, s + r) && i < Count(mode, r)
    requires Count(mode, s) + Count(mode, r) == Count(mode, s + r)
    ensures Shift(Assemble(mode, r), s)[i] == Primitive(mode, s + r, Count(mode, s) + i)
  {
    LaterPositions(mode, s, r, i);
    hide Count, Primitive, SplitSafe;
    assert Moved(Primitive(mode, r, i), s) == Primitive(mode, s + r, Count(mode, s) + i);
  }

  lemma LaterPositions(mode: word, s: nat, r: nat, i: nat)
    requires s % MAX_BATCH == 0 && 0 < s && 0 < r && SplitSafe(mode, s + r) && i < Count(mode, r)
    requires Count(mode, s) + Count(mode, r) == Count(mode, s + r)
    ensures |Primitive(mode, s + r, Count(mode, s) + i)| == |Primitive(mode, r, i)|
    ensures forall k | 0 <= k < |Primitive(mode, r, i)| ::
              Primitive(mode, s + r, Count(mode, s) + i)[k] == Primitive(mode, r, i)[k] + s
  {
    SafeContinues(mode, s, r);
    hide SplitSafe;
    assert mode == POINTS || mode == LINES || mode == QUADS;
  }
}
