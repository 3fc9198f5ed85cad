/** Copying and filling rectangles of surface memory, row by row (FB/VMIOSurfaceManager.cpp:2719-2854). */
module SurfaceRegions {
  import opened Words
  import opened Arithmetic
  import opened SurfaceRegistry

  type byte = x: int | 0 <= x < 256

  /** What the region operations read of a surface. */
  datatype Image = Image(width: word, height: word, format: Format, base: array<byte>) {
    /** Created within the size limit, its memory holding width times height pixels. */
    predicate Valid() {
      && 0 < width <= 16384 && 0 < height <= 16384
      && width * height * BytesPerPixel(format) <= base.Length
    }

    function Stride(): nat {
      width * BytesPerPixel(format)
    }
  }

  datatype Rect = Rect(x: word, y: word, width: word, height: word)

  /** The bounds check as computed: the sums keep 32 bits. */
  predicate Accepts(i: Image, r: Rect) {
    Wrap(r.x + r.width) <= i.width && Wrap(r.y + r.height) <= i.height
  }

  predicate Inside(i: Image, r: Rect) {
    r.x + r.width <= i.width && r.y + r.height <= i.height
  }

  predicate Wraps(r: Rect) {
    r.x + r.width >= 0x1_0000_0000 || r.y + r.height >= 0x1_0000_0000
  }

  /** An accepted rectangle lies inside the surface exactly when neither of its sums wraps. */
  lemma AcceptedIsInside(i: Image, r: Rect)
    requires Accepts(i, r)
    ensures Inside(i, r) <==> !Wraps(r)
  {}

  /** Where row k of a rectangle begins in memory. */
  function RowStart(i: Image, r: Rect, k: nat): nat {
    (r.y + k) * i.Stride() + r.x * BytesPerPixel(i.format)
  }

  ghost predicate InRow(i: Image, r: Rect, k: nat, at: int) {
    RowStart(i, r, k) <= at < RowStart(i, r, k) + r.width * BytesPerPixel(i.format)
  }

  /** Some row of the rectangle owns the byte. */
  ghost predicate Covers(i: Image, r: Rect, rows: nat, at: int) {
    exists k: nat | k < rows :: InRow(i, r, k, at)
  }

  /** A row of a rectangle inside the surface ends before the next begins and before the memory does. */
  lemma RowFits(i: Image, r: Rect, k: nat)
    requires i.Valid() && Inside(i, r) && k < r.height
    ensures RowStart(i, r, k) + r.width * BytesPerPixel(i.format) <= RowStart(i, r, k + 1)
    ensures RowStart(i, r, k) + r.width * BytesPerPixel(i.format) <= i.base.Length
    ensures RowStart(i, r, k) == RowStart(i, r, 0) + k * i.Stride() < 0x1_0000_0000
  {
    var bpp, stride := BytesPerPixel(i.format), i.Stride();
    LineFits(r.x, r.width, i.width, bpp);
    LinesAdd(r.y, k, stride);
    SurfaceFits(i);
    MulLe(r.y + k + 1, i.height, stride, stride);
  }

  lemma LineFits(x: nat, width: nat, whole: nat, bpp: nat)
    requires x + width <= whole
    ensures x * bpp + width * bpp <= whole * bpp
  {
    MulLe(x + width, whole, bpp, bpp);
    assert (x + width) * bpp == x * bpp + width * bpp;
  }

  lemma LinesAdd(y: nat, k: nat, stride: nat)
    ensures (y + k + 1) * stride == (y + k) * stride + stride
    ensures (y + k) * stride == y * stride + k * stride
    ensures (y + 0) * stride == y * stride
  {}

  /** All lines lie in the memory, and their bytes are counted in 32 bits. */
  lemma SurfaceFits(i: Image)
    requires i.Valid()
    ensures i.height * i.Stride() <= i.base.Length && i.height * i.Stride() < 0x1_0000_0000
  {
    var bpp := BytesPerPixel(i.format);
    Reorder(i.height, i.width, bpp);
    MulLe(i.width, 16384, i.height, 16384);
    MulLe(i.width * i.height, 16384 * 16384, bpp, 4);
  }

  lemma Reorder(h: nat, w: nat, b: nat)
    ensures h * (w * b) == w * h * b
  {}

  lemma RowsInOrder(i: Image, r: Rect, j: nat, k: nat)
    requires i.Valid() && Inside(i, r) && j < k <= r.height
    ensures RowStart(i, r, j) + r.width * BytesPerPixel(i.format) <= RowStart(i, r, k)
    decreases k
  {
    RowFits(i, r, j);
    if j + 1 < k {
      RowsInOrder(i, r, j, k - 1);
      RowFits(i, r, k - 1);
    }
  }

  // ---------------------------------------------------------------- copy

  /** The first rows of the target rectangle equal those of the source rectangle; every byte outside them is as before. */
  ghost predicate Copied(source: Image, from: seq<byte>, sr: Rect, target: Image, before: seq<byte>,
                         after: seq<byte>, tr: Rect, rows: nat) {
    && |before| == |after|
    && (forall k: nat | k < rows ::
          SameBytes(after, RowStart(target, tr, k), from, RowStart(source, sr, k), tr.width * BytesPerPixel(target.format)))
    && (forall at | 0 <= at < |after| && !Covers(target, tr, rows, at) :: after[at] == before[at])
  }

  predicate SameBytes(a: seq<byte>, at: nat, from: seq<byte>, start: nat, n: nat) {
    at + n <= |a| && start + n <= |from| && a[at..at + n] == from[start..start + n]
  }

  /** Within one array the two ranges may not overlap. */
  method MemCopy(target: array<byte>, at: nat, source: array<byte>, from: nat, n: nat)
    requires at + n <= target.Length && from + n <= source.Length
    requires target != source || at + n <= from || from + n <= at
    modifies target
    ensures target[..] == old(target[..at]) + old(source[from..from + n]) + old(target[at + n..])
  {
    forall t | at <= t < at + n { target[t] := source[from + t - at]; }
  }

  /** The answers copySurfaceRegion gives, for sums that do not wrap. */
  function CopyStatus(someIdZero: bool, source: Option<Image>, target: Option<Image>, sr: Rect, tr: Rect): Status {
    if someIdZero || sr.width == 0 || sr.height == 0 then BadArgument
    else if source.None? || target.None? then NotFound
    else if !Inside(source.value, sr) || !Inside(target.value, tr) then BadArgument
    else if source.value.format != target.value.format then BadArgument
    else Success
  }

  /** Only a request that some other bound refuses may wrap. */
  predicate CopyDoesNotWrap(source: Option<Image>, target: Option<Image>, sr: Rect, tr: Rect) {
    source.Some? && target.Some? && Accepts(source.value, sr) && Accepts(target.value, tr) ==> !Wraps(sr) && !Wraps(tr)
  }

  method CheckCopy(sourceId: word, targetId: word, source: Option<Image>, target: Option<Image>, sr: Rect, tr: Rect)
    returns (status: Status)
    requires CopyDoesNotWrap(source, target, sr, tr)
    ensures status == CopyStatus(sourceId == 0 || targetId == 0, source, target, sr, tr)
  {
    if sourceId == 0 || targetId == 0 || sr.width == 0 || sr.height == 0 { return BadArgument; }
    if source.None? || target.None? { return NotFound; }
    if !Accepts(source.value, sr) || !Accepts(target.value, tr) { return BadArgument; }
    if source.value.format != target.value.format { return BadArgument; }
    status := Success;
  }

  predicate ColumnsApart(sr: Rect, tr: Rect) {
    sr.x + sr.width <= tr.x || tr.x + tr.width <= sr.x
  }

  /** Within one surface, no row is copied sideways over itself. */
  predicate Defined(s: Image, t: Image, sr: Rect, tr: Rect) {
    s.base != t.base || (s == t && (ColumnsApart(sr, tr) || sr.y != tr.y))
  }

  predicate Copies(s: Image, sr: Rect, t: Image, tr: Rect) {
    && s.Valid() && t.Valid() && s.format == t.format && Inside(s, sr) && Inside(t, tr)
    && sr.width == tr.width && sr.height == tr.height
  }

  /** n bytes of one memory put into another. */
  ghost predicate Placed(mid: seq<byte>, at: nat, from: seq<byte>, start: nat, n: nat, after: seq<byte>) {
    && at + n <= |mid| && start + n <= |from|
    && after == mid[..at] + from[start..start + n] + mid[at + n..]
  }

  /** The target's memory after one more row; within one surface the row is read as the rows before left it. */
  ghost function RowCopied(s: Image, sr: Rect, from: seq<byte>, t: Image, tr: Rect, mid: seq<byte>, y: nat)
    : (after: seq<byte>)
    requires Copies(s, sr, t, tr) && y < tr.height && |from| == s.base.Length && |mid| == t.base.Length
    ensures |after| == |mid|
  {
    var n := tr.width * BytesPerPixel(t.format);
    RowFits(s, sr, y);
    RowFits(t, tr, y);
    var start, at := RowStart(s, sr, y), RowStart(t, tr, y);
    mid[..at] + (if s.base == t.base then mid else from)[start..start + n] + mid[at + n..]
  }

  ghost function RowsCopied(s: Image, sr: Rect, from: seq<byte>, t: Image, tr: Rect, before: seq<byte>, rows: nat)
    : (after: seq<byte>)
    requires Copies(s, sr, t, tr) && rows <= tr.height && |from| == s.base.Length && |before| == t.base.Length
    ensures |after| == |before|
  {
    if rows == 0 then before
    else RowCopied(s, sr, from, t, tr, RowsCopied(s, sr, from, t, tr, before, rows - 1), rows - 1)
  }

  method CopyRegion(sourceId: word, targetId: word, source: Option<Image>, target: Option<Image>, sr: Rect, tr: Rect)
    returns (status: Status)
    requires sr.width == tr.width && sr.height == tr.height && CopyDoesNotWrap(source, target, sr, tr)
    requires source.Some? ==> source.value.Valid()
    requires target.Some? ==> target.value.Valid()
    requires source.Some? && target.Some? ==> Defined(source.value, target.value, sr, tr)
    modifies if target.Some? then {target.value.base} else {}
    ensures status == CopyStatus(sourceId == 0 || targetId == 0, source, target, sr, tr)
    ensures status != Success && target.Some? ==> target.value.base[..] == old(target.value.base[..])
    ensures status == Success ==>
              target.value.base[..] == RowsCopied(source.value, sr, old(source.value.base[..]),
                                                  target.value, tr, old(target.value.base[..]), tr.height)
  {
    status := CheckCopy(sourceId, targetId, source, target, sr, tr);
    if status == Success { CopyRows(source.value, sr, target.value, tr); }
  }

  method CopyRows(s: Image, sr: Rect, t: Image, tr: Rect)
    requires Copies(s, sr, t, tr) && Defined(s, t, sr, tr) && 0 < sr.height
    modifies t.base
    ensures t.base[..] == RowsCopied(s, sr, old(s.base[..]), t, tr, old(t.base[..]), tr.height)
  {
    var bpp := BytesPerPixel(s.format);
    var sourceStride, targetStride := Wrap(s.width * bpp), Wrap(t.width * bpp);
    var from := Wrap(sr.y * sourceStride) + Wrap(sr.x * bpp);
    var at := Wrap(tr.y * targetStride) + Wrap(tr.x * bpp);
    var rowBytes := Wrap(sr.width * bpp);
    NothingWraps(s, sr);
    NothingWraps(t, tr);
    CopyRowsFrom(s, sr, t, tr, from, at, sourceStride, targetStride, rowBytes);
  }

  /** The loop over the rows, with its two pointers. */
  method CopyRowsFrom(s: Image, sr: Rect, t: Image, tr: Rect, source: nat, target: nat, sourceStride: nat,
                      targetStride: nat, rowBytes: nat)
    requires Copies(s, sr, t, tr) && Defined(s, t, sr, tr)
    requires source == RowStart(s, sr, 0) && sourceStride == s.Stride()
    requires target == RowStart(t, tr, 0) && targetStride == t.Stride()
    requires rowBytes == tr.width * BytesPerPixel(t.format)
    modifies t.base
    ensures t.base[..] == RowsCopied(s, sr, old(s.base[..]), t, tr, old(t.base[..]), tr.height)
  {
    hide RowStart, RowCopied, Inside, Image.Valid;
    var from, at := source, target;
    var y := 0;
    while y < sr.height
      invariant y <= sr.height
      invariant from == RowStart(s, sr, y) && at == RowStart(t, tr, y)
      invariant s.base != t.base ==> s.base[..] == old(s.base[..])
      invariant t.base[..] == RowsCopied(s, sr, old(s.base[..]), t, tr, old(t.base[..]), y)
    {
      CopyRow(s, sr, t, tr, y, from, at, rowBytes, old(s.base[..]));
      RowStep(s, sr, y);
      RowStep(t, tr, y);
      from := from + sourceStride;
      at := at + targetStride;
      y := y + 1;
    }
  }

  method CopyRow(s: Image, sr: Rect, t: Image, tr: Rect, ghost y: nat, from: nat, at: nat, rowBytes: nat,
                 ghost source: seq<byte>)
    requires Copies(s, sr, t, tr) && Defined(s, t, sr, tr) && y < tr.height
    requires from == RowStart(s, sr, y) && at == RowStart(t, tr, y) && rowBytes == tr.width * BytesPerPixel(t.format)
    requires |source| == s.base.Length && (s.base != t.base ==> source == s.base[..])
    modifies t.base
    ensures t.base[..] == RowCopied(s, sr, source, t, tr, old(t.base[..]), y)
  {
    hide RowStart, RowCopied, Inside, Copies, Image.Valid, Defined, BytesPerPixel;
    RowsFit(s, sr, t, tr, y);
    if s.base == t.base { SidewaysApart(s, sr, t, tr, y); }
    ghost var mid, bytes := t.base[..], s.base[..];
    RowIsPlaced(s, sr, source, t, tr, mid, y);
    MemCopy(t.base, at, s.base, from, rowBytes);
    assert t.base[..] == mid[..at] + bytes[from..from + rowBytes] + mid[at + rowBytes..];
  }

  predicate SameRow(i: Image, sr: Rect, k: nat, tr: Rect, j: nat) {
    RowStart(i, sr, k) < RowStart(i, tr, j) + tr.width * BytesPerPixel(i.format)
    && RowStart(i, tr, j) < RowStart(i, sr, k) + sr.width * BytesPerPixel(i.format)
  }

  /** Two rows of pixels in one surface share bytes exactly when they share a line and a column. */
  lemma RowsMeetExactly(i: Image, sr: Rect, k: nat, tr: Rect, j: nat)
    requires i.Valid() && BytesPerPixel(i.format) > 0 && Inside(i, sr) && Inside(i, tr)
    requires k < sr.height && j < tr.height && 0 < sr.width && 0 < tr.width
    ensures SameRow(i, sr, k, tr, j) <==> sr.y + k == tr.y + j && !ColumnsApart(sr, tr)
  {
    if sr.y + k == tr.y + j {
      ColumnsMeet(sr.x, sr.width, tr.x, BytesPerPixel(i.format));
      ColumnsMeet(tr.x, tr.width, sr.x, BytesPerPixel(i.format));
    } else if sr.y + k < tr.y + j {
      LinesApart(i, sr, k, tr, j);
    } else {
      LinesApart(i, tr, j, sr, k);
    }
  }

  lemma ColumnsMeet(x: nat, width: nat, other: nat, bpp: nat)
    requires bpp > 0
    ensures x * bpp + width * bpp <= other * bpp <==> x + width <= other
  {
    assert x * bpp + width * bpp == (x + width) * bpp;
    if x + width <= other { MulLe(x + width, other, bpp, bpp); } else { MulLe(other + 1, x + width, bpp, bpp); }
  }

  lemma LinesApart(i: Image, a: Rect, k: nat, b: Rect, j: nat)
    requires i.Valid() && Inside(i, a) && a.y + k < b.y + j
    ensures RowStart(i, a, k) + a.width * BytesPerPixel(i.format) <= RowStart(i, b, j)
  {
    var bpp, stride := BytesPerPixel(i.format), i.Stride();
    MulLe(a.x + a.width, i.width, bpp, bpp);
    assert (a.x + a.width) * bpp == a.x * bpp + a.width * bpp;
    MulLe(a.y + k + 1, b.y + j, stride, stride);
    assert (a.y + k + 1) * stride == (a.y + k) * stride + stride;
  }

  /** Within one surface: not sideways over itself, and not down by less than its height. */
  predicate Orderly(sr: Rect, tr: Rect) {
    ColumnsApart(sr, tr) || tr.y < sr.y || sr.y + sr.height <= tr.y
  }

  lemma SidewaysApart(s: Image, sr: Rect, t: Image, tr: Rect, y: nat)
    requires Copies(s, sr, t, tr) && Defined(s, t, sr, tr) && s.base == t.base && y < tr.height
    ensures var n := tr.width * BytesPerPixel(t.format);
            RowStart(s, sr, y) + n <= RowStart(t, tr, y) || RowStart(t, tr, y) + n <= RowStart(s, sr, y)
  {
    var bpp := BytesPerPixel(s.format);
    if 0 < sr.width && 0 < bpp { RowsMeetExactly(s, sr, y, tr, y); } else { assert tr.width * bpp == 0; }
  }

  lemma RowsFit(s: Image, sr: Rect, t: Image, tr: Rect, y: nat)
    requires Copies(s, sr, t, tr) && y < tr.height
    ensures var n := tr.width * BytesPerPixel(t.format);
            RowStart(s, sr, y) + n <= s.base.Length && RowStart(t, tr, y) + n <= t.base.Length
  {
    RowFits(s, sr, y);
    RowFits(t, tr, y);
    hide RowStart;
  }

  /** A row lies before or after every row already written, and the one written from it. */
  lemma RowsApart(i: Image, sr: Rect, k: nat, tr: Rect, j: nat)
    requires i.Valid() && Inside(i, sr) && Inside(i, tr) && Orderly(sr, tr)
    requires sr.width == tr.width && j <= k < sr.height == tr.height
    ensures var n := tr.width * BytesPerPixel(i.format);
            RowStart(i, sr, k) + n <= RowStart(i, tr, j) || RowStart(i, tr, j) + n <= RowStart(i, sr, k)
  {
    var bpp := BytesPerPixel(i.format);
    if 0 < sr.width && 0 < bpp {
      RowsMeetExactly(i, sr, k, tr, j);
    } else {
      assert tr.width * bpp == 0;
    }
  }

  /** So the row still holds what it did at the start. */
  lemma NotYetWritten(i: Image, sr: Rect, tr: Rect, start: seq<byte>, mid: seq<byte>, y: nat)
    requires i.Valid() && Inside(i, sr) && Inside(i, tr) && Orderly(sr, tr)
    requires sr.width == tr.width && y < sr.height == tr.height && |start| == i.base.Length
    requires Copied(i, start, sr, i, start, mid, tr, y)
    ensures var from, n := RowStart(i, sr, y), sr.width * BytesPerPixel(i.format);
            from + n <= |mid| && mid[from..from + n] == start[from..from + n]
  {
    RowFits(i, sr, y);
    var from, n := RowStart(i, sr, y), sr.width * BytesPerPixel(i.format);
    forall at | from <= at < from + n ensures mid[at] == start[at] {
      forall k: nat | k < y ensures !InRow(i, tr, k, at) { RowsApart(i, sr, y, tr, k); }
      assert !Covers(i, tr, y, at);
    }
  }

  lemma RowIsPlaced(s: Image, sr: Rect, from: seq<byte>, t: Image, tr: Rect, mid: seq<byte>, y: nat)
    requires Copies(s, sr, t, tr) && y < tr.height && |from| == s.base.Length && |mid| == t.base.Length
    ensures Placed(mid, RowStart(t, tr, y), if s.base == t.base then mid else from, RowStart(s, sr, y),
                   tr.width * BytesPerPixel(t.format), RowCopied(s, sr, from, t, tr, mid, y))
  {
    RowFits(s, sr, y);
    RowFits(t, tr, y);
  }

  lemma SamePlaced(mid: seq<byte>, at: nat, a: seq<byte>, b: seq<byte>, start: nat, n: nat, after: seq<byte>)
    requires Placed(mid, at, a, start, n, after) && |b| == |a| && a[start..start + n] == b[start..start + n]
    ensures Placed(mid, at, b, start, n, after)
  {}

  /** A row read from the target's own memory is, in an orderly copy, the row as it was at the start. */
  lemma ReadsTheStart(s: Image, sr: Rect, from: seq<byte>, t: Image, tr: Rect, before: seq<byte>, mid: seq<byte>, y: nat)
    requires Copies(s, sr, t, tr) && y < tr.height && |from| == s.base.Length && |before| == |mid| == t.base.Length
    requires s.base != t.base || (s == t && from == before && Orderly(sr, tr))
    requires Copied(s, from, sr, t, before, mid, tr, y)
    ensures Placed(mid, RowStart(t, tr, y), from, RowStart(s, sr, y), tr.width * BytesPerPixel(t.format),
                   RowCopied(s, sr, from, t, tr, mid, y))
  {
    RowIsPlaced(s, sr, from, t, tr, mid, y);
    hide RowCopied, RowStart, Placed, Copied;
    if s.base == t.base {
      NotYetWritten(s, sr, tr, before, mid, y);
      SamePlaced(mid, RowStart(t, tr, y), mid, from, RowStart(s, sr, y), tr.width * BytesPerPixel(t.format),
                 RowCopied(s, sr, from, t, tr, mid, y));
    }
  }

  /** Between two memories, and in an orderly copy within one, the target rectangle receives the source
      rectangle as it was, and no other byte changes. */
  lemma {:induction false} CopyIsExact(s: Image, sr: Rect, from: seq<byte>, t: Image, tr: Rect, before: seq<byte>,
                                       rows: nat)
    requires Copies(s, sr, t, tr) && rows <= tr.height && |from| == s.base.Length && |before| == t.base.Length
    requires s.base != t.base || (s == t && from == before && Orderly(sr, tr))
    ensures Copied(s, from, sr, t, before, RowsCopied(s, sr, from, t, tr, before, rows), tr, rows)
    decreases rows
  {
    hide Copied, Placed, RowCopied, Copies, Orderly;
    if rows > 0 {
      CopyIsExact(s, sr, from, t, tr, before, rows - 1);
      var mid := RowsCopied(s, sr, from, t, tr, before, rows - 1);
      ReadsTheStart(s, sr, from, t, tr, before, mid, rows - 1);
      OneMoreRow(s, from, sr, t, before, mid, RowCopied(s, sr, from, t, tr, mid, rows - 1), tr, rows - 1);
    } else {
      NothingCopied(s, sr, from, t, tr, before);
    }
  }

  /** Where a pixel's bytes begin: pixels lie line by line. */
  function PixelStart(i: Image, x: nat, y: nat): nat {
    (y * i.width + x) * BytesPerPixel(i.format)
  }

  lemma PixelInRow(i: Image, r: Rect, x: nat, k: nat)
    ensures PixelStart(i, r.x + x, r.y + k) == RowStart(i, r, k) + x * BytesPerPixel(i.format)
  {
    PixelByLine(r.y + k, i.width, r.x, x, BytesPerPixel(i.format));
  }

  lemma PixelByLine(line: nat, width: nat, left: nat, x: nat, bpp: nat)
    ensures (line * width + (left + x)) * bpp == line * (width * bpp) + left * bpp + x * bpp
  {
    assert (line * width + (left + x)) * bpp == line * width * bpp + (left + x) * bpp;
    assert (left + x) * bpp == left * bpp + x * bpp;
    assert line * width * bpp == line * (width * bpp);
  }

  lemma ByteInLine(x: nat, width: nat, bpp: nat, b: nat)
    requires x < width && b < bpp
    ensures x * bpp + b < width * bpp
  {
    MulLe(x + 1, width, bpp, bpp);
    assert (x + 1) * bpp == x * bpp + bpp;
  }

  /** Pixel by pixel: what stood at (x, y) of the source rectangle stands at (x, y) of the target rectangle. */
  lemma PixelIsCopied(s: Image, from: seq<byte>, sr: Rect, t: Image, before: seq<byte>, after: seq<byte>, tr: Rect,
                      x: nat, y: nat, b: nat)
    requires Copies(s, sr, t, tr) && Copied(s, from, sr, t, before, after, tr, tr.height)
    requires x < tr.width && y < tr.height && b < BytesPerPixel(t.format)
    ensures var to, at := PixelStart(t, tr.x + x, tr.y + y) + b, PixelStart(s, sr.x + x, sr.y + y) + b;
            to < |after| && at < |from| && after[to] == from[at]
  {
    PixelInRow(t, tr, x, y);
    PixelInRow(s, sr, x, y);
    var bpp := BytesPerPixel(t.format);
    ByteInLine(x, tr.width, bpp, b);
    hide RowStart, PixelStart, BytesPerPixel;
    SameByte(after, RowStart(t, tr, y), from, RowStart(s, sr, y), tr.width * bpp, x * bpp + b);
  }

  /** A rectangle covers no byte of a pixel beside it, above it or below it. */
  lemma OutsideIsNotCovered(i: Image, r: Rect, x: nat, y: nat, b: nat)
    requires i.Valid() && Inside(i, r) && x < i.width && y < i.height && b < BytesPerPixel(i.format)
    requires x < r.x || r.x + r.width <= x || y < r.y || r.y + r.height <= y
    ensures !Covers(i, r, r.height, PixelStart(i, x, y) + b)
  {
    var pixel := Rect(x, y, 1, 1);
    PixelInRow(i, pixel, 0, 0);
    var bpp := BytesPerPixel(i.format);
    var at := PixelStart(i, x, y) + b;
    forall k: nat | k < r.height ensures !InRow(i, r, k, at) {
      if 0 < r.width {
        RowsMeetExactly(i, r, k, pixel, 0);
      } else {
        assert r.width * bpp == 0;
      }
    }
  }

  lemma OtherPixelIsKept(s: Image, from: seq<byte>, sr: Rect, t: Image, before: seq<byte>, after: seq<byte>, tr: Rect,
                         x: nat, y: nat, b: nat)
    requires Copies(s, sr, t, tr) && Copied(s, from, sr, t, before, after, tr, tr.height) && |after| == t.base.Length
    requires x < t.width && y < t.height && b < BytesPerPixel(t.format)
    requires x < tr.x || tr.x + tr.width <= x || y < tr.y || tr.y + tr.height <= y
    ensures var at := PixelStart(t, x, y) + b; at < |after| && after[at] == before[at]
  {
    PixelFits(t, x, y, b);
    OutsideIsNotCovered(t, tr, x, y, b);
    hide RowStart, PixelStart;
  }

  lemma PixelFits(i: Image, x: nat, y: nat, b: nat)
    requires i.Valid() && x < i.width && y < i.height && b < BytesPerPixel(i.format)
    ensures PixelStart(i, x, y) + b < i.base.Length
  {
    MulLe(y + 1, i.height, i.width, i.width);
    assert (y + 1) * i.width == y * i.width + i.width;
    assert i.width * i.height == i.height * i.width;
    ByteInLine(y * i.width + x, i.height * i.width, BytesPerPixel(i.format), b);
  }

  lemma NothingCopied(s: Image, sr: Rect, from: seq<byte>, t: Image, tr: Rect, before: seq<byte>)
    ensures Copied(s, from, sr, t, before, before, tr, 0)
  {}

  lemma Shorter(i: Image, sr: Rect, tr: Rect, height: word)
    requires Copies(i, sr, i, tr) && height <= tr.height
    ensures Copies(i, sr.(height := height), i, tr.(height := height))
  {}

  lemma ShorterRow(i: Image, sr: Rect, tr: Rect, height: word, mid: seq<byte>, y: nat)
    requires Copies(i, sr, i, tr) && Copies(i, sr.(height := height), i, tr.(height := height))
    requires y < height <= tr.height && |mid| == i.base.Length
    ensures RowCopied(i, sr.(height := height), mid, i, tr.(height := height), mid, y)
            == RowCopied(i, sr, mid, i, tr, mid, y)
  {}

  lemma ReadsItself(i: Image, sr: Rect, tr: Rect, before: seq<byte>, mid: seq<byte>, y: nat)
    requires Copies(i, sr, i, tr) && y < tr.height && |before| == |mid| == i.base.Length
    ensures RowCopied(i, sr, before, i, tr, mid, y) == RowCopied(i, sr, mid, i, tr, mid, y)
  {}

  /** The rows copied do not depend on how many more follow. */
  lemma {:induction false} FirstRowsAlone(i: Image, sr: Rect, tr: Rect, height: word, before: seq<byte>, rows: nat)
    requires Copies(i, sr, i, tr) && rows <= height <= tr.height && |before| == i.base.Length
    requires Copies(i, sr.(height := height), i, tr.(height := height))
    ensures RowsCopied(i, sr.(height := height), before, i, tr.(height := height), before, rows)
            == RowsCopied(i, sr, before, i, tr, before, rows)
    decreases rows
  {
    hide RowCopied, Copies;
    if rows > 0 {
      FirstRowsAlone(i, sr, tr, height, before, rows - 1);
      var mid := RowsCopied(i, sr, before, i, tr, before, rows - 1);
      ReadsItself(i, sr, tr, before, mid, rows - 1);
      ReadsItself(i, sr.(height := height), tr.(height := height), before, mid, rows - 1);
      ShorterRow(i, sr, tr, height, mid, rows - 1);
    }
  }

  lemma RowKeeps(i: Image, sr: Rect, tr: Rect, before: seq<byte>, mid: seq<byte>, k: nat, y: nat, at: nat)
    requires Copies(i, sr, i, tr) && k < y < tr.height && |before| == |mid| == i.base.Length
    requires InRow(i, tr, k, at) && at < |mid|
    ensures RowCopied(i, sr, before, i, tr, mid, y)[at] == mid[at]
  {
    RowIsPlaced(i, sr, before, i, tr, mid, y);
    RowsInOrder(i, tr, k, y);
  }

  lemma {:induction false} LaterRowsKeep(i: Image, sr: Rect, tr: Rect, before: seq<byte>, k: nat, rows: nat, at: nat)
    requires Copies(i, sr, i, tr) && k < rows <= tr.height && |before| == i.base.Length
    requires InRow(i, tr, k, at) && at < |before|
    ensures RowsCopied(i, sr, before, i, tr, before, rows)[at] == RowsCopied(i, sr, before, i, tr, before, k + 1)[at]
    decreases rows
  {
    hide RowCopied, Copies, InRow;
    if k + 1 < rows {
      LaterRowsKeep(i, sr, tr, before, k, rows - 1, at);
      RowKeeps(i, sr, tr, before, RowsCopied(i, sr, before, i, tr, before, rows - 1), k, rows - 1, at);
    }
  }

  predicate SameAt(a: seq<byte>, at: nat, b: seq<byte>, from: nat) {
    at < |a| && from < |b| && a[at] == b[from]
  }

  lemma RowBrings(i: Image, sr: Rect, tr: Rect, before: seq<byte>, mid: seq<byte>, k: nat, o: nat)
    requires Copies(i, sr, i, tr) && k < tr.height && |before| == |mid| == i.base.Length
    requires o < tr.width * BytesPerPixel(i.format)
    ensures InRow(i, tr, k, RowStart(i, tr, k) + o)
    ensures SameAt(RowCopied(i, sr, before, i, tr, mid, k), RowStart(i, tr, k) + o, mid, RowStart(i, sr, k) + o)
  {
    RowIsPlaced(i, sr, before, i, tr, mid, k);
  }

  /** A byte of a target row comes from its place in the source row, as the rows before left it. */
  lemma ByteComesFrom(i: Image, sr: Rect, tr: Rect, before: seq<byte>, k: nat, from: nat, at: nat)
    requires Copies(i, sr, i, tr) && k < tr.height && |before| == i.base.Length
    requires InRow(i, tr, k, at)
    requires var mid := RowsCopied(i, sr, before, i, tr, before, k);
             SameAt(RowCopied(i, sr, before, i, tr, mid, k), at, mid, from)
    ensures SameAt(RowsCopied(i, sr, before, i, tr, before, tr.height), at,
                   RowsCopied(i, sr, before, i, tr, before, k), from)
  {
    hide RowCopied, Copies, InRow;
    LaterRowsKeep(i, sr, tr, before, k, tr.height, at);
  }

  /** The rows of a downward copy before its own target begins are orderly by themselves. */
  lemma FirstRowsAreExact(i: Image, sr: Rect, tr: Rect, before: seq<byte>, d: word)
    requires Copies(i, sr, i, tr) && |before| == i.base.Length && tr.y == sr.y + d && 0 < d <= tr.height
    ensures SameBytes(RowsCopied(i, sr, before, i, tr, before, d), RowStart(i, tr, 0), before, RowStart(i, sr, 0),
                      tr.width * BytesPerPixel(i.format))
  {
    Shorter(i, sr, tr, d);
    FirstRowsAlone(i, sr, tr, d, before, d);
    CopyIsExact(i, sr.(height := d), before, i, tr.(height := d), before, d);
    assert RowStart(i, tr.(height := d), 0) == RowStart(i, tr, 0) && RowStart(i, sr.(height := d), 0) == RowStart(i, sr, 0);
  }

  /** A byte of row d of the source that is a byte of row 0 of the target as well. */
  ghost predicate Meet(i: Image, sr: Rect, tr: Rect, d: nat, o: nat, first: nat) {
    && o < tr.width * BytesPerPixel(i.format) && first < tr.width * BytesPerPixel(i.format)
    && RowStart(i, sr, d) + o == RowStart(i, tr, 0) + first
  }

  /** Where a downward copy meets itself, the target shows the source's first row again. */
  lemma DownwardRepeats(i: Image, sr: Rect, tr: Rect, before: seq<byte>, d: word, o: nat, first: nat)
    requires Copies(i, sr, i, tr) && |before| == i.base.Length && tr.y == sr.y + d && 0 < d < tr.height
    requires Meet(i, sr, tr, d, o, first)
    ensures SameAt(RowsCopied(i, sr, before, i, tr, before, tr.height), RowStart(i, tr, d) + o,
                   before, RowStart(i, sr, 0) + first)
  {
    hide RowStart, RowCopied, RowsCopied, Copies, InRow;
    ByteIsBrought(i, sr, tr, before, d, o);
    FirstRowByte(i, sr, tr, before, d, first);
  }

  lemma ByteIsBrought(i: Image, sr: Rect, tr: Rect, before: seq<byte>, k: nat, o: nat)
    requires Copies(i, sr, i, tr) && k < tr.height && |before| == i.base.Length
    requires o < tr.width * BytesPerPixel(i.format)
    ensures SameAt(RowsCopied(i, sr, before, i, tr, before, tr.height), RowStart(i, tr, k) + o,
                   RowsCopied(i, sr, before, i, tr, before, k), RowStart(i, sr, k) + o)
  {
    hide RowStart, RowCopied, RowsCopied, Copies, InRow;
    RowBrings(i, sr, tr, before, RowsCopied(i, sr, before, i, tr, before, k), k, o);
    ByteComesFrom(i, sr, tr, before, k, RowStart(i, sr, k) + o, RowStart(i, tr, k) + o);
  }

  lemma FirstRowByte(i: Image, sr: Rect, tr: Rect, before: seq<byte>, d: word, first: nat)
    requires Copies(i, sr, i, tr) && |before| == i.base.Length && tr.y == sr.y + d && 0 < d <= tr.height
    requires first < tr.width * BytesPerPixel(i.format)
    ensures SameAt(RowsCopied(i, sr, before, i, tr, before, d), RowStart(i, tr, 0) + first,
                   before, RowStart(i, sr, 0) + first)
  {
    hide RowStart, RowCopied, RowsCopied, Copies;
    FirstRowsAreExact(i, sr, tr, before, d);
    SameByte(RowsCopied(i, sr, before, i, tr, before, d), RowStart(i, tr, 0), before, RowStart(i, sr, 0),
             tr.width * BytesPerPixel(i.format), first);
  }

  /** They meet in every column that both have. */
  lemma MeetingPoint(i: Image, sr: Rect, tr: Rect, d: nat) returns (o: nat, first: nat)
    requires tr.y == sr.y + d && sr.width == tr.width && !ColumnsApart(sr, tr) && BytesPerPixel(i.format) > 0
    ensures Meet(i, sr, tr, d, o, first)
  {
    var column := if sr.x < tr.x then tr.x else sr.x;
    var bpp := BytesPerPixel(i.format);
    o, first := (column - sr.x) * bpp, (column - tr.x) * bpp;
    MulLe(column - sr.x + 1, tr.width, bpp, bpp);
    MulLe(column - tr.x + 1, tr.width, bpp, bpp);
  }

  lemma SameByte(a: seq<byte>, at: nat, from: seq<byte>, start: nat, n: nat, o: nat)
    requires o < n && at + n <= |a| && start + n <= |from|
    ensures SameBytes(a, at, from, start, n) ==> a[at + o] == from[start + o]
  {
    assert a[at..at + n][o] == a[at + o] && from[start..start + n][o] == from[start + o];
  }

  /** Memory of zeros with one byte set. */
  function Single(n: nat, at: nat): seq<byte> {
    seq(n, k => if k == at then 1 else 0)
  }

  /** Within one surface the target rectangle receives the source rectangle as it was, whatever the memory
      holds, exactly when the copy is orderly. */
  lemma CopyIsExactlyOrderly(i: Image, sr: Rect, tr: Rect)
    requires Copies(i, sr, i, tr) && Defined(i, i, sr, tr) && BytesPerPixel(i.format) > 0 && 0 < tr.height
    ensures (forall before: seq<byte> | |before| == i.base.Length ::
               Copied(i, before, sr, i, before, RowsCopied(i, sr, before, i, tr, before, tr.height), tr, tr.height))
            <==> Orderly(sr, tr)
  {
    if Orderly(sr, tr) {
      forall before: seq<byte> | |before| == i.base.Length
        ensures Copied(i, before, sr, i, before, RowsCopied(i, sr, before, i, tr, before, tr.height), tr, tr.height)
      {
        CopyIsExact(i, sr, before, i, tr, before, tr.height);
      }
    } else {
      var d: word := tr.y - sr.y;
      var o, first := MeetingPoint(i, sr, tr, d);
      DisorderlyIsInexact(i, sr, tr, d, o, first);
    }
  }

  lemma DisorderlyIsInexact(i: Image, sr: Rect, tr: Rect, d: word, o: nat, first: nat)
    requires Copies(i, sr, i, tr) && tr.y == sr.y + d && 0 < d < tr.height && Meet(i, sr, tr, d, o, first)
    ensures var before := Single(i.base.Length, RowStart(i, sr, 0) + first);
            |before| == i.base.Length
            && !Copied(i, before, sr, i, before, RowsCopied(i, sr, before, i, tr, before, tr.height), tr, tr.height)
  {
    var before := Single(i.base.Length, RowStart(i, sr, 0) + first);
    var after := RowsCopied(i, sr, before, i, tr, before, tr.height);
    var n := tr.width * BytesPerPixel(i.format);
    DownwardRepeats(i, sr, tr, before, d, o, first);
    RowsInOrder(i, sr, 0, d);
    RowFits(i, tr, d);
    RowFits(i, sr, d);
    SameByte(after, RowStart(i, tr, d), before, RowStart(i, sr, d), n, o);
    assert !SameBytes(after, RowStart(i, tr, d), before, RowStart(i, sr, d), n);
  }

  lemma RowStep(i: Image, r: Rect, k: nat)
    ensures RowStart(i, r, k + 1) == RowStart(i, r, k) + i.Stride()
  {}

  /** Nothing the row loops compute in 32 bits wraps. */
  lemma NothingWraps(i: Image, r: Rect)
    requires i.Valid() && Inside(i, r) && 0 < r.height
    ensures Wrap(i.width * BytesPerPixel(i.format)) == i.Stride()
    ensures Wrap(r.width * BytesPerPixel(i.format)) == r.width * BytesPerPixel(i.format)
    ensures Wrap(r.y * i.Stride()) + Wrap(r.x * BytesPerPixel(i.format)) == RowStart(i, r, 0)
  {
    hide Wrap;
    var bpp := BytesPerPixel(i.format);
    MulLe(i.width, 16384, bpp, 4);
    SmallProduct(i.width, bpp);
    SmallProduct(r.width, bpp);
    SmallProduct(r.x, bpp);
    SmallProduct(r.y, i.Stride());
  }

  lemma SmallProduct(a: nat, b: nat)
    requires a <= 16384 && b <= 65536
    ensures Wrap(a * b) == a * b
  {
    MulLe(a, 16384, b, 65536);
    Unwrapped(a * b);
  }

  lemma BelowIsKept(mid: seq<byte>, at: nat, from: seq<byte>, start: nat, n: nat, after: seq<byte>, low: nat, f: nat)
    requires Placed(mid, at, from, start, n, after) && low + n <= at && SameBytes(mid, low, from, f, n)
    ensures SameBytes(after, low, from, f, n)
  {
    assert after[low..low + n] == mid[low..low + n];
  }

  lemma PlacedIsSame(mid: seq<byte>, at: nat, from: seq<byte>, start: nat, n: nat, after: seq<byte>)
    requires Placed(mid, at, from, start, n, after)
    ensures SameBytes(after, at, from, start, n)
    ensures forall t | 0 <= t < |after| && !(at <= t < at + n) :: after[t] == mid[t]
  {}

  lemma OneMoreRow(s: Image, from: seq<byte>, sr: Rect, t: Image, before: seq<byte>, mid: seq<byte>, after: seq<byte>,
                   tr: Rect, y: nat)
    requires |from| == s.base.Length && |before| == |mid| == |after| == t.base.Length
    requires Copies(s, sr, t, tr) && y < tr.height && Copied(s, from, sr, t, before, mid, tr, y)
    requires Placed(mid, RowStart(t, tr, y), from, RowStart(s, sr, y), tr.width * BytesPerPixel(t.format), after)
    ensures Copied(s, from, sr, t, before, after, tr, y + 1)
  {
    var n := tr.width * BytesPerPixel(t.format);
    forall k: nat | k < y + 1 ensures SameBytes(after, RowStart(t, tr, k), from, RowStart(s, sr, k), n) {
      if k < y {
        RowsInOrder(t, tr, k, y);
        BelowIsKept(mid, RowStart(t, tr, y), from, RowStart(s, sr, y), n, after, RowStart(t, tr, k), RowStart(s, sr, k));
      } else {
        PlacedIsSame(mid, RowStart(t, tr, y), from, RowStart(s, sr, y), n, after);
      }
    }
    CoveredByOneMore(t, tr, y, before, mid, after);
  }

  lemma CoveredByOneMore(t: Image, tr: Rect, y: nat, before: seq<byte>, mid: seq<byte>, after: seq<byte>)
    requires |before| == |mid| == |after|
    requires forall at | 0 <= at < |after| && !Covers(t, tr, y, at) :: mid[at] == before[at]
    requires forall at | 0 <= at < |after| && !InRow(t, tr, y, at) :: after[at] == mid[at]
    ensures forall at | 0 <= at < |after| && !Covers(t, tr, y + 1, at) :: after[at] == before[at]
  {
    forall at | 0 <= at < |after| && !Covers(t, tr, y + 1, at) ensures after[at] == before[at] {
      assert !InRow(t, tr, y, at);
      assert !Covers(t, tr, y, at);
    }
  }

  // ---------------------------------------------------------------- fill

  /** Byte k of a colour in memory, the low byte first. */
  function ColourByte(colour: word, k: nat): byte
    requires k < 4
  {
    (match k case 0 => colour case 1 => colour / 0x100 case 2 => colour / 0x1_0000 case _ => colour / 0x100_0000) % 0x100
  }

  /** The number with these digits in base 256, the low one first. */
  function Number(a: nat, b: nat, c: nat, d: nat): nat {
    a + 0x100 * b + 0x1_0000 * c + 0x100_0000 * d
  }

  lemma ColourIsItsBytes(colour: word)
    ensures Number(ColourByte(colour, 0), ColourByte(colour, 1), ColourByte(colour, 2), ColourByte(colour, 3)) == colour
  {
    var a, b, c := colour / 0x100, colour / 0x1_0000, colour / 0x100_0000;
    assert b == a / 0x100 && c == b / 0x100 && c < 0x100;
  }

  /** The bytes the fill writes for row k: four a pixel, whatever the format. */
  ghost predicate Written(i: Image, r: Rect, k: nat, at: int) {
    RowStart(i, r, k) <= at < RowStart(i, r, k) + 4 * r.width
  }

  ghost predicate WrittenFrom(i: Image, r: Rect, low: nat, rows: nat, at: int) {
    exists k: nat | low <= k < rows :: Written(i, r, k, at)
  }

  /** Every byte written holds the colour as the last row that writes it puts it there; every other byte is
      as before. */
  ghost predicate Filled(i: Image, before: seq<byte>, after: seq<byte>, r: Rect, colour: word, rows: nat) {
    && |before| == |after|
    && (forall at | 0 <= at < |after| && !WrittenFrom(i, r, 0, rows, at) :: after[at] == before[at])
    && (forall k: nat, at | k < rows && 0 <= at < |after| && Written(i, r, k, at) && !WrittenFrom(i, r, k + 1, rows, at) ::
          after[at] == ColourByte(colour, (at - RowStart(i, r, k)) % 4))
  }

  /** The last row written ends within the memory. */
  predicate FitsMemory(i: Image, r: Rect)
    requires r.height > 0
  {
    RowStart(i, r, r.height - 1) + 4 * r.width <= i.base.Length
  }

  /** One row of pixels in memory. */
  function PixelRow(width: nat, colour: word): seq<byte> {
    seq(4 * width, c requires 0 <= c < 4 * width => ColourByte(colour, c % 4))
  }

  method StorePixel(base: array<byte>, at: nat, colour: word)
    requires at + 4 <= base.Length
    modifies base
    ensures base[..] == old(base[..at]) + PixelRow(1, colour) + old(base[at + 4..])
  {
    base[at], base[at + 1], base[at + 2], base[at + 3] :=
      ColourByte(colour, 0), ColourByte(colour, 1), ColourByte(colour, 2), ColourByte(colour, 3);
  }

  /** One row of pixels, written as 32-bit words. */
  method FillRow(base: array<byte>, at: nat, width: nat, colour: word)
    requires at + 4 * width <= base.Length
    modifies base
    ensures base[..] == old(base[..at]) + PixelRow(width, colour) + old(base[at + 4 * width..])
  {
    ghost var before := base[..];
    var column := 0;
    while column < width
      invariant column <= width
      invariant base[..] == before[..at] + PixelRow(column, colour) + before[at + 4 * column..]
    {
      ghost var mid := base[..];
      StorePixel(base, at + 4 * column, colour);
      PixelRowExtends(before, mid, at, column, colour);
      column := column + 1;
    }
  }

  lemma PixelRowExtends(before: seq<byte>, mid: seq<byte>, at: nat, column: nat, colour: word)
    requires at + 4 * column + 4 <= |before|
    requires mid == before[..at] + PixelRow(column, colour) + before[at + 4 * column..]
    ensures mid[..at + 4 * column] + PixelRow(1, colour) + mid[at + 4 * column + 4..]
            == before[..at] + PixelRow(column + 1, colour) + before[at + 4 * column + 4..]
  {
    OneMorePixel(column, colour);
    hide PixelRow;
    Extend(before, mid, at, PixelRow(column, colour), PixelRow(1, colour));
  }

  lemma OneMorePixel(column: nat, colour: word)
    ensures PixelRow(column + 1, colour) == PixelRow(column, colour) + PixelRow(1, colour)
    ensures |PixelRow(column, colour)| == 4 * column && |PixelRow(1, colour)| == 4
  {
    forall c | 4 * column <= c < 4 * column + 4 ensures c % 4 == c - 4 * column { RemainderAfter(column, c - 4 * column); }
    assert forall c | 0 <= c < 4 :: PixelRow(1, colour)[c] == ColourByte(colour, c % 4);
  }

  lemma RemainderAfter(k: nat, r: nat)
    requires r < 4
    ensures (4 * k + r) % 4 == r
  {}

  lemma Extend(before: seq<byte>, mid: seq<byte>, at: nat, row: seq<byte>, more: seq<byte>)
    requires at + |row| + |more| <= |before| && mid == before[..at] + row + before[at + |row|..]
    ensures mid[..at + |row|] + more + mid[at + |row| + |more|..]
            == before[..at] + (row + more) + before[at + |row| + |more|..]
  {
    assert mid[..at + |row|] == before[..at] + row;
    assert mid[at + |row| + |more|..] == before[at + |row| + |more|..];
  }

  function FillStatus(id: word, surface: Option<Image>, r: Rect): Status {
    if id == 0 || r.width == 0 || r.height == 0 then BadArgument
    else if surface.None? then NotFound
    else if !Inside(surface.value, r) then BadArgument
    else if BytesPerPixel(surface.value.format) == 0 then Unsupported else Success
  }

  method CheckFill(id: word, surface: Option<Image>, r: Rect) returns (status: Status)
    requires surface.Some? && Accepts(surface.value, r) ==> !Wraps(r)
    ensures status == FillStatus(id, surface, r)
  {
    if id == 0 || r.width == 0 || r.height == 0 { return BadArgument; }
    if surface.None? { return NotFound; }
    if !Accepts(surface.value, r) { return BadArgument; }
    if BytesPerPixel(surface.value.format) == 0 { return Unsupported; }
    status := Success;
  }

  method FillRegion(id: word, surface: Option<Image>, r: Rect, colour: word) returns (status: Status)
    requires surface.Some? && Accepts(surface.value, r) ==> !Wraps(r)
    requires surface.Some? ==> surface.value.Valid()
    requires FillStatus(id, surface, r) == Success ==> FitsMemory(surface.value, r)
    modifies if surface.Some? then {surface.value.base} else {}
    ensures status == FillStatus(id, surface, r)
    ensures status != Success && surface.Some? ==> surface.value.base[..] == old(surface.value.base[..])
    ensures status == Success ==>
              Filled(surface.value, old(surface.value.base[..]), surface.value.base[..], r, colour, r.height)
  {
    status := CheckFill(id, surface, r);
    if status == Success { FillRows(surface.value, r, colour); }
  }

  method FillRows(i: Image, r: Rect, colour: word)
    requires i.Valid() && Inside(i, r) && 0 < r.height && FitsMemory(i, r)
    modifies i.base
    ensures Filled(i, old(i.base[..]), i.base[..], r, colour, r.height)
  {
    var bpp := BytesPerPixel(i.format);
    var stride := Wrap(i.width * bpp);
    var start := Wrap(r.y * stride) + Wrap(r.x * bpp);
    NothingWraps(i, r);
    hide Filled, RowStart, FitsMemory;
    var row := 0;
    NothingFilled(i, i.base[..], r, colour);
    while row < r.height
      invariant row <= r.height
      invariant Filled(i, old(i.base[..]), i.base[..], r, colour, row)
    {
      RowPointer(i, r, row);
      FillOneRow(i, r, colour, row, start + Wrap(row * stride), old(i.base[..]));
      row := row + 1;
    }
  }

  lemma NothingFilled(i: Image, before: seq<byte>, r: Rect, colour: word)
    ensures Filled(i, before, before, r, colour, 0)
  {}

  lemma RowPointer(i: Image, r: Rect, row: nat)
    requires i.Valid() && Inside(i, r) && row < r.height
    ensures RowStart(i, r, 0) + Wrap(row * i.Stride()) == RowStart(i, r, row)
  {
    RowFits(i, r, row);
    Unwrapped(row * i.Stride());
  }

  method FillOneRow(i: Image, r: Rect, colour: word, ghost row: nat, at: nat, ghost before: seq<byte>)
    requires i.Valid() && Inside(i, r) && row < r.height && FitsMemory(i, r)
    requires at == RowStart(i, r, row) && Filled(i, before, i.base[..], r, colour, row)
    modifies i.base
    ensures Filled(i, before, i.base[..], r, colour, row + 1)
  {
    RowsAscend(i, r, row, r.height - 1);
    assert at + 4 * r.width <= i.base.Length;
    hide Filled, RowStart, FitsMemory, Image.Valid, Inside, Placed, PixelRow;
    PixelRowLength(r.width, colour);
    ghost var mid := i.base[..];
    FillRow(i.base, at, r.width, colour);
    WholeIsPlaced(mid, at, PixelRow(r.width, colour), i.base[..]);
    OneMoreFilled(i, before, mid, i.base[..], r, colour, row);
  }

  lemma PixelRowLength(width: nat, colour: word)
    ensures |PixelRow(width, colour)| == 4 * width
  {}

  lemma WholeIsPlaced(mid: seq<byte>, at: nat, row: seq<byte>, after: seq<byte>)
    requires at + |row| <= |mid| && after == mid[..at] + row + mid[at + |row|..]
    ensures Placed(mid, at, row, 0, |row|, after)
  {
    assert row[0..0 + |row|] == row;
  }

  lemma RowsAscend(i: Image, r: Rect, j: nat, k: nat)
    requires j <= k
    ensures RowStart(i, r, j) <= RowStart(i, r, k)
  {
    MulLe(r.y + j, r.y + k, i.Stride(), i.Stride());
  }

  lemma OneMoreFilled(i: Image, before: seq<byte>, mid: seq<byte>, after: seq<byte>, r: Rect, colour: word, row: nat)
    requires Filled(i, before, mid, r, colour, row)
    requires Placed(mid, RowStart(i, r, row), PixelRow(r.width, colour), 0, 4 * r.width, after)
    ensures Filled(i, before, after, r, colour, row + 1)
  {
    hide RowStart, PixelRow, ColourByte, Filled;
    forall at | 0 <= at < |after|
      ensures after[at] == if Written(i, r, row, at) then ColourByte(colour, (at - RowStart(i, r, row)) % 4) else mid[at]
    {
      OneRowFilled(mid, RowStart(i, r, row), r.width, colour, after, at);
    }
    LastRowWins(i, before, mid, after, r, colour, row);
  }

  lemma LastRowWins(i: Image, before: seq<byte>, mid: seq<byte>, after: seq<byte>, r: Rect, colour: word, row: nat)
    requires Filled(i, before, mid, r, colour, row) && |after| == |mid|
    requires forall at | 0 <= at < |after| ::
               after[at]
               == if Written(i, r, row, at) then ColourByte(colour, (at - RowStart(i, r, row)) % 4) else mid[at]
    ensures Filled(i, before, after, r, colour, row + 1)
  {
    hide RowStart, ColourByte, Written, WrittenFrom;
    forall at | 0 <= at < |after| && !WrittenFrom(i, r, 0, row + 1, at) ensures after[at] == before[at] {
      OneMoreRowWrites(i, r, 0, row, at);
    }
    forall k: nat, at | k < row + 1 && 0 <= at < |after| && Written(i, r, k, at)
                        && !WrittenFrom(i, r, k + 1, row + 1, at)
      ensures after[at] == ColourByte(colour, (at - RowStart(i, r, k)) % 4)
    {
      if k < row { OneMoreRowWrites(i, r, k + 1, row, at); }
    }
  }

  lemma OneMoreRowWrites(i: Image, r: Rect, low: nat, row: nat, at: int)
    requires low <= row
    ensures WrittenFrom(i, r, low, row + 1, at) <==> WrittenFrom(i, r, low, row, at) || Written(i, r, row, at)
  {
    hide Written;
  }

  lemma OneRowFilled(mid: seq<byte>, start: nat, width: nat, colour: word, after: seq<byte>, at: nat)
    requires Placed(mid, start, PixelRow(width, colour), 0, 4 * width, after) && at < |after|
    ensures after[at] == if start <= at < start + 4 * width then ColourByte(colour, (at - start) % 4) else mid[at]
  {}

  // ---------------------------------------------------------------- what the fill covers

  /** The fill stays within the memory exactly when its last row does. */
  lemma FillStaysInMemoryExactly(i: Image, r: Rect)
    requires 0 < r.width && 0 < r.height
    ensures (forall k: nat, at | k < r.height && Written(i, r, k, at) :: at < i.base.Length) <==> FitsMemory(i, r)
  {
    if FitsMemory(i, r) {
      forall k: nat, at | k < r.height && Written(i, r, k, at) ensures at < i.base.Length {
        RowsAscend(i, r, k, r.height - 1);
      }
    } else {
      assert Written(i, r, r.height - 1, RowStart(i, r, r.height - 1) + 4 * r.width - 1);
    }
  }

  /** With four bytes a pixel every rectangle inside the surface stays within its memory; with fewer, one that
      reaches the last byte does not. */
  lemma FourBytesFit(i: Image, r: Rect)
    requires i.Valid() && Inside(i, r) && 0 < r.width && 0 < r.height
    ensures BytesPerPixel(i.format) == 4 ==> FitsMemory(i, r)
    ensures BytesPerPixel(i.format) < 4 && RowStart(i, r, r.height - 1) + r.width * BytesPerPixel(i.format) == i.base.Length
            ==> !FitsMemory(i, r)
  {
    RowFits(i, r, r.height - 1);
    if BytesPerPixel(i.format) < 4 { FewerBytes(r.width, BytesPerPixel(i.format)); }
  }

  lemma FewerBytes(width: nat, bpp: nat)
    requires 0 < width && bpp < 4
    ensures width * bpp < 4 * width
  {
    MulLe(width, width, bpp, 3);
  }

  /** The bytes written are those of the rectangle's pixels exactly for four-byte formats. */
  lemma FillCoversExactly(i: Image, r: Rect)
    requires i.Valid() && Inside(i, r) && 0 < r.width && 0 < r.height
    ensures (forall at :: WrittenFrom(i, r, 0, r.height, at) <==> Covers(i, r, r.height, at))
            <==> BytesPerPixel(i.format) == 4
  {
    var bpp, last := BytesPerPixel(i.format), r.height - 1;
    if bpp == 4 {
      forall at ensures WrittenFrom(i, r, 0, r.height, at) <==> Covers(i, r, r.height, at) {
        assert forall k: nat :: Written(i, r, k, at) <==> InRow(i, r, k, at);
      }
    } else {
      FewerBytes(r.width, bpp);
      var at := RowStart(i, r, last) + r.width * bpp;
      assert Written(i, r, last, at);
      forall k: nat | k < r.height ensures !InRow(i, r, k, at) {
        if k < last { RowsInOrder(i, r, k, last); }
      }
      assert WrittenFrom(i, r, 0, r.height, at) && !Covers(i, r, r.height, at);
    }
  }

  /** So with four bytes a pixel each pixel of the rectangle holds the colour and every other byte is kept. */
  lemma FilledIsRectangle(i: Image, before: seq<byte>, after: seq<byte>, r: Rect, colour: word)
    requires i.Valid() && Inside(i, r) && BytesPerPixel(i.format) == 4
    requires Filled(i, before, after, r, colour, r.height)
    ensures forall at | 0 <= at < |after| && !Covers(i, r, r.height, at) :: after[at] == before[at]
    ensures forall k: nat, at | k < r.height && 0 <= at < |after| && InRow(i, r, k, at) ::
              after[at] == ColourByte(colour, (at - RowStart(i, r, k)) % 4)
  {
    forall at | 0 <= at < |after| && !Covers(i, r, r.height, at) ensures after[at] == before[at] {
      assert forall k: nat :: Written(i, r, k, at) ==> InRow(i, r, k, at);
      assert !WrittenFrom(i, r, 0, r.height, at);
    }
    forall k: nat, at | k < r.height && 0 <= at < |after| && InRow(i, r, k, at)
      ensures after[at] == ColourByte(colour, (at - RowStart(i, r, k)) % 4)
    {
      assert Written(i, r, k, at);
      forall j: nat | k < j < r.height ensures !Written(i, r, j, at) { RowsInOrder(i, r, k, j); }
      assert !WrittenFrom(i, r, k + 1, r.height, at);
    }
  }

  /** The four bytes hold the colour, the low one first. */
  predicate HoldsColour(bytes: seq<byte>, at: nat, colour: word) {
    && at + 4 <= |bytes|
    && Number(bytes[at], bytes[at + 1], bytes[at + 2], bytes[at + 3]) == colour
  }

  predicate Has(r: Rect, x: nat, y: nat) {
    r.x <= x < r.x + r.width && r.y <= y < r.y + r.height
  }

  /** Pixel by pixel, with four bytes a pixel: inside the rectangle the colour, outside what was there. */
  lemma PixelIsFilled(i: Image, before: seq<byte>, after: seq<byte>, r: Rect, colour: word, x: nat, y: nat)
    requires i.Valid() && Inside(i, r) && BytesPerPixel(i.format) == 4 && |after| == i.base.Length
    requires Filled(i, before, after, r, colour, r.height) && x < i.width && y < i.height
    ensures if Has(r, x, y) then HoldsColour(after, PixelStart(i, x, y), colour)
            else SameBytes(after, PixelStart(i, x, y), before, PixelStart(i, x, y), 4)
  {
    PixelFits(i, x, y, 3);
    FilledIsRectangle(i, before, after, r, colour);
    var at := PixelStart(i, x, y);
    hide Filled, RowStart, PixelStart, ColourByte, Image.Valid;
    if Has(r, x, y) {
      FilledPixel(i, after, r, colour, x - r.x, y - r.y);
    } else {
      forall c | at <= c < at + 4 ensures after[c] == before[c] { OutsideIsNotCovered(i, r, x, y, c - at); }
    }
  }

  lemma FilledPixel(i: Image, after: seq<byte>, r: Rect, colour: word, x: nat, y: nat)
    requires BytesPerPixel(i.format) == 4 && x < r.width && y < r.height
    requires PixelStart(i, r.x + x, r.y + y) + 4 <= |after|
    requires forall at | 0 <= at < |after| && InRow(i, r, y, at) ::
               after[at] == ColourByte(colour, (at - RowStart(i, r, y)) % 4)
    ensures HoldsColour(after, PixelStart(i, r.x + x, r.y + y), colour)
  {
    PixelInRow(i, r, x, y);
    ByteInLine(x, r.width, 4, 3);
    var start, at := RowStart(i, r, y), PixelStart(i, r.x + x, r.y + y);
    hide RowStart, PixelStart, ColourByte;
    forall c | at <= c < at + 4 ensures after[c] == ColourByte(colour, c - at) {
      RemainderAfter(x, c - at);
      assert InRow(i, r, y, c);
    }
    ColourIsItsBytes(colour);
  }
}
