/** The surface registry: creation, destruction and locking under a byte budget
    (FB/VMIOSurfaceManager.cpp:143-388, 940-1074, 1221-1336; FB/VMIOSurfaceManager_Helpers.cpp:497-666). */
module SurfaceRegistry {
  import opened Words
  import opened Arithmetic
  import opened SurfaceCache
  import opened SurfaceCacheRuns
  import Ids = IdPools

  datatype Format = ARGB32 | BGRA32 | RGBA32 | ABGR32 | RGB24 | RGB565 | YUV420 | NV12 | P010 | Unknown

  datatype Descriptor = Descriptor(format: Format, width: word, height: word, bytesPerRow: word, planeSizes: seq<word>)

  function BytesPerPixel(f: Format): nat {
    match f
    case ARGB32 | BGRA32 | RGBA32 | ABGR32 => 4
    case RGB24 => 3
    case RGB565 | P010 => 2
    case YUV420 | NV12 => 1
    case Unknown => 0
  }

  function PlaneCount(f: Format): nat {
    match f
    case NV12 | P010 => 2
    case YUV420 => 3
    case _ => 1
  }

  predicate Known(f: Format, yuv: bool) {
    match f
    case YUV420 | NV12 | P010 => yuv
    case Unknown => false
    case _ => true
  }

  /** setupPlaneInfo lays out the four-byte formats and NV12 only. */
  predicate HasPlaneLayout(f: Format) {
    f == ARGB32 || f == BGRA32 || f == RGBA32 || f == ABGR32 || f == NV12
  }

  function Sum32(sizes: seq<word>): word {
    if sizes == [] then 0 else Wrap(Sum32(sizes[..|sizes| - 1]) + sizes[|sizes| - 1])
  }

  function PageAlign(size: word): word {
    Wrap(size + 4095) / 4096 * 4096
  }

  /** calculateSurfaceSize, in 32-bit arithmetic; planes beyond the descriptor's count as empty. */
  function SurfaceSize(d: Descriptor): word {
    if BytesPerPixel(d.format) == 0 then 0
    else if PlaneCount(d.format) == 1 then
      var row := if d.bytesPerRow > 0 then d.bytesPerRow else Wrap(d.width * BytesPerPixel(d.format));
      PageAlign(Wrap(row * d.height))
    else
      var n := if PlaneCount(d.format) < |d.planeSizes| then PlaneCount(d.format) else |d.planeSizes|;
      PageAlign(Sum32(d.planeSizes[..n]))
  }

  method CalculateSurfaceSize(d: Descriptor) returns (size: word)
    ensures size == SurfaceSize(d)
  {
    if BytesPerPixel(d.format) == 0 { return 0; }
    var total: word := 0;
    if PlaneCount(d.format) == 1 {
      var row := Wrap(d.width * BytesPerPixel(d.format));
      if d.bytesPerRow > 0 { row := d.bytesPerRow; }
      total := Wrap(row * d.height);
    } else {
      var i := 0;
      while i < PlaneCount(d.format) && i < |d.planeSizes|
        invariant 0 <= i <= |d.planeSizes| && i <= PlaneCount(d.format)
        invariant total == Sum32(d.planeSizes[..i])
      {
        assert d.planeSizes[..i + 1][..i] == d.planeSizes[..i];
        total := Wrap(total + d.planeSizes[i]);
        i := i + 1;
      }
    }
    size := Wrap(total + 4095) / 4096 * 4096;
  }

  /** Unless the caller gives its own row length, a four-byte surface has room for every pixel, and
      less than a page to spare. */
  lemma PackedSizeHoldsPixels(d: Descriptor)
    requires BytesPerPixel(d.format) == 4 && d.width <= 16384 && d.height <= 16384 && d.bytesPerRow == 0
    ensures 4 * d.width * d.height <= SurfaceSize(d) < 4 * d.width * d.height + 4096
  {
    MulLe(d.width, 16384, d.height, 16384);
    Unwrapped(d.width * 4);
    Unwrapped(d.width * 4 * d.height);
    PageAlignRoundsUp(d.width * 4 * d.height);
    assert d.width * 4 * d.height == 4 * d.width * d.height;
  }

  /** The bits of the colour channels of a pixel, for the formats of a single plane. */
  function ChannelBits(f: Format): nat {
    match f
    case ARGB32 | BGRA32 | RGBA32 | ABGR32 => 8 + 8 + 8 + 8
    case RGB24 => 8 + 8 + 8
    case RGB565 => 5 + 6 + 5
    case _ => 0
  }

  /** So for every format of a single plane: room for the channels of every pixel, and less than a page to spare. */
  lemma PackedSizeHoldsChannels(d: Descriptor)
    requires ChannelBits(d.format) > 0 && d.width <= 16384 && d.height <= 16384 && d.bytesPerRow == 0
    ensures var bits := ChannelBits(d.format) * (d.width * d.height);
            bits <= 8 * SurfaceSize(d) < bits + 8 * 4096
  {
    var b := BytesPerPixel(d.format);
    MulLe(d.width, 16384, d.height, 16384);
    Unwrapped(d.width * b);
    assert d.width * b * d.height == b * (d.width * d.height);
    Unwrapped(b * (d.width * d.height));
    PageAlignRoundsUp(b * (d.width * d.height));
  }

  lemma PageAlignRoundsUp(size: word)
    requires size <= 0xFFFF_F000
    ensures size <= PageAlign(size) < size + 4096 && PageAlign(size) % 4096 == 0
  {}

  /** Where the last page of so many bytes begins. */
  function LastPage(bytes: nat): nat
    requires bytes > 0
  {
    (bytes - 1) / 4096 * 4096
  }

  /** A row length of the caller's own is taken as it is: the surface has room for every pixel exactly when the
      32-bit product with the height reaches into the last page they need and does not wrap when rounded up. */
  lemma RowLengthHoldsPixelsExactly(d: Descriptor)
    requires BytesPerPixel(d.format) == 4 && 0 < d.width <= 16384 && 0 < d.height <= 16384 && d.bytesPerRow > 0
    ensures var needed := 4 * (d.width * d.height);
            needed > 0
            && (SurfaceSize(d) >= needed <==> LastPage(needed) < Wrap(d.bytesPerRow * d.height) <= 0xFFFF_F000)
  {
    MulLe(d.width, 16384, d.height, 16384);
    MulLe(1, d.width, 1, d.height);
    PageReaches(Wrap(d.bytesPerRow * d.height), 4 * (d.width * d.height));
  }

  lemma PageReaches(size: word, needed: nat)
    requires 0 < needed
    ensures PageAlign(size) >= needed <==> LastPage(needed) < size <= 0xFFFF_F000
  {
    if size <= 0xFFFF_F000 {
      PageAlignRoundsUp(size);
      MultiplesApart(PageAlign(size), LastPage(needed));
    } else {
      assert PageAlign(size) == 0;
    }
  }

  lemma MultiplesApart(a: nat, b: nat)
    requires a % 4096 == 0 && b % 4096 == 0
    ensures a > b ==> a >= b + 4096
  {}

  /** So rows at least as long as the pixels need are enough while their product with the height does not wrap. */
  lemma LongRowsHoldPixels(d: Descriptor)
    requires BytesPerPixel(d.format) == 4 && 0 < d.width <= 16384 && 0 < d.height <= 16384
    requires 4 * d.width <= d.bytesPerRow && d.bytesPerRow * d.height <= 0xFFFF_F000
    ensures SurfaceSize(d) >= 4 * (d.width * d.height)
  {
    RowLengthHoldsPixelsExactly(d);
    MulLe(4 * d.width, d.bytesPerRow, d.height, d.height);
    Unwrapped(d.bytesPerRow * d.height);
    assert 4 * d.width * d.height == 4 * (d.width * d.height);
  }

  /** The bytes of the planes, in whole numbers. */
  function Bytes(sizes: seq<word>): nat {
    if sizes == [] then 0 else Bytes(sizes[..|sizes| - 1]) + sizes[|sizes| - 1]
  }

  lemma {:induction false} SumWraps(sizes: seq<word>)
    ensures Sum32(sizes) == Wrap(Bytes(sizes))
    decreases |sizes|
  {
    hide Wrap;
    if sizes == [] {
      Unwrapped(0);
    } else {
      SumWraps(sizes[..|sizes| - 1]);
      WrapTwice(Bytes(sizes[..|sizes| - 1]), sizes[|sizes| - 1]);
    }
  }

  lemma WrapTwice(a: nat, b: nat)
    ensures Wrap(Wrap(a) + b) == Wrap(a + b)
  {}

  /** A planar surface, of two planes or of three, has room for the planes its descriptor gives exactly when the
      bytes of those planes, rounded up to pages, do not wrap; it then has less than a page to spare. */
  lemma PlanarSizeHoldsPlanes(d: Descriptor)
    requires d.format == NV12 || d.format == P010 || d.format == YUV420
    ensures var planes := if d.format == YUV420 then 3 else 2;
            var bytes := Bytes(d.planeSizes[..if planes < |d.planeSizes| then planes else |d.planeSizes|]);
            && (SurfaceSize(d) >= bytes <==> bytes <= 0xFFFF_F000)
            && (bytes <= 0xFFFF_F000 ==> SurfaceSize(d) < bytes + 4096)
  {
    var planes := if d.format == YUV420 then 3 else 2;
    var sizes := d.planeSizes[..if planes < |d.planeSizes| then planes else |d.planeSizes|];
    SumWraps(sizes);
    if Bytes(sizes) <= 0xFFFF_F000 {
      Unwrapped(Bytes(sizes));
      PageAlignRoundsUp(Bytes(sizes));
    } else if Bytes(sizes) < 0x1_0000_0000 {
      Unwrapped(Bytes(sizes));
    }
  }

  datatype Status = Success | BadArgument | Unsupported | NoMemory | NotFound | Busy | NotOpen | VMError

  /** Where creation can fail once an id is taken. */
  datatype Fault = NoFault | NoObject | NoBacking | NotPrepared | NoAddress | NoWrapper

  function FaultStatus(f: Fault): Status
    requires f != NoFault
  {
    match f
    case NotPrepared | NoAddress => VMError
    case _ => NoMemory
  }

  class Surface {
    const id: word
    const memorySize: word
    const planeCount: nat
    var lockCount: word
    var isLocked: bool
    var refCount: nat

    constructor (id: word, memorySize: word, planeCount: nat)
      ensures this.id == id && this.memorySize == memorySize && this.planeCount == planeCount
      ensures lockCount == 0 && !isLocked && refCount == 1
    {
      this.id, this.memorySize, this.planeCount := id, memorySize, planeCount;
      lockCount, isLocked, refCount := 0, false, 1;
    }
  }

  /** The bytes of all surfaces. */
  ghost function TotalBytes(surfaces: seq<Surface>): nat {
    if surfaces == [] then 0 else TotalBytes(surfaces[..|surfaces| - 1]) + surfaces[|surfaces| - 1].memorySize
  }

  lemma {:induction false} TotalBytesAppend(a: seq<Surface>, b: seq<Surface>)
    ensures TotalBytes(a + b) == TotalBytes(a) + TotalBytes(b)
    decreases |b|
  {
    if b == [] {
      assert a + b == a;
    } else {
      assert (a + b)[..|a + b| - 1] == a + b[..|b| - 1];
      TotalBytesAppend(a, b[..|b| - 1]);
    }
  }

  lemma {:induction false} TotalBytesRemove(surfaces: seq<Surface>, i: nat)
    requires i < |surfaces|
    ensures TotalBytes(surfaces[..i] + surfaces[i + 1..]) == TotalBytes(surfaces) - surfaces[i].memorySize
  {
    var front, one, rest := surfaces[..i], [surfaces[i]], surfaces[i + 1..];
    assert surfaces == (front + one) + rest;
    TotalBytesAppend(front + one, rest);
    TotalBytesAppend(front, one);
    TotalBytesAppend(front, rest);
    assert one[..0] == [];
  }

  const BUDGET := 512 * 1024 * 1024

  class Manager {
    const ids: Ids.IdPool
    const cache: DiscoveryCache<Surface>
    var surfaces: seq<Surface>
    var surfaceMap: map<word, Surface>
    var allocatedBytes: nat
    var surfaceCount: nat
    /** The ids destroyed since the lookup cache was last flushed: the cache may still hold what they named. */
    ghost var destroyed: set<word>

    /** Array and dictionary hold the same surfaces; bytes, count and lock flags are exact. */
    ghost predicate Accounted()
      reads this, surfaces
    {
      Recorded() && forall s <- surfaces :: s.refCount == 1 && (s.isLocked <==> s.lockCount > 0)
    }

    ghost predicate Recorded()
      reads this
    {
      && SameSurfaces(surfaces, surfaceMap)
      && allocatedBytes == TotalBytes(surfaces) <= BUDGET && surfaceCount == |surfaces|
    }

    ghost predicate Valid()
      reads this, ids, cache, cache.slots, surfaces
    {
      && ids.kind == Ids.Surface && Accounted() && Ids.Sound(ids.Value(), surfaceMap.Keys)
      && cache.Valid() && CacheRight()
    }

    /** Under every other id the lookup cache holds nothing but the live surface. */
    ghost predicate CacheRight()
      requires cache.Valid()
      reads this, cache, cache.slots
    {
      forall id: word | id !in destroyed :: RightAt(cache.Value(), surfaceMap, id)
    }

    /** The lookup answers the id as the dictionary does: nothing cached matches it, or the first match is the
        live surface. Otherwise it answers with a surface that has been freed. */
    ghost predicate Answerable(id: word)
      requires cache.Valid()
      reads this, cache, cache.slots
    {
      0 < id <= MAX_SURFACE_ID ==> FirstMatchIsLive(cache.Value(), surfaceMap, id)
    }

    constructor ()
      ensures Valid() && surfaces == [] && destroyed == {}
    {
      ids := new Ids.IdPool(Ids.Surface);
      cache := new DiscoveryCache<Surface>();
      surfaces, surfaceMap, allocatedBytes, surfaceCount, destroyed := [], map[], 0, 0, {};
    }

    /** The checks made before an id is taken. */
    function Refusal(d: Descriptor, yuv: bool): Status
      reads this
    {
      if !Known(d.format, yuv) then Unsupported
      else if d.width == 0 || d.height == 0 || d.width > 16384 || d.height > 16384 then BadArgument
      else if SurfaceSize(d) == 0 then BadArgument
      else if allocatedBytes + SurfaceSize(d) > BUDGET then NoMemory
      else Success
    }

    /** What follows the checks: an id is taken, and given back if anything fails. */
    function Outcome(d: Descriptor, fault: Fault): Status {
      if fault == NoObject then NoMemory
      else if !HasPlaneLayout(d.format) then Unsupported
      else if fault != NoFault then FaultStatus(fault) else Success
    }

    /** One new surface, last in the array, under an id that was not live. */
    twostate predicate Created(id: word, size: word, planeCount: nat)
      reads this, surfaces
    {
      && |surfaces| == |old(surfaces)| + 1 && id !in old(surfaceMap)
      && var s := surfaces[|old(surfaces)|];
      && fresh(s) && s.id == id && s.memorySize == size && s.planeCount == planeCount && !s.isLocked
      && surfaces == old(surfaces) + [s] && surfaceMap == old(surfaceMap)[id := s]
    }

    /** The next id is taken, the last one released first; a creation that fails gives it back. */
    twostate predicate TakenOrGivenBack(status: Status, id: word)
      reads ids
    {
      var (taken, next) := Ids.Allocate(old(ids.Value()));
      id == next && ids.Value() == if status == Success then taken else Ids.Release(taken, next)
    }

    method CreateSurface(d: Descriptor, yuv: bool, fault: Fault) returns (status: Status, id: word)
      requires Valid() && Ids.CanTake(ids.Value())
      modifies this, ids
      ensures Valid() && destroyed == old(destroyed)
      ensures status == if old(Refusal(d, yuv)) != Success then old(Refusal(d, yuv)) else Outcome(d, fault)
      ensures status != Success ==> surfaces == old(surfaces) && surfaceMap == old(surfaceMap)
      ensures status == Success ==> Created(id, SurfaceSize(d), PlaneCount(d.format)) && id != 0
      ensures if old(Refusal(d, yuv)) != Success then ids.Value() == old(ids.Value()) else TakenOrGivenBack(status, id)
    {
      id := 0;
      var size;
      status, size := CheckDescriptor(d, yuv);
      if status == Success { status, id := Build(d, size, fault); }
    }

    method Build(d: Descriptor, size: word, fault: Fault) returns (status: Status, id: word)
      requires Valid() && Ids.CanTake(ids.Value()) && allocatedBytes + size <= BUDGET
      modifies this, ids
      ensures Valid() && destroyed == old(destroyed)
      ensures status == Outcome(d, fault)
      ensures status != Success ==> surfaces == old(surfaces) && surfaceMap == old(surfaceMap)
      ensures status == Success ==> Created(id, size, PlaneCount(d.format)) && id != 0
      ensures TakenOrGivenBack(status, id)
    {
      hide RightAt, TotalBytes, SameSurfaces, Ids.Sound, Ids.CanTake;
      ghost var live := surfaceMap.Keys;
      id := TakeSurfaceId(live);
      if fault == NoObject {
        GiveBackSurfaceId(live, id);
        return NoMemory, id;
      }
      if !HasPlaneLayout(d.format) {
        GiveBackSurfaceId(live, id);
        return Unsupported, id;
      }
      if fault != NoFault {
        GiveBackSurfaceId(live, id);
        return FaultStatus(fault), id;
      }
      Register(id, size, PlaneCount(d.format));
      status := Success;
    }

    method CheckDescriptor(d: Descriptor, yuv: bool) returns (status: Status, size: word)
      ensures status == Refusal(d, yuv) && (status == Success ==> size == SurfaceSize(d))
    {
      size := 0;
      if !Known(d.format, yuv) { return Unsupported, size; }
      if d.width == 0 || d.height == 0 || d.width > 16384 || d.height > 16384 { return BadArgument, size; }
      size := CalculateSurfaceSize(d);
      if size == 0 { return BadArgument, size; }
      status := if allocatedBytes + size > BUDGET then NoMemory else Success;
    }

    method TakeSurfaceId(ghost live: set<word>) returns (id: word)
      requires ids.kind == Ids.Surface && Ids.Sound(ids.Value(), live) && Ids.CanTake(ids.Value())
      modifies ids
      ensures Ids.Sound(ids.Value(), live + {id}) && id !in live && id != 0
      ensures (ids.Value(), id) == Ids.Allocate(old(ids.Value()))
    {
      Ids.TakeIsNew(ids.Value(), live);
      id := ids.AllocateId();
    }

    method GiveBackSurfaceId(ghost live: set<word>, id: word)
      requires ids.kind == Ids.Surface && Ids.Sound(ids.Value(), live + {id}) && id !in live
      modifies ids
      ensures Ids.Sound(ids.Value(), live) && ids.Value() == Ids.Release(old(ids.Value()), id)
    {
      Ids.GiveKeepsSound(ids.Value(), live + {id}, id);
      assert live + {id} - {id} == live;
      ids.ReleaseSurfaceId(id);
    }

    /** Put a surface into array and dictionary and account for it. */
    method Insert(s: Surface)
      requires Recorded() && s.id !in surfaceMap && allocatedBytes + s.memorySize <= BUDGET
      modifies this`surfaces, this`surfaceMap, this`surfaceCount, this`allocatedBytes
      ensures Recorded() && surfaces == old(surfaces) + [s] && surfaceMap == old(surfaceMap)[s.id := s]
    {
      AppendKeepsRecord(surfaces, surfaceMap, s);
      surfaces := surfaces + [s];
      surfaceMap := surfaceMap[s.id := s];
      surfaceCount := surfaceCount + 1;
      allocatedBytes := allocatedBytes + s.memorySize;
    }

    method Register(id: word, size: word, planeCount: nat)
      requires Accounted() && id !in surfaceMap && allocatedBytes + size <= BUDGET
      requires cache.Valid() && CacheRight()
      modifies this`surfaces, this`surfaceMap, this`surfaceCount, this`allocatedBytes
      ensures Accounted() && Created(id, size, planeCount) && CacheRight()
      ensures surfaceMap.Keys == old(surfaceMap).Keys + {id}
    {
      hide RightAt, TotalBytes, SameSurfaces;
      var s := new Surface(id, size, planeCount);
      InsertKeepsRight(cache.Value(), surfaceMap, id, s);
      Insert(s);
      assert forall t <- surfaces :: t in old(surfaces) || t == s;
    }

    /** The cached lookup every operation starts with. */
    method Locate(id: word, now: nat) returns (found: Option<Surface>)
      requires cache.Valid() && CacheRight() && Answerable(id)
      modifies cache, cache.slots
      ensures cache.Valid() && CacheRight() && cache.slots == old(cache.slots)
      ensures cache.Value() == Find(old(cache.Value()), surfaceMap, id, now).0
      ensures found == Lookup(surfaceMap, id)
    {
      FindKeepsRight(cache.Value(), surfaceMap, id, now);
      if 0 < id <= MAX_SURFACE_ID { AnswerIsRightExactly(cache.Value(), surfaceMap, id, now); }
      found := cache.FindSurface(surfaceMap, id, now);
    }

    /** getNextIndexOfObject. */
    method IndexOf(s: Surface) returns (i: nat)
      requires s in surfaces
      ensures i < |surfaces| && surfaces[i] == s
    {
      i := 0;
      while surfaces[i] != s
        invariant i < |surfaces| && s in surfaces[i..]
        decreases |surfaces| - i
      {
        i := i + 1;
      }
    }

    /** One surface less, the others in their order. */
    twostate predicate Removed(s: Surface)
      reads this
    {
      && surfaceMap == old(surfaceMap) - {s.id}
      && exists i | 0 <= i < |old(surfaces)| ::
           old(surfaces)[i] == s && surfaces == old(surfaces)[..i] + old(surfaces)[i + 1..]
    }

    /** Drop a surface from dictionary and array and give its bytes back. */
    method Unregister(s: Surface)
      requires Recorded() && s in surfaces
      modifies this`surfaces, this`surfaceMap, this`surfaceCount, this`allocatedBytes
      ensures Recorded() && Removed(s) && forall t <- surfaces :: t in old(surfaces) && t != s
    {
      surfaceMap := surfaceMap - {s.id};
      var i := IndexOf(s);
      ghost var before := surfaces;
      TotalBytesRemove(surfaces, i);
      surfaces := surfaces[..i] + surfaces[i + 1..];
      surfaceCount := surfaceCount - 1;
      allocatedBytes := allocatedBytes - s.memorySize;
      RemoveKeepsSame(before, old(surfaceMap), i);
      assert before[i] == s;
    }

    /** Take a surface out and remember that the cache may still hold it. */
    method Withdraw(s: Surface)
      requires Recorded() && s in surfaces && cache.Valid() && CacheRight()
      modifies this
      ensures Recorded() && Removed(s) && CacheRight() && destroyed == old(destroyed) + {s.id}
      ensures forall t <- surfaces :: t in old(surfaces) && t != s
    {
      RemoveKeepsRight(cache.Value(), surfaceMap, destroyed, s.id);
      Unregister(s);
      destroyed := destroyed + {s.id};
    }

    /** Take a surface out and recycle its id. */
    method Retire(s: Surface)
      requires Recorded() && s in surfaces && ids.kind == Ids.Surface && Ids.Sound(ids.Value(), surfaceMap.Keys)
      requires cache.Valid() && CacheRight()
      modifies this, ids
      ensures Recorded() && Removed(s) && Ids.Sound(ids.Value(), surfaceMap.Keys)
      ensures CacheRight() && destroyed == old(destroyed) + {s.id}
      ensures ids.Value() == Ids.Release(old(ids.Value()), s.id)
      ensures forall t <- surfaces :: t in old(surfaces) && t != s
    {
      ghost var live := surfaceMap.Keys - {s.id};
      assert surfaceMap.Keys == live + {s.id};
      Withdraw(s);
      assert surfaceMap.Keys == live;
      GiveBackSurfaceId(live, s.id);
    }

    /** Give up the last reference to a surface. */
    method Drop(s: Surface)
      requires Valid() && s in surfaces
      modifies this, ids, s
      ensures Valid() && Removed(s) && destroyed == old(destroyed) + {s.id}
      ensures ids.Value() == Ids.Release(old(ids.Value()), s.id)
    {
      s.refCount := s.refCount - 1;
      if s.refCount == 0 { Retire(s); }
    }

    /** A locked surface is never destroyed. The lookup that destruction starts with leaves the surface in the
        cache, so the id is not answerable until that entry is evicted or flushed. */
    method DestroySurface(id: word, now: nat) returns (status: Status)
      requires Valid() && Answerable(id)
      modifies this, ids, cache, cache.slots, if id in surfaceMap then {surfaceMap[id]} else {}
      ensures Valid() && cache.slots == old(cache.slots)
      ensures status == if id == 0 then BadArgument
                        else if Lookup(old(surfaceMap), id).None? then NotFound
                        else if old(surfaceMap[id].isLocked) then Busy else Success
      ensures status != Success ==>
                && destroyed == old(destroyed) && surfaces == old(surfaces) && surfaceMap == old(surfaceMap)
                && forall s <- surfaces :: unchanged(s)
      ensures status == Success ==> Removed(old(surfaceMap)[id]) && destroyed == old(destroyed) + {id}
      ensures cache.Value() == Find(old(cache.Value()), old(surfaceMap), id, now).0
      ensures ids.Value() == if status == Success then Ids.Release(old(ids.Value()), id) else old(ids.Value())
    {
      if id == 0 { return BadArgument; }
      var found := Locate(id, now);
      if found.None? { return NotFound; }
      if found.value.isLocked || found.value.lockCount > 0 { return Busy; }
      Drop(found.value);
      status := Success;
    }

    /** Flushing makes every id answerable. */
    method FlushCache()
      requires Valid()
      modifies this`destroyed, cache, cache.slots
      ensures Valid() && destroyed == {} && cache.slots == old(cache.slots)
    {
      cache.FlushDiscoveryCache();
      destroyed := {};
    }

    method LockSurface(id: word, readOnly: bool, now: nat) returns (status: Status)
      requires Valid() && Answerable(id) && (id in surfaceMap ==> surfaceMap[id].lockCount < 0xFFFF_FFFF)
      modifies cache, cache.slots, if id in surfaceMap then {surfaceMap[id]} else {}
      ensures Valid() && cache.slots == old(cache.slots)
      ensures status == if Lookup(surfaceMap, id).None? then NotFound
                        else if old(surfaceMap[id].isLocked) && !readOnly then Busy else Success
      ensures id in surfaceMap ==>
                surfaceMap[id].lockCount == old(surfaceMap[id].lockCount) + if status == Success then 1 else 0
      ensures cache.Value() == Find(old(cache.Value()), surfaceMap, id, now).0
    {
      hide Find, RightAt, TotalBytes, Ids.Sound;
      var found := Locate(id, now);
      if found.None? { return NotFound; }
      if found.value.isLocked && !readOnly { return Busy; }
      found.value.lockCount := found.value.lockCount + 1;
      found.value.isLocked := true;
      status := Success;
    }

    method UnlockSurface(id: word, now: nat) returns (status: Status)
      requires Valid() && Answerable(id)
      modifies cache, cache.slots, if id in surfaceMap then {surfaceMap[id]} else {}
      ensures Valid() && cache.slots == old(cache.slots)
      ensures status == if Lookup(surfaceMap, id).None? then NotFound
                        else if old(surfaceMap[id].lockCount) == 0 then NotOpen else Success
      ensures id in surfaceMap ==>
                surfaceMap[id].lockCount == old(surfaceMap[id].lockCount) - if status == Success then 1 else 0
      ensures cache.Value() == Find(old(cache.Value()), surfaceMap, id, now).0
    {
      hide Find, RightAt, TotalBytes, Ids.Sound;
      var found := Locate(id, now);
      if found.None? { return NotFound; }
      status := Unlock(found.value);
    }

    method Unlock(s: Surface) returns (status: Status)
      requires s.isLocked <==> s.lockCount > 0
      modifies s`lockCount, s`isLocked
      ensures (s.isLocked <==> s.lockCount > 0) && status == if old(s.lockCount) == 0 then NotOpen else Success
      ensures s.lockCount == old(s.lockCount) - if status == Success then 1 else 0
    {
      if !s.isLocked || s.lockCount == 0 { return NotOpen; }
      s.lockCount := s.lockCount - 1;
      if s.lockCount == 0 { s.isLocked := false; }
      status := Success;
    }

    /** Plane locks count like surface locks but do not look for a conflicting one. */
    method LockSurfacePlane(id: word, plane: word, now: nat) returns (status: Status)
      requires Valid() && (plane < 4 ==> Answerable(id))
      requires id in surfaceMap ==> surfaceMap[id].lockCount < 0xFFFF_FFFF
      modifies cache, cache.slots, if id in surfaceMap then {surfaceMap[id]} else {}
      ensures Valid() && cache.slots == old(cache.slots)
      ensures status == if plane >= 4 then BadArgument else if Lookup(surfaceMap, id).None? then NotFound
                        else if plane >= surfaceMap[id].planeCount then BadArgument else Success
      ensures id in surfaceMap ==>
                surfaceMap[id].lockCount == old(surfaceMap[id].lockCount) + if status == Success then 1 else 0
      ensures cache.Value() == if plane < 4 then Find(old(cache.Value()), surfaceMap, id, now).0 else old(cache.Value())
    {
      hide Find, RightAt, TotalBytes, Ids.Sound;
      if plane >= 4 { return BadArgument; }
      var found := Locate(id, now);
      if found.None? { return NotFound; }
      if plane >= found.value.planeCount { return BadArgument; }
      found.value.lockCount := found.value.lockCount + 1;
      found.value.isLocked := true;
      status := Success;
    }

    method UnlockSurfacePlane(id: word, plane: word, now: nat) returns (status: Status)
      requires Valid() && (plane < 4 ==> Answerable(id))
      modifies cache, cache.slots, if id in surfaceMap then {surfaceMap[id]} else {}
      ensures Valid() && cache.slots == old(cache.slots)
      ensures status == if plane >= 4 then BadArgument else if Lookup(surfaceMap, id).None? then NotFound
                        else if plane >= surfaceMap[id].planeCount then BadArgument
                        else if old(surfaceMap[id].lockCount) == 0 then NotOpen else Success
      ensures id in surfaceMap ==>
                surfaceMap[id].lockCount == old(surfaceMap[id].lockCount) - if status == Success then 1 else 0
      ensures cache.Value() == if plane < 4 then Find(old(cache.Value()), surfaceMap, id, now).0 else old(cache.Value())
    {
      hide Find, RightAt, TotalBytes, Ids.Sound;
      if plane >= 4 { return BadArgument; }
      var found := Locate(id, now);
      if found.None? { return NotFound; }
      if plane >= found.value.planeCount { return BadArgument; }
      status := Unlock(found.value);
    }
  }

  /** Which surfaces can be created: four-byte ones and, with YUV, NV12, of 1 to 16384 pixels a side, whose size in
      32 bits is not 0 and fits the rest of the budget, if nothing fails on the way. RGB24, RGB565 and, with YUV, P010
      and YUV420 are known formats, and are refused once an id has been taken. */
  lemma CreatedExactlyWhen(m: Manager, d: Descriptor, yuv: bool, fault: Fault)
    ensures m.Refusal(d, yuv) == Success && m.Outcome(d, fault) == Success
            <==> && fault == NoFault && 1 <= d.width <= 16384 && 1 <= d.height <= 16384
                 && (ChannelBits(d.format) == 32 || (yuv && d.format == NV12))
                 && 0 < SurfaceSize(d) && m.allocatedBytes + SurfaceSize(d) <= 0x2000_0000
    ensures m.Refusal(d, yuv) == Success && d.format in {RGB24, RGB565, P010, YUV420} && fault != NoObject
            ==> m.Outcome(d, fault) == Unsupported
    ensures d.format == Unknown || (!yuv && d.format in {NV12, P010, YUV420}) ==> m.Refusal(d, yuv) == Unsupported
  {}

  lemma RemoveKeepsSame(surfaces: seq<Surface>, m: map<word, Surface>, i: nat)
    requires i < |surfaces| && SameSurfaces(surfaces, m)
    ensures SameSurfaces(surfaces[..i] + surfaces[i + 1..], m - {surfaces[i].id})
  {
    var rest := surfaces[..i] + surfaces[i + 1..];
    var m' := m - {surfaces[i].id};
    forall j | 0 <= j < |rest| ensures rest[j].id in m' && m'[rest[j].id] == rest[j] {
      assert rest[j] == surfaces[if j < i then j else j + 1];
    }
    forall id <- m'.Keys ensures m'[id] in rest && m'[id].id == id {
      var k :| 0 <= k < |surfaces| && surfaces[k] == m[id];
      assert k != i && rest[if k < i then k else k - 1] == m[id];
    }
  }

  lemma {:induction false} AppendKeepsRecord(surfaces: seq<Surface>, m: map<word, Surface>, s: Surface)
    requires SameSurfaces(surfaces, m) && s.id !in m
    ensures SameSurfaces(surfaces + [s], m[s.id := s])
    ensures TotalBytes(surfaces + [s]) == TotalBytes(surfaces) + s.memorySize
  {
    assert (surfaces + [s])[..|surfaces|] == surfaces;
    assert forall i | 0 <= i < |surfaces| :: surfaces[i].id in m;
    forall id <- m.Keys ensures m[id] in surfaces + [s] { assert m[id] in surfaces; }
  }

  lemma InsertKeepsRight(c: Cache<Surface>, m: map<word, Surface>, id: word, s: Surface)
    requires id !in m
    ensures forall x: word | RightAt(c, m, x) :: RightAt(c, m[id := s], x)
  {}

  lemma RemoveKeepsRight(c: Cache<Surface>, m: map<word, Surface>, destroyed: set<word>, id: word)
    requires forall x: word | x !in destroyed :: RightAt(c, m, x)
    ensures forall x: word | x !in destroyed + {id} :: RightAt(c, m - {id}, x)
  {
    forall x: word | x !in destroyed + {id} ensures RightAt(c, m - {id}, x) { assert RightAt(c, m, x); }
  }

  ghost predicate SameSurfaces(surfaces: seq<Surface>, m: map<word, Surface>) {
    && (forall i | 0 <= i < |surfaces| :: surfaces[i].id in m && m[surfaces[i].id] == surfaces[i])
    && (forall i, j | 0 <= i < j < |surfaces| :: surfaces[i] != surfaces[j])
    && (forall id <- m.Keys :: m[id] in surfaces && m[id].id == id)
  }
}
