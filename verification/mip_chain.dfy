/** The size of a texture with its mipmaps (FB/VMMetalBridge.cpp:1703-1720, 1754-1778, 1795-1817). */
module MipChain {
  import opened Words
  import opened Arithmetic

  datatype Format = R8 | RG8 | RGBA8 | BGRA8 | R16Float | RG16Float | R32Float | Other

  datatype Texture = Texture(width: word, height: word, depth: word, levels: word, volume: bool, format: Format)

  function BytesPerPixel(f: Format): (n: nat)
    ensures 1 <= n <= 4
  {
    match f case R8 => 1 case RG8 | R16Float => 2 case _ => 4
  }

  predicate Accepted(t: Texture) {
    0 < t.width <= 16384 && 0 < t.height <= 16384 && 0 < t.depth <= 2048
  }

  function Levels(t: Texture): nat {
    if t.levels > 0 then t.levels else 1
  }

  function Pow2(n: nat): (p: nat)
    ensures p > 0
  {
    if n == 0 then 1 else 2 * Pow2(n - 1)
  }

  /** A dimension at a level: halved once a level, rounding down, but at least 1. */
  function Dimension(size: nat, level: nat): (d: nat)
    ensures d >= 1
  {
    if size / Pow2(level) > 1 then size / Pow2(level) else 1
  }

  /** Only volumes get shallower; everything else has its depth at the first level only. */
  function Depth(t: Texture, level: nat): nat {
    if t.volume then Dimension(t.depth, level) else if level == 0 then t.depth else 1
  }

  function Texels(t: Texture, level: nat): nat {
    var plane: nat := Dimension(t.width, level) * Dimension(t.height, level);
    plane * Depth(t, level)
  }

  /** The texels of the first levels. */
  function Total(t: Texture, levels: nat): nat {
    if levels == 0 then 0 else Total(t, levels - 1) + Texels(t, levels - 1)
  }

  function Halved(size: nat): nat {
    if size > 1 then size / 2 else 1
  }

  /** One step of halving goes from a level to the next. */
  lemma HalvingIsNextLevel(size: nat, level: nat)
    ensures Dimension(size, level + 1) == Halved(Dimension(size, level))
  {
    DivideTwice(size, Pow2(level));
  }

  lemma DivideTwice(x: nat, p: nat)
    requires p > 0
    ensures x / (2 * p) == x / p / 2
  {
    var q, r := x / p, x % p;
    Division(x, p);
    Spread(p, q / 2, q % 2);
    assert q == 2 * (q / 2) + q % 2;
    RemainderFits(p, q % 2, r);
    QuotientIs(x, 2 * p, q / 2, (q % 2) * p + r);
  }

  lemma Division(x: nat, p: nat)
    requires p > 0
    ensures x == (x / p) * p + x % p && x % p < p
  {}

  lemma Spread(p: nat, h: nat, b: nat)
    ensures (2 * h + b) * p == (2 * p) * h + b * p
  {}

  lemma RemainderFits(p: nat, b: nat, r: nat)
    requires b <= 1 && r < p
    ensures b * p + r < 2 * p
  {}

  lemma QuotientIs(x: nat, d: nat, q: nat, r: nat)
    requires d > 0 && r < d && x == d * q + r
    ensures x / d == q
  {
    var k := x / d;
    Division(x, d);
    if k > q { MulLe(q + 1, k, d, d); NextMultiple(q, d); }
    if k < q { MulLe(k + 1, q, d, d); NextMultiple(k, d); }
  }

  lemma NextMultiple(k: nat, d: nat)
    ensures (k + 1) * d == d * k + d && k * d == d * k
  {}

  /** In 32-bit arithmetic the loop computes the size of all levels, modulo 2^32. */
  method TextureSize(t: Texture) returns (size: word)
    requires Accepted(t)
    ensures size == Wrap(Total(t, Levels(t)) * BytesPerPixel(t.format))
  {
    var levels := if t.levels > 0 then t.levels else 1;
    size := 0;
    var width, height, depth: nat := t.width, t.height, t.depth;
    var level := 0;
    FirstLevel(t);
    while level < levels
      invariant level <= levels
      invariant width == Dimension(t.width, level) && height == Dimension(t.height, level) && depth == Depth(t, level)
      invariant size == Wrap(Total(t, level) * BytesPerPixel(t.format))
    {
      size := AddLevel(size, width, height, depth, BytesPerPixel(t.format), t, level);
      OneMoreLevel(t, level);
      width := if width > 1 then width / 2 else 1;
      height := if height > 1 then height / 2 else 1;
      depth := if !t.volume then 1 else if depth > 1 then depth / 2 else 1;
      level := level + 1;
    }
  }

  method AddLevel(size: word, width: nat, height: nat, depth: nat, bytes: nat, ghost t: Texture, ghost level: nat)
    returns (sum: word)
    requires size == Wrap(Total(t, level) * bytes)
    requires width == Dimension(t.width, level) && height == Dimension(t.height, level) && depth == Depth(t, level)
    ensures sum == Wrap(Total(t, level + 1) * bytes)
  {
    var levelSize := Wrap(Wrap(Wrap(width * height) * depth) * bytes);
    LevelSumWraps(Total(t, level), width, height, depth, bytes);
    sum := Wrap(size + levelSize);
  }

  lemma OneMoreLevel(t: Texture, level: nat)
    ensures Dimension(t.width, level + 1) == Halved(Dimension(t.width, level))
    ensures Dimension(t.height, level + 1) == Halved(Dimension(t.height, level))
    ensures Depth(t, level + 1) == if t.volume then Halved(Depth(t, level)) else 1
  {
    HalvingIsNextLevel(t.width, level);
    HalvingIsNextLevel(t.height, level);
    HalvingIsNextLevel(t.depth, level);
  }

  lemma FirstLevel(t: Texture)
    requires Accepted(t)
    ensures Dimension(t.width, 0) == t.width && Dimension(t.height, 0) == t.height && Depth(t, 0) == t.depth
  {}

  lemma Distribute(a: nat, b: nat, c: nat)
    ensures (a + b) * c == a * c + b * c
  {}

  lemma WrapSum(a: nat, b: nat)
    ensures Wrap(Wrap(a) + Wrap(b)) == Wrap(a + b)
  {}

  lemma WrapProduct(a: nat, b: nat)
    ensures Wrap(Wrap(a) * b) == Wrap(a * b)
  {
    var q := a / 0x1_0000_0000;
    assert a == q * 0x1_0000_0000 + Wrap(a);
    Distribute(q * 0x1_0000_0000, Wrap(a), b);
    Reorder(q, b);
    WrapMultiple(q * b, Wrap(a) * b);
  }

  lemma Reorder(q: nat, b: nat)
    ensures q * 0x1_0000_0000 * b == (q * b) * 0x1_0000_0000
  {}

  lemma WrapMultiple(k: nat, x: nat)
    ensures Wrap(k * 0x1_0000_0000 + x) == Wrap(x)
  {}

  lemma LevelSizeWraps(w: nat, h: nat, d: nat, b: nat)
    ensures Wrap(Wrap(Wrap(w * h) * d) * b) == Wrap(w * h * d * b)
  {
    WrapProduct(w * h, d);
    WrapProduct(Wrap(w * h) * d, b);
    WrapProduct(w * h * d, b);
  }

  lemma LevelSumWraps(total: nat, w: nat, h: nat, d: nat, b: nat)
    ensures Wrap(Wrap(total * b) + Wrap(Wrap(Wrap(w * h) * d) * b)) == Wrap((total + w * h * d) * b)
  {
    LevelSizeWraps(w, h, d, b);
    WrapSum(total * b, w * h * d * b);
    Distribute(total, w * h * d, b);
  }

  // ---------------------------------------------------------------- how large it gets

  /** Each level has about half the texels of the one before, or fewer. */
  lemma LevelsShrink(t: Texture, level: nat)
    requires Accepted(t)
    ensures 2 * Texels(t, level + 1) <= Texels(t, level) + 1
  {
    HalvingIsNextLevel(t.width, level);
    HalvingIsNextLevel(t.height, level);
    HalvingIsNextLevel(t.depth, level);
    var w, h, d := Dimension(t.width, level), Dimension(t.height, level), Depth(t, level);
    var d' := Depth(t, level + 1);
    assert 1 <= d' <= d && (d' == d == 1 || 2 * d' <= d || d' == 1);
    if w > 1 {
      HalfOfFirst(Halved(w), w, Halved(h), h, d', d);
    } else if h > 1 {
      HalfOfFirst(Halved(h), h, Halved(w), w, d', d);
      Swap(w, h, d);
      Swap(Halved(w), Halved(h), d');
    } else {
      assert w * h * d == d && Halved(w) * Halved(h) * d' == d';
    }
  }

  lemma HalfOfFirst(a': nat, a: nat, b': nat, b: nat, c': nat, c: nat)
    requires 2 * a' <= a && b' <= b && c' <= c
    ensures 2 * (a' * b' * c') <= a * b * c
  {
    MulLe(2 * a', a, b', b);
    MulLe(2 * a' * b', a * b, c', c);
    assert 2 * (a' * b' * c') == 2 * a' * b' * c' by { Regroup(a', b', c'); }
  }

  lemma Regroup(a: nat, b: nat, c: nat)
    ensures 2 * (a * b * c) == 2 * a * b * c
  {
    assert 2 * (a * b) == 2 * a * b;
    Associate(2, a * b, c);
  }

  lemma Associate(a: nat, b: nat, c: nat)
    ensures a * (b * c) == a * b * c
  {}

  lemma Swap(a: nat, b: nat, c: nat)
    ensures a * b * c == b * a * c
  {}

  /** All levels together have at most twice the texels of the first, and one more for each level. */
  lemma {:induction false} TotalIsBounded(t: Texture, levels: nat)
    requires Accepted(t)
    ensures Total(t, levels) + 2 * Texels(t, levels) <= 2 * (t.width * t.height * t.depth) + levels
    decreases levels
  {
    if levels == 0 {
      FirstLevel(t);
    } else {
      TotalIsBounded(t, levels - 1);
      LevelsShrink(t, levels - 1);
    }
  }

  lemma {:induction false} TotalGrows(t: Texture, levels: nat)
    requires levels > 0
    ensures Total(t, levels) >= Texels(t, 0)
    decreases levels
  {
    if levels > 1 { TotalGrows(t, levels - 1); }
  }

  /** The bytes of the first level. */
  function FirstLevelBytes(t: Texture): nat {
    t.width * t.height * t.depth * BytesPerPixel(t.format)
  }

  /** The computed size of any accepted texture is the true one when twice the first level and one pixel for
      each level stay below 2^32, and never once the first level alone does not; with one level that is the
      exact condition. */
  lemma ComputedSizeIsTrue(t: Texture)
    requires Accepted(t)
    ensures var bytes := Total(t, Levels(t)) * BytesPerPixel(t.format);
            && (2 * FirstLevelBytes(t) + Levels(t) * BytesPerPixel(t.format) < 0x1_0000_0000 ==> Wrap(bytes) == bytes)
            && (FirstLevelBytes(t) >= 0x1_0000_0000 ==> Wrap(bytes) != bytes)
            && (Levels(t) == 1 ==> (Wrap(bytes) == bytes <==> FirstLevelBytes(t) < 0x1_0000_0000))
  {
    var first := t.width * t.height * t.depth;
    FirstLevel(t);
    TotalIsBounded(t, Levels(t));
    TotalGrows(t, Levels(t));
    if Levels(t) == 1 { assert Total(t, 1) == Total(t, 0) + Texels(t, 0) == first; }
    SizesBetween(Total(t, Levels(t)), first, Levels(t), BytesPerPixel(t.format));
  }

  lemma SizesBetween(total: nat, first: nat, levels: nat, b: nat)
    requires first <= total <= 2 * first + levels
    ensures first * b <= total * b <= 2 * (first * b) + levels * b
    ensures Wrap(total * b) == total * b <==> total * b < 0x1_0000_0000
  {
    MulLe(first, total, b, b);
    MulLe(total, 2 * first + levels, b, b);
    Distribute(2 * first, levels, b);
    assert 2 * first * b == 2 * (first * b);
    if total * b < 0x1_0000_0000 { Unwrapped(total * b); }
  }

  /** From level 14 on every dimension of an accepted texture is 1. */
  lemma LateLevelIsOneTexel(t: Texture, level: nat)
    requires Accepted(t) && level >= 14
    ensures Texels(t, level) == 1
  {
    Pow2Grows(level);
    LateDimension(t.width, Pow2(level));
    LateDimension(t.height, Pow2(level));
    LateDimension(t.depth, Pow2(level));
  }

  lemma {:induction false} Pow2Grows(n: nat)
    requires n >= 14
    ensures Pow2(n) >= 16384
    decreases n
  {
    if n == 14 {
      assert Pow2(7) == 128;
      assert Pow2(14) == 128 * Pow2(7);
    } else {
      Pow2Grows(n - 1);
    }
  }

  lemma LateDimension(size: nat, p: nat)
    requires size <= 16384 <= p
    ensures size / p <= 1
  {
    if size < p { QuotientIs(size, p, 0, size); } else { QuotientIs(size, p, 1, 0); }
  }

  /** The levels that can hold more than one texel. */
  function EarlyLevels(t: Texture): nat {
    if Levels(t) <= 14 then Levels(t) else 14
  }

  lemma {:induction false} LateLevelsCountOne(t: Texture, levels: nat)
    requires Accepted(t) && levels >= 14
    ensures Total(t, levels) == Total(t, 14) + (levels - 14)
    decreases levels
  {
    if levels > 14 {
      LateLevelsCountOne(t, levels - 1);
      LateLevelIsOneTexel(t, levels - 1);
    }
  }

  /** The exact condition for any number of levels, up to 2^32: the texels of at most 14 levels, and one for each
      further level, in bytes, stay below 2^32. */
  lemma ComputedSizeIsTrueExactly(t: Texture)
    requires Accepted(t)
    ensures var bytes := Total(t, Levels(t)) * BytesPerPixel(t.format);
            Wrap(bytes) == bytes
            <==> (Total(t, EarlyLevels(t)) + (Levels(t) - EarlyLevels(t))) * BytesPerPixel(t.format) < 0x1_0000_0000
  {
    if Levels(t) >= 14 { LateLevelsCountOne(t, Levels(t)); }
    var bytes := Total(t, Levels(t)) * BytesPerPixel(t.format);
    if bytes < 0x1_0000_0000 { Unwrapped(bytes); }
  }

  /** Accepted textures of depth 1 with fewer than 2^29 levels never wrap. */
  lemma FlatTextureNeverWraps(t: Texture)
    requires Accepted(t) && t.depth == 1 && t.levels < 0x2000_0000
    ensures Total(t, Levels(t)) <= 2 * (t.width * t.height) + Levels(t)
    ensures Wrap(Total(t, Levels(t)) * BytesPerPixel(t.format)) == Total(t, Levels(t)) * BytesPerPixel(t.format)
  {
    assert t.width * t.height * t.depth == t.width * t.height;
    TotalIsBounded(t, Levels(t));
    FlatIsSmall(t.width, t.height, Levels(t), BytesPerPixel(t.format));
    ComputedSizeIsTrue(t);
  }

  lemma FlatIsSmall(w: nat, h: nat, levels: nat, b: nat)
    requires w <= 16384 && h <= 16384 && levels < 0x2000_0000 && b <= 4
    ensures 2 * (w * h * b) + levels * b < 0x1_0000_0000
  {
    MulLe(w, 16384, h, 16384);
    SmallTimesFour(w * h, 0x1000_0000, b);
    SmallTimesFour(levels, 0x1FFF_FFFF, b);
  }

  lemma SmallTimesFour(n: nat, most: nat, b: nat)
    requires n <= most && b <= 4
    ensures n * b <= 4 * most
  {
    MulLe(n, most, b, 4);
  }

  /** Volumes can wrap: the computed size of one of 2048 texels a side, 32 GB, is 0. */
  lemma VolumeCanWrap()
    ensures var t := Texture(2048, 2048, 2048, 1, true, RGBA8);
            && Accepted(t) && FirstLevelBytes(t) == Total(t, 1) * 4 == 8 * 0x1_0000_0000
            && Wrap(Total(t, 1) * BytesPerPixel(t.format)) == 0
  {
    FirstLevel(Texture(2048, 2048, 2048, 1, true, RGBA8));
  }

  // ---------------------------------------------------------------- closed forms

  /** A dimension at a level is the number of whole texels of 2^level that fit into the size, or 1 when none does. */
  lemma DimensionIs(size: nat, level: nat)
    ensures var d := Dimension(size, level);
            if size < Pow2(level) then d == 1 else d * Pow2(level) <= size < (d + 1) * Pow2(level)
  {
    var p := Pow2(level);
    Division(size, p);
    if size < p {
      QuotientIs(size, p, 0, size);
    } else {
      WholeFits(size, p);
      NextMultiple(size / p, p);
    }
  }

  lemma WholeFits(size: nat, p: nat)
    requires 0 < p <= size
    ensures size / p >= 1
  {
    if size / p == 0 { Division(size, p); }
  }

  lemma {:induction false} PowersMultiply(a: nat, b: nat)
    ensures Pow2(a + b) == Pow2(a) * Pow2(b)
    decreases b
  {
    if b > 0 {
      PowersMultiply(a, b - 1);
      assert Pow2(a + b) == 2 * Pow2(a + (b - 1));
      Twice(Pow2(a), Pow2(b - 1));
    }
  }

  lemma Twice(x: nat, y: nat)
    ensures 2 * (x * y) == x * (2 * y)
  {}

  lemma PowerAtLevel(k: nat, level: nat)
    requires level <= k
    ensures Dimension(Pow2(k), level) == Pow2(k - level)
  {
    PowersMultiply(k - level, level);
    NextMultiple(Pow2(k - level), Pow2(level));
    QuotientIs(Pow2(k), Pow2(level), Pow2(k - level), 0);
  }

  lemma LevelOfSquare(t: Texture, k: nat, level: nat)
    requires t.width == t.height == Pow2(k) && t.depth == 1 && level <= k
    ensures Texels(t, level) == Pow2(2 * (k - level))
  {
    PowerAtLevel(k, level);
    PowersMultiply(k - level, k - level);
    DimensionIs(1, level);
    hide Dimension, Pow2;
  }

  /** The levels of a square of 2^k texels a side, down to the last: a third of 4^(k + 1) - 1 texels. */
  lemma {:induction false} SquareChain(t: Texture, k: nat, levels: nat)
    requires t.width == t.height == Pow2(k) && t.depth == 1 && levels <= k + 1
    ensures 3 * Total(t, levels) + Pow2(2 * (k + 1 - levels)) == Pow2(2 * (k + 1))
    decreases levels
  {
    if levels > 0 {
      SquareChain(t, k, levels - 1);
      LevelOfSquare(t, k, levels - 1);
      PowersMultiply(2 * (k + 1 - levels), 2);
      hide Texels;
    }
  }

  lemma LevelOfCube(t: Texture, k: nat, level: nat)
    requires t.width == t.height == t.depth == Pow2(k) && t.volume && level <= k
    ensures Texels(t, level) == Pow2(3 * (k - level))
  {
    PowerAtLevel(k, level);
    PowersMultiply(k - level, k - level);
    PowersMultiply(2 * (k - level), k - level);
    hide Dimension, Pow2;
  }

  /** The levels of a volume of 2^k texels a side: a seventh of 8^(k + 1) - 1. */
  lemma {:induction false} CubeChain(t: Texture, k: nat, levels: nat)
    requires t.width == t.height == t.depth == Pow2(k) && t.volume && levels <= k + 1
    ensures 7 * Total(t, levels) + Pow2(3 * (k + 1 - levels)) == Pow2(3 * (k + 1))
    decreases levels
  {
    if levels > 0 {
      CubeChain(t, k, levels - 1);
      LevelOfCube(t, k, levels - 1);
      PowersMultiply(3 * (k + 1 - levels), 3);
      hide Texels;
    }
  }

  /** A texture that is not a volume and has several layers counts them at the first level only. */
  lemma LayersCountOnce(t: Texture, flat: Texture, level: nat)
    requires Accepted(t) && !t.volume && flat == t.(depth := 1)
    ensures Texels(t, level) == if level == 0 then t.width * t.height * t.depth else Texels(flat, level)
  {
    if level == 0 { FirstLevel(t); }
    DimensionIs(1, level);
    hide Dimension;
  }

  /** A pixel has as many bits as its channels; formats not known here count as four bytes. */
  lemma PixelHoldsChannels(f: Format)
    ensures 8 * BytesPerPixel(f)
            == match f
               case R8 => 8
               case RG8 => 8 + 8
               case RGBA8 | BGRA8 => 8 + 8 + 8 + 8
               case R16Float => 16
               case RG16Float => 16 + 16
               case R32Float => 32
               case Other => 32
  {}
}
