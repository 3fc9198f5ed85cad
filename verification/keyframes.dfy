/** Keyframe animations: validation, segment search, easing and the curve they draw
    (FB/VMCoreAnimationAccelerator.cpp:1126-1141, 1376-1385, 1420-1783, 1955-1980). Doubles and floats are reals. */
module Keyframes {
  import opened Words
  import opened Arithmetic
  import Crc32

  const MAGIC: word := 0x564B_4644
  const MAX_KEYFRAMES := 8
  const HEADER_SIZE := 16
  const DATA_SIZE := 168
  const TIMING_EPSILON := 0.000001

  datatype Timing = Linear | EaseIn | EaseOut | EaseInOut | Default

  datatype Header = Header(magic: word, version: word, dataSize: word, checksum: bv32)

  /** The structure after the header: its bytes, and what they say. finite tells for each keyframe whether
      the floats of its value are all finite. */
  datatype Data = Data(
    bytes: seq<bv8>,
    count: word,
    kind: word,
    times: seq<real>,
    values: seq<real>,
    finite: seq<bool>)
  {
    predicate Valid() {
      |times| == |values| == |finite| == MAX_KEYFRAMES
    }
  }

  /** Kind 1 is a colour, which is not made of floats. */
  const COLOR: word := 1

  predicate GoodHeader(h: Header) {
    h.magic == MAGIC && h.version <= 1 && DATA_SIZE <= h.dataSize <= HEADER_SIZE + DATA_SIZE
  }

  /** Times from 0 to 1, each clearly after the one before. */
  predicate GoodTimes(times: seq<real>) {
    && |times| >= 2 && times[0] == 0.0 && times[|times| - 1] == 1.0
    && forall i | 1 <= i < |times| :: times[i] - times[i - 1] > TIMING_EPSILON
  }

  /** What it takes to be used: a single keyframe cannot be both at 0 and at 1. */
  predicate Accepted(h: Header, d: Data)
    requires d.Valid()
  {
    && GoodHeader(h) && 2 <= d.count <= MAX_KEYFRAMES && d.kind <= 3
    && GoodTimes(d.times[..d.count])
    && (d.kind != COLOR ==> false !in d.finite[..d.count])
    && (h.checksum != 0 ==> Crc32.Crc(d.bytes) == Crc32.Bits(h.checksum))
  }

  /** The checks read the time before the count's end and up to it even when the count is out of range;
      memory is whatever lies there. */
  function TimeAt(d: Data, memory: int -> real, i: int): real
    requires d.Valid()
  {
    if 0 <= i < MAX_KEYFRAMES then d.times[i] else memory(i)
  }

  method Validate(h: Header, d: Data, memory: int -> real) returns (valid: bool)
    requires d.Valid()
    ensures valid <==> Accepted(h, d)
  {
    if !(h.magic == MAGIC && h.version <= 1 && h.dataSize >= DATA_SIZE && h.dataSize <= HEADER_SIZE + DATA_SIZE) {
      return false;
    }
    valid := true;
    if d.count == 0 || d.count > MAX_KEYFRAMES { valid := false; }
    if d.kind > 3 { valid := false; }
    if d.times[0] != 0.0 { valid := false; }
    if TimeAt(d, memory, Wrap(d.count - 1)) != 1.0 { valid := false; }
    var ascending := CheckAscending(d, memory);
    if !ascending { valid := false; }
    ChecksMeanGoodTimes(d, memory);
    if valid && d.kind != COLOR { valid := CheckFinite(d); }
    if valid && h.checksum != 0 {
      var crc := Crc32.CalculateCrc32(d.bytes);
      if crc != h.checksum { valid := false; }
      SameWordSameBits(crc, h.checksum);
    }
  }

  method CheckFinite(d: Data) returns (finite: bool)
    requires d.Valid() && d.count <= MAX_KEYFRAMES
    ensures finite <==> false !in d.finite[..d.count]
  {
    var i := 0;
    while i < d.count
      invariant 0 <= i <= d.count && false !in d.finite[..i]
    {
      if !d.finite[i] { return false; }
      i := i + 1;
    }
    finite := true;
  }

  lemma ChecksMeanGoodTimes(d: Data, memory: int -> real)
    requires d.Valid()
    ensures (0 < d.count <= MAX_KEYFRAMES && d.times[0] == 0.0 && TimeAt(d, memory, Wrap(d.count - 1)) == 1.0 &&
             (forall i | 1 <= i < d.count :: TimeAt(d, memory, i) - TimeAt(d, memory, i - 1) > TIMING_EPSILON))
            <==> (2 <= d.count <= MAX_KEYFRAMES && GoodTimes(d.times[..d.count]))
  {
    if 0 < d.count <= MAX_KEYFRAMES {
      assert forall i | 0 <= i < d.count :: TimeAt(d, memory, i) == d.times[..d.count][i];
    }
  }

  lemma SameWordSameBits(a: bv32, b: bv32)
    ensures a == b <==> Crc32.Bits(a) == Crc32.Bits(b)
  {
    if Crc32.Bits(a) == Crc32.Bits(b) { Crc32.BitsInjective(a, b); }
  }

  method CheckAscending(d: Data, memory: int -> real) returns (ascending: bool)
    requires d.Valid()
    ensures ascending <==>
              forall i | 1 <= i < d.count :: TimeAt(d, memory, i) - TimeAt(d, memory, i - 1) > TIMING_EPSILON
  {
    var i := 1;
    while i < d.count
      invariant 1 <= i
      invariant forall j | 1 <= j < i && j < d.count ::
                  TimeAt(d, memory, j) - TimeAt(d, memory, j - 1) > TIMING_EPSILON
    {
      if TimeAt(d, memory, i) - TimeAt(d, memory, i - 1) <= TIMING_EPSILON { return false; }
      i := i + 1;
    }
    ascending := true;
  }

  /** Data that was accepted under a checksum is refused under the same header once up to 4 consecutive
      of its bytes have changed. */
  lemma CorruptionIsRefused(h: Header, d: Data, e: Data, at: nat)
    requires d.Valid() && e.Valid() && h.checksum != 0 && Accepted(h, d)
    requires |d.bytes| == |e.bytes| && d.bytes != e.bytes && at + 4 <= |d.bytes|
    requires d.bytes[..at] == e.bytes[..at] && d.bytes[at + 4..] == e.bytes[at + 4..]
    ensures !Accepted(h, e)
  {
    Crc32.FourByteErrorIsDetected(d.bytes, e.bytes, at);
  }

  // ---------------------------------------------------------------- generated keyframes

  function GeneratedCount(duration: real): nat {
    if duration > 3.0 then 6 else if duration > 1.5 then 5 else 4
  }

  function Even(count: nat): seq<real>
    requires count >= 2
  {
    seq(count, i requires 0 <= i < count => i as real / (count - 1) as real)
  }

  function GeneratedTimes(count: nat, timing: Timing): seq<real>
    requires 4 <= count <= 6
  {
    match timing
    case EaseIn =>
      if count == 4 then [0.0, 0.15, 0.65, 1.0] else if count == 5 then [0.0, 0.1, 0.35, 0.75, 1.0]
      else [0.0, 0.08, 0.25, 0.55, 0.8, 1.0]
    case EaseOut =>
      if count == 4 then [0.0, 0.35, 0.85, 1.0] else if count == 5 then [0.0, 0.25, 0.65, 0.9, 1.0]
      else [0.0, 0.2, 0.45, 0.75, 0.92, 1.0]
    case EaseInOut =>
      if count == 4 then [0.0, 0.25, 0.75, 1.0] else if count == 5 then [0.0, 0.2, 0.5, 0.8, 1.0]
      else [0.0, 0.15, 0.35, 0.65, 0.85, 1.0]
    case _ => Even(count)
  }

  /** Four keyframes are generated, one more for a duration over one and a half seconds and one more over three. */
  lemma LongerHasMore(duration: real, timing: Timing)
    ensures var count := GeneratedCount(duration);
            && |GeneratedTimes(count, timing)| == count
            && (count >= 5 <==> 2.0 * duration > 3.0) && (count >= 6 <==> duration > 3.0) && 4 <= count <= 6
  {
    GeneratedTimesAreGood(GeneratedCount(duration), timing);
  }

  /** Every generated set of times would pass the validation of provided ones. */
  lemma GeneratedTimesAreGood(count: nat, timing: Timing)
    requires 4 <= count <= 6
    ensures |GeneratedTimes(count, timing)| == count && GoodTimes(GeneratedTimes(count, timing))
  {
    if timing == Linear || timing == Default {
      assert count == 4 || count == 5 || count == 6;
    }
  }

  /** Easing out is easing in run backwards; easing both ways, and the even spacing, is its own mirror image. */
  lemma GeneratedTimesMirror(count: nat, timing: Timing, i: nat)
    requires 4 <= count <= 6 && i < count
    ensures var mirrored := match timing case EaseIn => EaseOut case EaseOut => EaseIn case _ => timing;
            |GeneratedTimes(count, timing)| == |GeneratedTimes(count, mirrored)| == count
            && GeneratedTimes(count, timing)[i] == 1.0 - GeneratedTimes(count, mirrored)[count - 1 - i]
  {
    assert count == 4 || count == 5 || count == 6;
    if timing == Linear || timing == Default { EvenMirrors(count, i); }
  }

  lemma EvenMirrors(count: nat, i: nat)
    requires 2 <= count && i < count
    ensures Even(count)[i] == 1.0 - Even(count)[count - 1 - i]
  {
    var n := (count - 1) as real;
    assert i as real / n + (n - i as real) / n == 1.0;
  }

  /** How far an inner keyframe is moved off the straight line, as a share of the range. */
  function Bend(times: seq<real>, i: nat, timing: Timing): real
    requires i < |times|
  {
    match timing
    case EaseIn => if i == |times| - 2 then 0.08 else 0.0
    case EaseOut => if i == 1 then 0.12 else 0.0
    case EaseInOut => 0.06 * (1.0 - 2.0 * Abs(times[i] - 0.5))
    case _ => if |times| > 4 && i > 1 && i < |times| - 2 then 0.03 * (1.0 - 2.0 * Abs(times[i] - 0.5)) else 0.0
  }

  /** Where keyframe i lies between the start value (0) and the end value (1). */
  function Share(times: seq<real>, i: nat, timing: Timing): real
    requires i < |times|
  {
    if i == 0 then 0.0 else if i == |times| - 1 then 1.0 else times[i] + Bend(times, i, timing)
  }

  function Between(a: real, b: real, share: real): real {
    a + Times(b - a, share)
  }

  function GeneratedValues(times: seq<real>, from: real, to: real, timing: Timing): (values: seq<real>)
    ensures |values| == |times|
  {
    seq(|times|, i requires 0 <= i < |times| => Between(from, to, Share(times, i, timing)))
  }

  method GenerateValues(times: seq<real>, from: real, to: real, timing: Timing) returns (values: seq<real>)
    ensures values == GeneratedValues(times, from, to, timing)
  {
    var range := to - from;
    BetweenEnds(from, to);
    values := [];
    var i := 0;
    while i < |times|
      invariant 0 <= i <= |times| && |values| == i
      invariant forall j | 0 <= j < i :: values[j] == GeneratedValues(times, from, to, timing)[j]
    {
      var value;
      if i == 0 {
        value := from;
      } else if i == |times| - 1 {
        value := to;
      } else {
        value := InnerValue(times, i, from, range, timing);
      }
      values := values + [value];
      i := i + 1;
    }
  }

  /** An inner keyframe: the straight line, then the bend. */
  method InnerValue(times: seq<real>, i: nat, start: real, range: real, timing: Timing) returns (value: real)
    requires i < |times|
    ensures value == start + Times(range, times[i] + Bend(times, i, timing))
  {
    value := start + range * times[i];
    match timing {
      case EaseIn =>
        if i == |times| - 2 { value := value + range * 0.08; }
      case EaseOut =>
        if i == 1 { value := value + range * 0.12; }
      case EaseInOut =>
        var distance := Abs(times[i] - 0.5);
        value := value + range * 0.06 * (1.0 - 2.0 * distance);
      case _ =>
        if |times| > 4 && i > 1 && i < |times| - 2 {
          value := value + range * 0.03 * (1.0 - 2.0 * Abs(times[i] - 0.5));
        }
    }
    Regroup(start, range, times[i], Bend(times, i, timing));
  }

  lemma Regroup(from: real, range: real, time: real, bend: real)
    ensures from + range * time + range * bend == from + range * (time + bend)
  {}

  /** The values lie on the straight line except that easing in lifts the last inner one by 8% of the range, easing
      out the first by 12%, easing both ways each inner one by up to 6%, the more the nearer it is to the middle,
      and the others by up to 3% those inner ones that have two neighbours on each side. */
  lemma GeneratedValueAt(times: seq<real>, from: real, to: real, timing: Timing, i: nat)
    requires 0 < i && i + 1 < |times| && 0.0 <= times[i] <= 1.0
    ensures var n := |times|;
            var nearness := if times[i] <= 0.5 then 2.0 * times[i] else 2.0 - 2.0 * times[i];
            var lift := if timing == EaseIn then (if i == n - 2 then 0.08 else 0.0)
                        else if timing == EaseOut then (if i == 1 then 0.12 else 0.0)
                        else if timing == EaseInOut then 0.06 * nearness
                        else if 2 <= i <= n - 3 then 0.03 * nearness else 0.0;
            GeneratedValues(times, from, to, timing)[i] == from + Times(to - from, times[i] + lift)
  {
    assert Abs(times[i] - 0.5) == if times[i] <= 0.5 then 0.5 - times[i] else times[i] - 0.5;
  }

  predicate Ascending(values: seq<real>) {
    forall i | 1 <= i < |values| :: values[i - 1] <= values[i]
  }

  /** The bends never make generated keyframes turn back: with generated times they run from the start
      value to the end value in order. */
  lemma GeneratedValuesAscend(count: nat, from: real, to: real, timing: Timing)
    requires 4 <= count <= 6 && from <= to
    ensures var values := GeneratedValues(GeneratedTimes(count, timing), from, to, timing);
            Ascending(values) && values[0] == from && values[count - 1] == to
  {
    var times := GeneratedTimes(count, timing);
    GeneratedTimesAreGood(count, timing);
    forall i | 1 <= i < count ensures Share(times, i - 1, timing) <= Share(times, i, timing) {
      SharesAscend(count, timing, i);
    }
    SharesMakeValues(times, from, to, timing);
  }

  lemma SharesMakeValues(times: seq<real>, from: real, to: real, timing: Timing)
    requires |times| >= 2 && from <= to
    requires forall i | 1 <= i < |times| :: Share(times, i - 1, timing) <= Share(times, i, timing)
    ensures var values := GeneratedValues(times, from, to, timing);
            Ascending(values) && values[0] == from && values[|times| - 1] == to
  {
    var values := GeneratedValues(times, from, to, timing);
    BetweenEnds(from, to);
    forall i | 1 <= i < |times| ensures values[i - 1] <= values[i] {
      TimesAscends(to - from, Share(times, i - 1, timing), Share(times, i, timing));
    }
  }

  lemma SharesAscend(count: nat, timing: Timing, i: nat)
    requires 4 <= count <= 6 && 1 <= i < count
    ensures |GeneratedTimes(count, timing)| == count
    ensures Share(GeneratedTimes(count, timing), i - 1, timing) <= Share(GeneratedTimes(count, timing), i, timing)
  {
    if timing == Linear || timing == Default {
      assert count == 4 || count == 5 || count == 6;
    }
  }

  predicate InRange(value: real, from: real, to: real) {
    from <= value <= to || to <= value <= from
  }

  /** Where the bends leave room: ease-in bends the last inner keyframe, ease-out the first; the others bend
      less the nearer they are to an end. */
  predicate BendsFit(times: seq<real>, timing: Timing) {
    match timing
    case EaseIn => |times| < 3 || times[|times| - 2] <= 0.92
    case EaseOut => |times| < 3 || times[1] <= 0.88
    case _ => true
  }

  /** For any good times, provided or generated, the generated values stay between start and end value exactly
      when the two are equal or the bends fit, whichever way the range runs. */
  lemma ValuesStayInRangeExactly(times: seq<real>, from: real, to: real, timing: Timing)
    requires GoodTimes(times)
    ensures (forall i | 0 <= i < |times| :: InRange(GeneratedValues(times, from, to, timing)[i], from, to))
            <==> from == to || BendsFit(times, timing)
  {
    SharesFitExactly(times, timing);
    forall i | 0 <= i < |times|
      ensures InRange(GeneratedValues(times, from, to, timing)[i], from, to)
              <==> from == to || Share(times, i, timing) <= 1.0
    {
      ShareInRange(from, to, Share(times, i, timing));
    }
  }

  lemma SharesFitExactly(times: seq<real>, timing: Timing)
    requires GoodTimes(times)
    ensures forall i | 0 <= i < |times| :: Share(times, i, timing) >= 0.0
    ensures (forall i | 0 <= i < |times| :: Share(times, i, timing) <= 1.0) <==> BendsFit(times, timing)
  {
    forall i | 0 <= i < |times| ensures 0.0 <= times[i] <= 1.0 {
      TimesOrdered(times, 0, i);
      TimesOrdered(times, i, |times| - 1);
    }
    if |times| >= 3 {
      var first, last := Share(times, 1, timing), Share(times, |times| - 2, timing);
      assert timing == EaseIn ==> last == times[|times| - 2] + 0.08;
      assert timing == EaseOut ==> first == times[1] + 0.12;
    }
  }

  lemma ShareInRange(from: real, to: real, share: real)
    requires share >= 0.0
    ensures InRange(Between(from, to, share), from, to) <==> from == to || share <= 1.0
  {
    BetweenEnds(from, to);
    if share <= 1.0 {
      BetweenStays(from, to, share);
    } else if from < to {
      TimesGrows(to - from, 1.0, share);
    } else if to < from {
      TimesGrows(from - to, 1.0, share);
      Flip(from, to, share);
      Flip(from, to, 1.0);
    } else {
      assert Times(to - from, share) == 0.0;
    }
  }

  lemma TimesGrows(range: real, a: real, b: real)
    requires range > 0.0 && a < b
    ensures Times(range, a) < Times(range, b)
  {}

  // ---------------------------------------------------------------- the start value of provided keyframes

  function PowerOfTwo(k: int): real
    decreases if k < 0 then -k else k
  {
    if k == 0 then 1.0 else if k > 0 then 2.0 * PowerOfTwo(k - 1) else PowerOfTwo(k + 1) / 2.0
  }

  predicate IsFinite(w: word) {
    w / 0x80_0000 % 256 != 255
  }

  /** The single-precision number with these bits. */
  function FloatOf(w: word): real
    requires IsFinite(w)
  {
    var exponent, mantissa := w / 0x80_0000 % 256, w % 0x80_0000;
    var magnitude :=
      if exponent == 0 then mantissa as real * PowerOfTwo(-149)
      else (0x80_0000 + mantissa) as real * PowerOfTwo(exponent - 150);
    if w >= 0x8000_0000 then -magnitude else magnitude
  }

  const MAGIC_AS_FLOAT := 55875662249984.0

  /** The start value is the float in the header's first word: for accepted data, the magic number. */
  lemma MagicAsFloat()
    ensures IsFinite(MAGIC) && FloatOf(MAGIC) == MAGIC_AS_FLOAT
  {
    assert PowerOfTwo(11) == 2048.0;
    PowersMultiply(11, 11);
    assert PowerOfTwo(22) == 4194304.0;
    assert MAGIC / 0x80_0000 == 172 && MAGIC % 0x80_0000 == 0x4B_4644;
  }

  lemma {:induction false} PowersMultiply(a: nat, b: nat)
    ensures PowerOfTwo(a + b) == PowerOfTwo(a) * PowerOfTwo(b)
    decreases b
  {
    if b > 0 { PowersMultiply(a, b - 1); }
  }

  /** Accepted data that holds no floats gives its times to values generated from the magic number on: they
      overshoot exactly when the bends do not fit, whatever ordinary end value was asked for. */
  lemma ProvidedTimesOvershootExactly(h: Header, d: Data, to: real, timing: Timing)
    requires d.Valid() && Accepted(h, d) && d.kind != 0 && to != MAGIC_AS_FLOAT
    ensures IsFinite(h.magic)
    ensures var times, from := d.times[..d.count], FloatOf(h.magic);
            (forall i | 0 <= i < |times| :: InRange(GeneratedValues(times, from, to, timing)[i], from, to))
            <==> BendsFit(times, timing)
  {
    MagicAsFloat();
    ValuesStayInRangeExactly(d.times[..d.count], FloatOf(h.magic), to, timing);
  }

  lemma {:induction false} TimesOrdered(times: seq<real>, i: nat, j: nat)
    requires i <= j < |times| && forall k | 1 <= k < |times| :: times[k] - times[k - 1] > TIMING_EPSILON
    ensures times[i] <= times[j]
    ensures i < j ==> times[i] < times[j]
    decreases j
  {
    if i < j { TimesOrdered(times, i, j - 1); }
  }

  // ---------------------------------------------------------------- the curve

  predicate Within(times: seq<real>, i: nat, p: real)
    requires i + 1 < |times|
  {
    times[i] <= p <= times[i + 1]
  }

  /** The first segment holding the progress, or the first one. */
  function Segment(times: seq<real>, p: real): (s: nat)
    requires |times| >= 2
    ensures s + 1 < |times|
    ensures forall j | 0 <= j < s :: !Within(times, j, p)
    ensures Within(times, s, p) || (s == 0 && forall j | 0 <= j < |times| - 1 :: !Within(times, j, p))
  {
    var n := |times| - 1;
    if n == 1 then 0
    else
      var s := Segment(times[..n], p);
      assert forall j | 0 <= j < n - 1 :: Within(times[..n], j, p) == Within(times, j, p);
      if Within(times, s, p) || !Within(times, n - 1, p) then s else n - 1
  }

  lemma SegmentIs(times: seq<real>, p: real, s: nat)
    requires s + 1 < |times| && Within(times, s, p) && forall j | 0 <= j < s :: !Within(times, j, p)
    ensures Segment(times, p) == s
  {}

  /** Easing within a segment. */
  function Ease(x: real, timing: Timing): real {
    match timing
    case EaseIn => x * x * x
    case EaseOut => 1.0 - (1.0 - x) * (1.0 - x) * (1.0 - x)
    case EaseInOut => if x < 0.5 then 4.0 * x * x * x else 1.0 + 4.0 * (x - 1.0) * (x - 1.0) * (x - 1.0)
    case _ => x
  }

  /** applyEnhancedEasing, the same easing for whole animations. */
  function EnhancedEase(p: real, timing: Timing): real {
    match timing
    case EaseIn => p * p * p
    case EaseOut => var t := p - 1.0; 1.0 + t * t * t
    case EaseInOut => if p < 0.5 then 4.0 * p * p * p else var t := p - 1.0; 1.0 + 4.0 * t * t * t
    case _ => p
  }

  function Local(times: seq<real>, p: real): real
    requires |times| >= 2
  {
    var s := Segment(times, p);
    var length := times[s + 1] - times[s];
    if length > 0.0 then (p - times[s]) / length else 0.0
  }

  function Curve(times: seq<real>, values: seq<real>, timing: Timing, p: real): real
    requires 2 <= |times| <= |values|
  {
    var s := Segment(times, p);
    Between(values[s], values[s + 1], Ease(Local(times, p), timing))
  }

  function Clamp(p: real): real {
    if p < 0.0 then 0.0 else if p > 1.0 then 1.0 else p
  }

  method FindSegment(times: seq<real>, p: real) returns (current: int)
    requires |times| >= 2
    ensures current == Segment(times, p)
  {
    current := 0;
    var i := 0;
    while i < |times| - 1
      invariant 0 <= i <= |times| - 1 && current == 0
      invariant forall j | 0 <= j < i :: !Within(times, j, p)
    {
      if p >= times[i] && p <= times[i + 1] {
        SegmentIs(times, p, i);
        current := i;
        break;
      }
      i := i + 1;
    }
    if current >= |times| - 1 { current := |times| - 2; }
  }

  /** The times and values the animation runs on. */
  ghost function ChosenTimes(h: Header, d: Data, duration: real, timing: Timing): seq<real>
    requires d.Valid()
  {
    if Accepted(h, d) then d.times[..d.count] else GeneratedTimes(GeneratedCount(duration), timing)
  }

  ghost function ChosenValues(h: Header, d: Data, to: real, duration: real, timing: Timing): seq<real>
    requires d.Valid() && IsFinite(h.magic)
  {
    if Accepted(h, d) && d.kind == 0 then d.values
    else GeneratedValues(ChosenTimes(h, d, duration, timing), FloatOf(h.magic), to, timing)
  }

  /** Every choice of times is good, so progress always falls into a segment. */
  lemma ChosenTimesAreGood(h: Header, d: Data, duration: real, timing: Timing)
    requires d.Valid()
    ensures var times := ChosenTimes(h, d, duration, timing); GoodTimes(times) && 2 <= |times| <= MAX_KEYFRAMES
  {
    GeneratedTimesAreGood(GeneratedCount(duration), timing);
  }

  /** The value at a progress. */
  ghost function Animated(h: Header, d: Data, to: real, duration: real, timing: Timing, progress: real): real
    requires d.Valid() && IsFinite(h.magic)
  {
    ChosenTimesAreGood(h, d, duration, timing);
    Curve(ChosenTimes(h, d, duration, timing), ChosenValues(h, d, to, duration, timing), timing, Clamp(progress))
  }

  method GenerateTimes(count: nat, timing: Timing) returns (times: seq<real>)
    requires 4 <= count <= 6
    ensures times == GeneratedTimes(count, timing)
  {
    if timing == EaseIn {
      if count == 4 { times := [0.0, 0.15, 0.65, 1.0]; }
      else if count == 5 { times := [0.0, 0.1, 0.35, 0.75, 1.0]; }
      else { times := [0.0, 0.08, 0.25, 0.55, 0.8, 1.0]; }
      return;
    }
    if timing == EaseOut {
      if count == 4 { times := [0.0, 0.35, 0.85, 1.0]; }
      else if count == 5 { times := [0.0, 0.25, 0.65, 0.9, 1.0]; }
      else { times := [0.0, 0.2, 0.45, 0.75, 0.92, 1.0]; }
      return;
    }
    if timing == EaseInOut {
      if count == 4 { times := [0.0, 0.25, 0.75, 1.0]; }
      else if count == 5 { times := [0.0, 0.2, 0.5, 0.8, 1.0]; }
      else { times := [0.0, 0.15, 0.35, 0.65, 0.85, 1.0]; }
      return;
    }
    times := [];
    var i := 0;
    while i < count
      invariant 0 <= i <= count && |times| == i
      invariant forall j | 0 <= j < i :: times[j] == Even(count)[j]
    {
      times := times + [i as real / (count - 1) as real];
      i := i + 1;
    }
  }

  method ChooseTimes(h: Header, d: Data, memory: int -> real, duration: real, timing: Timing)
    returns (times: seq<real>, provided: bool)
    requires d.Valid()
    ensures times == ChosenTimes(h, d, duration, timing) && (provided <==> Accepted(h, d))
  {
    provided := Validate(h, d, memory);
    if provided {
      times := d.times[..d.count];
    } else {
      times := GenerateTimes(GeneratedCount(duration), timing);
    }
  }

  /** The value at a progress: segment, local progress, easing, interpolation. */
  method Evaluate(times: seq<real>, values: seq<real>, timing: Timing, p: real) returns (value: real)
    requires 2 <= |times| <= |values|
    ensures value == Curve(times, values, timing, p)
  {
    var current := FindSegment(times, p);
    var length := times[current + 1] - times[current];
    var local := if length > 0.0 then (p - times[current]) / length else 0.0;
    assert local == Local(times, p);
    var eased := Ease(local, timing);
    var range := values[current + 1] - values[current];
    assert range * eased == Times(range, eased);
    value := values[current] + range * eased;
  }

  /** interpolateKeyframeAnimation for a property held in one float. h and d are what lies where from_value
      points, so the start value is the float in the header's first word; to is the end value. Without both
      pointers there is no value. */
  method Interpolate(h: Header, d: Data, memory: int -> real, present: bool, to: real, duration: real,
                     timing: Timing, progress: real)
    returns (value: Option<real>)
    requires d.Valid() && IsFinite(h.magic)
    ensures value.Some? <==> present
    ensures present ==> value.value == Animated(h, d, to, duration, timing, progress)
  {
    ChosenTimesAreGood(h, d, duration, timing);
    if !present { return None; }
    var p := if progress < 0.0 then 0.0 else if progress > 1.0 then 1.0 else progress;
    var times, provided := ChooseTimes(h, d, memory, duration, timing);
    var values := d.values;
    if !(provided && d.kind == 0) { values := GenerateValues(times, FloatOf(h.magic), to, timing); }
    var v := Evaluate(times, values, timing, p);
    value := Some(v);
  }

  // ---------------------------------------------------------------- what the curve promises

  lemma CubeAscends(x: real, y: real)
    requires 0.0 <= x <= y
    ensures 0.0 <= x * x * x <= y * y * y
  {
    TimesLe(x, y, x, y);
    TimesLe(x * x, y * y, x, y);
  }

  function Cube(x: real): real {
    x * x * x
  }

  lemma FourCubes(x: real)
    ensures 4.0 * x * x * x == 4.0 * Cube(x)
  {}

  lemma NegativeCube(x: real)
    ensures Cube(x - 1.0) == -Cube(1.0 - x)
  {
    assert (x - 1.0) * (x - 1.0) == (1.0 - x) * (1.0 - x);
  }

  /** All easings in terms of one cube. */
  lemma EaseIsCube(x: real)
    ensures Ease(x, EaseIn) == Cube(x)
    ensures Ease(x, EaseOut) == 1.0 - Cube(1.0 - x)
    ensures Ease(x, EaseInOut) == if x < 0.5 then 4.0 * Cube(x) else 1.0 - 4.0 * Cube(1.0 - x)
  {
    NegativeCube(x);
    FourCubes(x);
    FourCubes(x - 1.0);
  }

  /** The two easing functions of the source agree. */
  lemma EasingsAgree(x: real, timing: Timing)
    ensures EnhancedEase(x, timing) == Ease(x, timing)
  {
    NegativeCube(x);
  }

  lemma CubeOf01(x: real)
    requires 0.0 <= x <= 1.0
    ensures 0.0 <= Cube(x) <= 1.0 && (x <= 0.5 ==> Cube(x) <= 0.125)
  {
    CubeAscends(x, 1.0);
    if x <= 0.5 { CubeAscends(x, 0.5); }
  }

  /** Eased progress stays in [0, 1] and meets the ends. */
  lemma EaseStaysInside(x: real, timing: Timing)
    requires 0.0 <= x <= 1.0
    ensures 0.0 <= Ease(x, timing) <= 1.0 && Ease(0.0, timing) == 0.0 && Ease(1.0, timing) == 1.0
  {
    EaseIsCube(x);
    CubeOf01(x);
    CubeOf01(1.0 - x);
  }

  lemma EaseAscends(x: real, y: real, timing: Timing)
    requires 0.0 <= x <= y <= 1.0
    ensures Ease(x, timing) <= Ease(y, timing)
  {
    EaseIsCube(x);
    EaseIsCube(y);
    CubeAscends(x, y);
    CubeAscends(1.0 - y, 1.0 - x);
    CubeOf01(x);
    CubeOf01(1.0 - y);
  }

  lemma SegmentHolds(times: seq<real>, p: real)
    requires GoodTimes(times) && 0.0 <= p <= 1.0
    ensures Within(times, Segment(times, p), p)
  {
    HoldsSomewhere(times, p, |times| - 1);
  }

  lemma {:induction false} HoldsSomewhere(times: seq<real>, p: real, n: nat)
    requires 1 <= n < |times| && times[0] <= p <= times[n]
    ensures exists j | 0 <= j < n :: Within(times, j, p)
    decreases n
  {
    if times[n - 1] <= p {
      assert Within(times, n - 1, p);
    } else {
      HoldsSomewhere(times, p, n - 1);
    }
  }

  lemma Fraction(x: real, length: real)
    requires 0.0 <= x <= length && length > 0.0
    ensures 0.0 <= x / length <= 1.0
  {}

  /** Progress within the segment stays in [0, 1]. */
  lemma LocalStaysInside(times: seq<real>, p: real)
    requires GoodTimes(times) && 0.0 <= p <= 1.0
    ensures 0.0 <= Local(times, p) <= 1.0
  {
    SegmentHolds(times, p);
    var s := Segment(times, p);
    assert times[s + 1] - times[s + 1 - 1] > TIMING_EPSILON;
    Fraction(p - times[s], times[s + 1] - times[s]);
  }

  lemma BetweenStays(a: real, b: real, share: real)
    requires 0.0 <= share <= 1.0
    ensures a <= b ==> a <= Between(a, b, share) <= b
    ensures b <= a ==> b <= Between(a, b, share) <= a
  {
    BetweenEnds(a, b);
    if a <= b {
      TimesAscends(b - a, 0.0, share);
      TimesAscends(b - a, share, 1.0);
    } else {
      TimesAscends(a - b, 0.0, share);
      TimesAscends(a - b, share, 1.0);
      Flip(a, b, share);
      Flip(a, b, 0.0);
      Flip(a, b, 1.0);
    }
  }

  lemma Flip(a: real, b: real, share: real)
    ensures Times(b - a, share) == -Times(a - b, share)
  {}

  /** The curve stays between the values at the two ends of its segment. */
  lemma CurveStaysBetween(times: seq<real>, values: seq<real>, timing: Timing, p: real)
    requires GoodTimes(times) && |times| <= |values| && 0.0 <= p <= 1.0
    ensures var s := Segment(times, p);
            && times[s] <= p <= times[s + 1]
            && var v := Curve(times, values, timing, p); values[s] <= v <= values[s + 1] || values[s + 1] <= v <= values[s]
  {
    SegmentHolds(times, p);
    LocalStaysInside(times, p);
    EaseStaysInside(Local(times, p), timing);
    BetweenStays(values[Segment(times, p)], values[Segment(times, p) + 1], Ease(Local(times, p), timing));
  }

  /** At the time of a keyframe the curve has its value. */
  lemma CurveMeetsKeyframes(times: seq<real>, values: seq<real>, timing: Timing, i: nat)
    requires GoodTimes(times) && i < |times| <= |values|
    ensures Curve(times, values, timing, times[i]) == values[i]
  {
    SegmentAtKeyframe(times, i);
    EaseStaysInside(0.0, timing);
    BetweenEnds(values[Segment(times, times[i])], values[Segment(times, times[i]) + 1]);
  }

  /** A keyframe's time is found in the segment it ends, the first one in the segment it starts. */
  lemma SegmentAtKeyframe(times: seq<real>, i: nat)
    requires GoodTimes(times) && i < |times|
    ensures Segment(times, times[i]) == if i == 0 then 0 else i - 1
    ensures Local(times, times[i]) == if i == 0 then 0.0 else 1.0
  {
    var s := if i == 0 then 0 else i - 1;
    TimesOrdered(times, s, s + 1);
    forall j | 0 <= j < s ensures !Within(times, j, times[i]) { TimesOrdered(times, j + 1, i); }
    SegmentIs(times, times[i], s);
    WholeFraction(times[s + 1] - times[s]);
  }

  lemma WholeFraction(length: real)
    requires length > 0.0
    ensures 0.0 / length == 0.0 && length / length == 1.0
  {}

  lemma BetweenEnds(a: real, b: real)
    ensures Between(a, b, 0.0) == a && Between(a, b, 1.0) == b
  {}

  /** What share of a segment's range is covered after a share x of its time: x itself for linear timing, the cube of
      x when easing in, all but the cube of what is left when easing out, four of those cubes in the two halves when
      doing both. */
  function Covered(x: real, timing: Timing): real {
    var left := 1.0 - x;
    match timing
    case Linear | Default => x
    case EaseIn => x * x * x
    case EaseOut => 1.0 - left * left * left
    case EaseInOut => if x < 0.5 then 4.0 * (x * x * x) else 1.0 - 4.0 * (left * left * left)
  }

  /** The timing law: so far has the curve come after any share of any segment's time. */
  lemma CurveFollowsTiming(times: seq<real>, values: seq<real>, timing: Timing, s: nat, x: real, p: real)
    requires GoodTimes(times) && |times| <= |values| && s + 1 < |times|
    requires 0.0 <= x <= 1.0 && p == times[s] + Times(x, times[s + 1] - times[s])
    ensures Curve(times, values, timing, p) == values[s] + Times(values[s + 1] - values[s], Covered(x, timing))
  {
    if x == 0.0 {
      CurveMeetsKeyframes(times, values, timing, s);
      NothingCovered(times[s + 1] - times[s], values[s + 1] - values[s], timing);
    } else {
      TimesOrdered(times, s, s + 1);
      ShareOfLength(x, times[s + 1] - times[s], p - times[s]);
      LocalInSegment(times, s, x, p, p - times[s]);
      EaseInClosedForm(x, timing);
    }
    hide Covered, Ease, Times, Local, Segment, GoodTimes;
  }

  lemma NothingCovered(length: real, range: real, timing: Timing)
    ensures Times(0.0, length) == 0.0 && Times(range, Covered(0.0, timing)) == 0.0
  {
    assert Covered(0.0, timing) == 0.0;
  }

  /** Inside a segment the search finds it, and local progress is the share of its time. */
  lemma LocalInSegment(times: seq<real>, s: nat, x: real, p: real, passed: real)
    requires GoodTimes(times) && s + 1 < |times| && p == times[s] + passed
    requires 0.0 < passed <= times[s + 1] - times[s] && passed / (times[s + 1] - times[s]) == x
    ensures Segment(times, p) == s && Local(times, p) == x
  {
    FirstToHold(times, s, p);
  }

  lemma FirstToHold(times: seq<real>, s: nat, p: real)
    requires GoodTimes(times) && s + 1 < |times| && times[s] < p <= times[s + 1]
    ensures Segment(times, p) == s
  {
    forall j | 0 <= j < s ensures !Within(times, j, p) {
      TimesOrdered(times, j + 1, s);
      assert times[j + 1] <= times[s];
    }
    SegmentIs(times, p, s);
  }

  lemma ShareOfLength(x: real, length: real, passed: real)
    requires 0.0 < x <= 1.0 && length > 0.0 && passed == Times(x, length)
    ensures 0.0 < passed <= length && passed / length == x
  {}

  lemma EaseInClosedForm(x: real, timing: Timing)
    ensures Ease(x, timing) == Covered(x, timing)
  {
    EaseIsCube(x);
    FourTimes(x);
    FourLeft(x);
  }

  lemma FourTimes(x: real)
    ensures 4.0 * x * x * x == 4.0 * (x * x * x)
  {}

  lemma FourLeft(x: real)
    ensures 4.0 * (x - 1.0) * (x - 1.0) * (x - 1.0) == -4.0 * ((1.0 - x) * (1.0 - x) * (1.0 - x))
  {}

  /** Where the values never fall, neither does the curve. */
  lemma CurveAscends(times: seq<real>, values: seq<real>, timing: Timing, p: real, q: real)
    requires GoodTimes(times) && |times| <= |values| && Ascending(values[..|times|]) && 0.0 <= p <= q <= 1.0
    ensures Curve(times, values, timing, p) <= Curve(times, values, timing, q)
  {
    var s, t := Segment(times, p), Segment(times, q);
    CurveStaysBetween(times, values, timing, p);
    CurveStaysBetween(times, values, timing, q);
    AscendingSteps(values, |times|, s);
    AscendingSteps(values, |times|, t);
    SegmentsInOrder(times, p, q);
    if s < t {
      ValuesOrdered(values, |times|, s + 1, t);
    } else {
      SameSegmentAscends(times, values, timing, p, q);
    }
  }

  lemma AscendingSteps(values: seq<real>, n: nat, s: nat)
    requires s + 1 < n <= |values| && Ascending(values[..n])
    ensures values[s] <= values[s + 1]
  {
    assert values[..n][s + 1 - 1] <= values[..n][s + 1];
  }

  lemma {:induction false} ValuesOrdered(values: seq<real>, n: nat, i: nat, j: nat)
    requires i <= j < n <= |values| && Ascending(values[..n])
    ensures values[i] <= values[j]
    decreases j
  {
    if i < j {
      ValuesOrdered(values, n, i, j - 1);
      AscendingSteps(values, n, j - 1);
    }
  }

  lemma SegmentsInOrder(times: seq<real>, p: real, q: real)
    requires GoodTimes(times) && 0.0 <= p <= q <= 1.0
    ensures Segment(times, p) <= Segment(times, q)
  {
    var s, t := Segment(times, p), Segment(times, q);
    SegmentHolds(times, p);
    SegmentHolds(times, q);
    if t < s {
      TimesOrdered(times, t + 1, s);
      TimesOrdered(times, t, t + 1);
    }
    assert t < s ==> Within(times, t, p);
  }

  lemma SameSegmentAscends(times: seq<real>, values: seq<real>, timing: Timing, p: real, q: real)
    requires GoodTimes(times) && |times| <= |values| && 0.0 <= p <= q <= 1.0
    requires Segment(times, p) == Segment(times, q)
    requires values[Segment(times, p)] <= values[Segment(times, p) + 1]
    ensures Curve(times, values, timing, p) <= Curve(times, values, timing, q)
  {
    LocalStaysInside(times, p);
    LocalStaysInside(times, q);
    LocalAscends(times, p, q);
    EaseAscends(Local(times, p), Local(times, q), timing);
    var s := Segment(times, p);
    TimesAscends(values[s + 1] - values[s], Ease(Local(times, p), timing), Ease(Local(times, q), timing));
  }

  lemma LocalAscends(times: seq<real>, p: real, q: real)
    requires |times| >= 2 && p <= q && Segment(times, p) == Segment(times, q)
    ensures Local(times, p) <= Local(times, q)
  {
    var s := Segment(times, p);
    if times[s + 1] - times[s] > 0.0 { FractionAscends(p - times[s], q - times[s], times[s + 1] - times[s]); }
  }

  lemma FractionAscends(x: real, y: real, length: real)
    requires x <= y && length > 0.0
    ensures x / length <= y / length
  {}

  ghost function GeneratedCurve(from: real, to: real, duration: real, timing: Timing, p: real): real {
    var times := GeneratedTimes(GeneratedCount(duration), timing);
    GeneratedTimesAreGood(GeneratedCount(duration), timing);
    Curve(times, GeneratedValues(times, from, to, timing), timing, p)
  }

  /** A generated animation starts at the start value, never turns back and ends at the end value, for every
      duration and timing function. */
  lemma GeneratedAnimationRises(from: real, to: real, duration: real, timing: Timing, p: real, q: real)
    requires from <= to && 0.0 <= p <= q <= 1.0
    ensures from == GeneratedCurve(from, to, duration, timing, 0.0)
    ensures GeneratedCurve(from, to, duration, timing, 1.0) == to
    ensures from <= GeneratedCurve(from, to, duration, timing, p)
                 <= GeneratedCurve(from, to, duration, timing, q) <= to
  {
    var count := GeneratedCount(duration);
    var times := GeneratedTimes(count, timing);
    var values := GeneratedValues(times, from, to, timing);
    GeneratedTimesAreGood(count, timing);
    GeneratedValuesAscend(count, from, to, timing);
    CurveMeetsKeyframes(times, values, timing, 0);
    CurveMeetsKeyframes(times, values, timing, count - 1);
    assert values[..count] == values;
    CurveAscends(times, values, timing, 0.0, p);
    CurveAscends(times, values, timing, p, q);
    CurveAscends(times, values, timing, q, 1.0);
  }

  // ---------------------------------------------------------------- which curve an animation follows

  /** Accepted keyframes are what the animation follows: at the time of each it has that keyframe's value, the one
      provided when the values are floats, the generated one otherwise. */
  lemma ProvidedIsFollowed(h: Header, d: Data, to: real, duration: real, timing: Timing, i: nat)
    requires d.Valid() && Accepted(h, d) && i < d.count
    ensures IsFinite(h.magic)
    ensures Animated(h, d, to, duration, timing, d.times[i])
            == if d.kind == 0 then d.values[i]
               else GeneratedValues(d.times[..d.count], MAGIC_AS_FLOAT, to, timing)[i]
  {
    MagicAsFloat();
    var times := d.times[..d.count];
    TimesOrdered(times, 0, i);
    TimesOrdered(times, i, d.count - 1);
    CurveMeetsKeyframes(times, ChosenValues(h, d, to, duration, timing), timing, i);
    hide FloatOf, IsFinite, Curve, GoodTimes;
  }

  /** Refused ones are not looked at: whatever they say, the animation follows generated keyframes. */
  lemma RefusedIsGenerated(h: Header, d: Data, to: real, duration: real, timing: Timing, progress: real)
    requires d.Valid() && IsFinite(h.magic) && !Accepted(h, d) && 0.0 <= progress <= 1.0
    ensures Animated(h, d, to, duration, timing, progress)
            == GeneratedCurve(FloatOf(h.magic), to, duration, timing, progress)
  {
    hide FloatOf, IsFinite, Curve, Accepted;
  }

  /** Progress outside the unit interval counts as its nearer end; there the animation has its first and last value:
      those provided, or the start and the end value. */
  lemma AnimationEnds(h: Header, d: Data, to: real, duration: real, timing: Timing, progress: real)
    requires d.Valid() && IsFinite(h.magic) && (progress <= 0.0 || progress >= 1.0)
    ensures var provided := Accepted(h, d) && d.kind == 0;
            Animated(h, d, to, duration, timing, progress)
            == if progress <= 0.0 then (if provided then d.values[0] else FloatOf(h.magic))
               else if provided then d.values[d.count - 1] else to
  {
    ChosenTimesAreGood(h, d, duration, timing);
    var times, values := ChosenTimes(h, d, duration, timing), ChosenValues(h, d, to, duration, timing);
    BetweenEnds(FloatOf(h.magic), to);
    CurveMeetsKeyframes(times, values, timing, if progress <= 0.0 then 0 else |times| - 1);
    hide FloatOf, IsFinite, Curve, GeneratedTimes;
  }
}
