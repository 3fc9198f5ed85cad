/** CRC-32 of keyframe data (FB/VMCoreAnimationAccelerator.cpp:1076-1124).

    The program runs a 256-entry table over 32-bit words.  The reference below works on a
    32-bit shift register one message bit at a time, least significant bit of each byte
    first, with the reflected IEEE 802.3 polynomial, as section 8 of RFC 1952 describes it. */
module Crc32 {

  // ---------------------------------------------------------------- words as lists of bits

  predicate Bit(w: bv32, i: nat)
    decreases i
  {
    if i == 0 then w & 1 == 1 else Bit(w >> 1, i - 1)
  }

  type Register = b: seq<bool> | |b| == 32 witness seq(32, i => false)

  /** The bits of a word, least significant first. */
  function Bits(w: bv32): Register {
    seq(32, i requires 0 <= i < 32 => Bit(w, i))
  }

  function Zeros(n: nat): (z: seq<bool>)
    ensures |z| == n
  {
    seq(n, i => false)
  }

  function Xor(a: seq<bool>, b: seq<bool>): (r: seq<bool>)
    requires |a| == |b|
    ensures |r| == |a|
  {
    seq(|a|, i requires 0 <= i < |a| => a[i] != b[i])
  }

  // ---------------------------------------------------------------- one message bit at a time

  /** The reflected form of the polynomial 0x04C11DB7. */
  const POLYNOMIAL: bv32 := 0xEDB88320

  function Ones(): Register {
    seq(32, i => true)
  }

  /** Multiply the register by x modulo the polynomial. */
  function Step(c: Register): Register {
    var shifted := c[1..] + [false];
    if c[0] then Xor(shifted, Bits(POLYNOMIAL)) else shifted
  }

  function Steps(c: Register, n: nat): Register
    decreases n
  {
    if n == 0 then c else Steps(Step(c), n - 1)
  }

  /** Long division: bring in one message bit, then reduce. */
  function Divide(c: Register, bits: seq<bool>): Register
    decreases |bits|
  {
    if bits == [] then c else Divide(Step(c[0 := c[0] != bits[0]]), bits[1..])
  }

  function ByteBits(b: bv8): (r: seq<bool>)
    ensures |r| == 8
  {
    Bits(b as bv32)[..8]
  }

  function MessageBits(data: seq<bv8>): (r: seq<bool>)
    ensures |r| == 8 * |data|
  {
    if data == [] then [] else MessageBits(data[..|data| - 1]) + ByteBits(data[|data| - 1])
  }

  /** The CRC: all-ones start, division by the polynomial, final complement. */
  function Crc(data: seq<bv8>): Register {
    Xor(Divide(Ones(), MessageBits(data)), Ones())
  }

  // ---------------------------------------------------------------- one byte at a time

  ghost predicate IsTable(t: seq<seq<bv32>>) {
    |t| == 32 && forall r: nat | r < 32 :: |t[r]| == 8
  }

  type Table = t: seq<seq<bv32>> | IsTable(t) ghost witness seq(32, r => seq(8, j => 0))

  /** The program's table, eight entries to a row as it is laid out in the source. */
  const CRC_TABLE: seq<seq<bv32>> := [
    [0x00000000, 0x77073096, 0xEE0E612C, 0x990951BA, 0x076DC419, 0x706AF48F, 0xE963A535, 0x9E6495A3],
    [0x0EDB8832, 0x79DCB8A4, 0xE0D5E91E, 0x97D2D988, 0x09B64C2B, 0x7EB17CBD, 0xE7B82D07, 0x90BF1D91],
    [0x1DB71064, 0x6AB020F2, 0xF3B97148, 0x84BE41DE, 0x1ADAD47D, 0x6DDDE4EB, 0xF4D4B551, 0x83D385C7],
    [0x136C9856, 0x646BA8C0, 0xFD62F97A, 0x8A65C9EC, 0x14015C4F, 0x63066CD9, 0xFA0F3D63, 0x8D080DF5],
    [0x3B6E20C8, 0x4C69105E, 0xD56041E4, 0xA2677172, 0x3C03E4D1, 0x4B04D447, 0xD20D85FD, 0xA50AB56B],
    [0x35B5A8FA, 0x42B2986C, 0xDBBBC9D6, 0xACBCF940, 0x32D86CE3, 0x45DF5C75, 0xDCD60DCF, 0xABD13D59],
    [0x26D930AC, 0x51DE003A, 0xC8D75180, 0xBFD06116, 0x21B4F4B5, 0x56B3C423, 0xCFBA9599, 0xB8BDA50F],
    [0x2802B89E, 0x5F058808, 0xC60CD9B2, 0xB10BE924, 0x2F6F7C87, 0x58684C11, 0xC1611DAB, 0xB6662D3D],
    [0x76DC4190, 0x01DB7106, 0x98D220BC, 0xEFD5102A, 0x71B18589, 0x06B6B51F, 0x9FBFE4A5, 0xE8B8D433],
    [0x7807C9A2, 0x0F00F934, 0x9609A88E, 0xE10E9818, 0x7F6A0DBB, 0x086D3D2D, 0x91646C97, 0xE6635C01],
    [0x6B6B51F4, 0x1C6C6162, 0x856530D8, 0xF262004E, 0x6C0695ED, 0x1B01A57B, 0x8208F4C1, 0xF50FC457],
    [0x65B0D9C6, 0x12B7E950, 0x8BBEB8EA, 0xFCB9887C, 0x62DD1DDF, 0x15DA2D49, 0x8CD37CF3, 0xFBD44C65],
    [0x4DB26158, 0x3AB551CE, 0xA3BC0074, 0xD4BB30E2, 0x4ADFA541, 0x3DD895D7, 0xA4D1C46D, 0xD3D6F4FB],
    [0x4369E96A, 0x346ED9FC, 0xAD678846, 0xDA60B8D0, 0x44042D73, 0x33031DE5, 0xAA0A4C5F, 0xDD0D7CC9],
    [0x5005713C, 0x270241AA, 0xBE0B1010, 0xC90C2086, 0x5768B525, 0x206F85B3, 0xB966D409, 0xCE61E49F],
    [0x5EDEF90E, 0x29D9C998, 0xB0D09822, 0xC7D7A8B4, 0x59B33D17, 0x2EB40D81, 0xB7BD5C3B, 0xC0BA6CAD],
    [0xEDB88320, 0x9ABFB3B6, 0x03B6E20C, 0x74B1D29A, 0xEAD54739, 0x9DD277AF, 0x04DB2615, 0x73DC1683],
    [0xE3630B12, 0x94643B84, 0x0D6D6A3E, 0x7A6A5AA8, 0xE40ECF0B, 0x9309FF9D, 0x0A00AE27, 0x7D079EB1],
    [0xF00F9344, 0x8708A3D2, 0x1E01F268, 0x6906C2FE, 0xF762575D, 0x806567CB, 0x196C3671, 0x6E6B06E7],
    [0xFED41B76, 0x89D32BE0, 0x10DA7A5A, 0x67DD4ACC, 0xF9B9DF6F, 0x8EBEEFF9, 0x17B7BE43, 0x60B08ED5],
    [0xD6D6A3E8, 0xA1D1937E, 0x38D8C2C4, 0x4FDFF252, 0xD1BB67F1, 0xA6BC5767, 0x3FB506DD, 0x48B2364B],
    [0xD80D2BDA, 0xAF0A1B4C, 0x36034AF6, 0x41047A60, 0xDF60EFC3, 0xA867DF55, 0x316E8EEF, 0x4669BE79],
    [0xCB61B38C, 0xBC66831A, 0x256FD2A0, 0x5268E236, 0xCC0C7795, 0xBB0B4703, 0x220216B9, 0x5505262F],
    [0xC5BA3BBE, 0xB2BD0B28, 0x2BB45A92, 0x5CB36A04, 0xC2D7FFA7, 0xB5D0CF31, 0x2CD99E8B, 0x5BDEAE1D],
    [0x9B64C2B0, 0xEC63F226, 0x756AA39C, 0x026D930A, 0x9C0906A9, 0xEB0E363F, 0x72076785, 0x05005713],
    [0x95BF4A82, 0xE2B87A14, 0x7BB12BAE, 0x0CB61B38, 0x92D28E9B, 0xE5D5BE0D, 0x7CDCEFB7, 0x0BDBDF21],
    [0x86D3D2D4, 0xF1D4E242, 0x68DDB3F8, 0x1FDA836E, 0x81BE16CD, 0xF6B9265B, 0x6FB077E1, 0x18B74777],
    [0x88085AE6, 0xFF0F6A70, 0x66063BCA, 0x11010B5C, 0x8F659EFF, 0xF862AE69, 0x616BFFD3, 0x166CCF45],
    [0xA00AE278, 0xD70DD2EE, 0x4E048354, 0x3903B3C2, 0xA7672661, 0xD06016F7, 0x4969474D, 0x3E6E77DB],
    [0xAED16A4A, 0xD9D65ADC, 0x40DF0B66, 0x37D83BF0, 0xA9BCAE53, 0xDEBB9EC5, 0x47B2CF7F, 0x30B5FFE9],
    [0xBDBDF21C, 0xCABAC28A, 0x53B39330, 0x24B4A3A6, 0xBAD03605, 0xCDD70693, 0x54DE5729, 0x23D967BF],
    [0xB3667A2E, 0xC4614AB8, 0x5D681B02, 0x2A6F2B94, 0xB40BBE37, 0xC30C8EA1, 0x5A05DF1B, 0x2D02EF8D]
  ]

  function Entry(table: Table, index: bv8): bv32 {
    table[(index >> 3) as int][(index & 7) as int]
  }

  /** The table index of a round: the low byte of the register with the message byte. */
  function Index(crc: bv32, b: bv8): bv8 {
    ((crc ^ (b as bv32)) & 0xFF) as bv8
  }

  /** The register after a round: the low byte shifted out, the table entry brought in. */
  function NextWord(crc: bv32, entry: bv32): bv32 {
    (crc >> 8) ^ entry
  }

  method LookUp(index: bv8) returns (entry: bv32)
    ensures Bits(entry) == Steps(Bits(index as bv32), 8)
  {
    TableHasShape();
    EntryDivides(index);
    entry := Entry(CRC_TABLE, index);
  }

  method CalculateCrc32(data: seq<bv8>) returns (crc: bv32)
    ensures Bits(crc) == Crc(data)
  {
    crc := 0xFFFFFFFF;
    BitsOfOnes();
    var i := 0;
    while i < |data|
      invariant 0 <= i <= |data|
      invariant Bits(crc) == Divide(Ones(), MessageBits(data[..i]))
    {
      var entry := LookUp(Index(crc, data[i]));
      NextWordDivides(crc, data[i], entry);
      crc := NextWord(crc, entry);
      assert data[..i + 1][..i] == data[..i];
      DivideAppend(Ones(), MessageBits(data[..i]), ByteBits(data[i]));
      i := i + 1;
    }
    assert data[..i] == data;
    BitsXor(crc, 0xFFFFFFFF, crc ^ 0xFFFFFFFF);
    return crc ^ 0xFFFFFFFF;
  }

  // ---------------------------------------------------------------- theorems

  /** Any error burst of at most 32 bits changes the remainder, whatever the register held. */
  lemma BurstChangesRemainder(c: Register, a: seq<bool>, b: seq<bool>, at: nat)
    requires |a| == |b| && a != b
    requires forall i | 0 <= i < |a| && (i < at || at + 32 <= i) :: a[i] == b[i]
    ensures Divide(c, a) != Divide(c, b)
  {
    var lo := if at < |a| then at else |a|;
    var hi := if at + 32 < |a| then at + 32 else |a|;
    assert a == a[..lo] + (a[lo..hi] + a[hi..]);
    assert b == b[..lo] + (b[lo..hi] + b[hi..]);
    assert a[..lo] == b[..lo] && a[hi..] == b[hi..];
    DivideAppend(c, a[..lo], a[lo..hi] + a[hi..]);
    DivideAppend(c, b[..lo], b[lo..hi] + b[hi..]);
    var d := Divide(c, a[..lo]);
    DivideAppend(d, a[lo..hi], a[hi..]);
    DivideAppend(d, b[lo..hi], b[hi..]);
    if Divide(c, a) == Divide(c, b) {
      DivideInjective(Divide(d, a[lo..hi]), Divide(d, b[lo..hi]), a[hi..]);
      WindowDecodes(d, a[lo..hi], b[lo..hi]);
      assert false;
    }
  }

  /** Two messages of one length that differ only inside four consecutive bytes have different CRCs. */
  lemma FourByteErrorIsDetected(a: seq<bv8>, b: seq<bv8>, at: nat)
    requires |a| == |b| && a != b
    requires forall i | 0 <= i < |a| && (i < at || at + 4 <= i) :: a[i] == b[i]
    ensures Crc(a) != Crc(b)
  {
    var x, y := MessageBits(a), MessageBits(b);
    forall i | 0 <= i < |x| && (i < 8 * at || 8 * at + 32 <= i) ensures x[i] == y[i] {
      var k := i / 8;
      MessageByteAt(a, k);
      MessageByteAt(b, k);
      assert x[i] == x[8 * k..8 * k + 8][i - 8 * k];
      assert y[i] == y[8 * k..8 * k + 8][i - 8 * k];
    }
    if x == y { MessageBitsInjective(a, b); }
    BurstChangesRemainder(Ones(), x, y, 8 * at);
    var p, q := Divide(Ones(), x), Divide(Ones(), y);
    if Crc(a) == Crc(b) {
      forall i | 0 <= i < 32 ensures p[i] == q[i] { assert Crc(a)[i] == Crc(b)[i]; }
    }
  }

  /** Feeding a message followed by its own CRC always leaves the same residue, the known one of this CRC. */
  lemma OwnCrcLeavesResidue(data: seq<bv8>)
    ensures Divide(Ones(), MessageBits(data) + Crc(data)) == Bits(0xDEBB20E3)
  {
    ResidueIs();
    var p := Divide(Ones(), MessageBits(data));
    DivideAppend(Ones(), MessageBits(data), Crc(data));
    Collect(p, Crc(data));
    assert Xor(p, Crc(data) + Zeros(0)) == Ones();
  }

  // ---------------------------------------------------------------- the shift register

  /** High bits move down past a step unchanged. */
  lemma StepMovesHighBits(c: Register, h: seq<bool>)
    requires |h| == 31
    ensures Step(Xor(c, [false] + h)) == Xor(Step(c), h + [false])
  {}

  lemma {:induction false} StepsMoveHighBits(c: Register, h: seq<bool>, n: nat)
    requires n + |h| == 32
    ensures Steps(Xor(c, Zeros(n) + h), n) == Xor(Steps(c, n), h + Zeros(n))
    decreases n
  {
    if n == 0 {
      assert Zeros(0) + h == h + Zeros(0);
    } else {
      assert Zeros(n) + h == [false] + (Zeros(n - 1) + h);
      StepMovesHighBits(c, Zeros(n - 1) + h);
      assert (Zeros(n - 1) + h) + [false] == Zeros(n - 1) + (h + [false]);
      StepsMoveHighBits(Step(c), h + [false], n - 1);
      assert (h + [false]) + Zeros(n - 1) == h + Zeros(n);
    }
  }

  /** The polynomial's top bit is set, so a step can be undone. */
  lemma StepInjective(c: Register, d: Register)
    requires Step(c) == Step(d)
    ensures c == d
  {
    TopBitOfPolynomial();
    assert Step(c)[31] == c[0] && Step(d)[31] == d[0];
    forall i | 1 <= i < 32 ensures c[i] == d[i] {
      assert Step(c)[i - 1] == Step(d)[i - 1];
    }
  }

  lemma {:induction false} StepsInjective(c: Register, d: Register, n: nat)
    requires Steps(c, n) == Steps(d, n)
    ensures c == d
    decreases n
  {
    if n > 0 {
      StepsInjective(Step(c), Step(d), n - 1);
      StepInjective(c, d);
    }
  }

  lemma {:induction false} DivideInjective(c: Register, d: Register, bits: seq<bool>)
    requires Divide(c, bits) == Divide(d, bits)
    ensures c == d
    decreases |bits|
  {
    if bits != [] {
      var c', d' := c[0 := c[0] != bits[0]], d[0 := d[0] != bits[0]];
      DivideInjective(Step(c'), Step(d'), bits[1..]);
      StepInjective(c', d');
      forall i | 0 <= i < 32 ensures c[i] == d[i] { assert c'[i] == d'[i]; }
    }
  }

  lemma {:induction false} DivideAppend(c: Register, a: seq<bool>, b: seq<bool>)
    ensures Divide(c, a + b) == Divide(Divide(c, a), b)
    decreases |a|
  {
    if a == [] {
      assert a + b == b;
    } else {
      assert (a + b)[1..] == a[1..] + b;
      DivideAppend(Step(c[0 := c[0] != a[0]]), a[1..], b);
    }
  }

  /** Up to 32 message bits can be brought in at once. */
  lemma {:induction false} Collect(c: Register, bits: seq<bool>)
    requires |bits| <= 32
    ensures Divide(c, bits) == Steps(Xor(c, bits + Zeros(32 - |bits|)), |bits|)
    decreases |bits|
  {
    hide Step;
    if bits == [] {
      assert Xor(c, bits + Zeros(32)) == c;
    } else {
      var c' := c[0 := c[0] != bits[0]];
      var h := bits[1..] + Zeros(32 - |bits|);
      Collect(Step(c'), bits[1..]);
      StepMovesHighBits(c', h);
      assert Xor(c', [false] + h) == Xor(c, bits + Zeros(32 - |bits|));
      assert h + [false] == bits[1..] + Zeros(32 - |bits[1..]|);
    }
  }

  lemma WindowDecodes(c: Register, a: seq<bool>, b: seq<bool>)
    requires |a| == |b| <= 32
    requires Divide(c, a) == Divide(c, b)
    ensures a == b
  {
    Collect(c, a);
    Collect(c, b);
    var x, y := Xor(c, a + Zeros(32 - |a|)), Xor(c, b + Zeros(32 - |b|));
    StepsInjective(x, y, |a|);
    forall i | 0 <= i < |a| ensures a[i] == b[i] { assert x[i] == y[i]; }
  }

  lemma {:induction false} MessageByteAt(data: seq<bv8>, k: nat)
    requires k < |data|
    ensures MessageBits(data)[8 * k..8 * k + 8] == ByteBits(data[k])
  {
    var n := |data| - 1;
    if k < n {
      MessageByteAt(data[..n], k);
      assert MessageBits(data)[8 * k..8 * k + 8] == MessageBits(data[..n])[8 * k..8 * k + 8];
    }
  }

  lemma MessageBitsInjective(a: seq<bv8>, b: seq<bv8>)
    requires |a| == |b|
    requires MessageBits(a) == MessageBits(b)
    ensures a == b
  {
    forall k | 0 <= k < |a| ensures a[k] == b[k] {
      MessageByteAt(a, k);
      MessageByteAt(b, k);
      ByteBitsInjective(a[k], b[k]);
    }
  }

  // ---------------------------------------------------------------- words against registers

  lemma XorShift(x: bv32, y: bv32, z: bv32)
    requires z == x ^ y
    ensures z >> 1 == (x >> 1) ^ (y >> 1)
  {}

  lemma XorLowBit(x: bv32, y: bv32, z: bv32)
    requires z == x ^ y
    ensures Bit(z, 0) == (Bit(x, 0) != Bit(y, 0))
  {}

  lemma XorNextBit(x: bv32, y: bv32, z: bv32, i: nat)
    requires i > 0 && Bit(z >> 1, i - 1) == (Bit(x >> 1, i - 1) != Bit(y >> 1, i - 1))
    ensures Bit(z, i) == (Bit(x, i) != Bit(y, i))
  {}

  lemma {:induction false} BitXor(x: bv32, y: bv32, z: bv32, i: nat)
    requires z == x ^ y
    ensures Bit(z, i) == (Bit(x, i) != Bit(y, i))
    decreases i
  {
    if i == 0 {
      XorLowBit(x, y, z);
    } else {
      XorShift(x, y, z);
      BitXor(x >> 1, y >> 1, z >> 1, i - 1);
      XorNextBit(x, y, z, i);
    }
  }

  lemma BitsXor(x: bv32, y: bv32, z: bv32)
    requires z == x ^ y
    ensures Bits(z) == Xor(Bits(x), Bits(y))
  {
    forall i: nat | i < 32 ensures Bit(z, i) == (Bit(x, i) != Bit(y, i)) { BitXor(x, y, z, i); }
  }

  lemma AndShift(x: bv32, y: bv32, z: bv32)
    requires z == x & y
    ensures z >> 1 == (x >> 1) & (y >> 1)
  {}

  lemma AndLowBit(x: bv32, y: bv32, z: bv32)
    requires z == x & y
    ensures Bit(z, 0) == (Bit(x, 0) && Bit(y, 0))
  {}

  lemma AndNextBit(x: bv32, y: bv32, z: bv32, i: nat)
    requires i > 0 && Bit(z >> 1, i - 1) == (Bit(x >> 1, i - 1) && Bit(y >> 1, i - 1))
    ensures Bit(z, i) == (Bit(x, i) && Bit(y, i))
  {}

  lemma {:induction false} BitAnd(x: bv32, y: bv32, z: bv32, i: nat)
    requires z == x & y
    ensures Bit(z, i) == (Bit(x, i) && Bit(y, i))
    decreases i
  {
    if i == 0 {
      AndLowBit(x, y, z);
    } else {
      AndShift(x, y, z);
      BitAnd(x >> 1, y >> 1, z >> 1, i - 1);
      AndNextBit(x, y, z, i);
    }
  }

  lemma BitShift4(w: bv32, i: nat)
    ensures Bit(w >> 4, i) == Bit(w, i + 4)
  {
    assert Bit(w, i + 4) == Bit(w >> 1, i + 3);
    assert Bit(w >> 1, i + 3) == Bit((w >> 1) >> 1, i + 2);
    assert Bit((w >> 1) >> 1, i + 2) == Bit(((w >> 1) >> 1) >> 1, i + 1);
    assert (((w >> 1) >> 1) >> 1) >> 1 == w >> 4;
  }

  lemma BitShift8(w: bv32, i: nat)
    ensures Bit(w >> 8, i) == Bit(w, i + 8)
  {
    BitShift4(w, i + 4);
    BitShift4(w >> 4, i);
    assert (w >> 4) >> 4 == w >> 8;
  }

  lemma {:induction false} BitOfZero(i: nat)
    ensures !Bit(0, i)
    decreases i
  {
    if i > 0 { BitOfZero(i - 1); }
  }

  lemma BitPastEnd(w: bv32, i: nat)
    requires 32 <= i
    ensures !Bit(w, i)
  {
    var w8 := w >> 8;
    var w16 := w8 >> 8;
    var w24 := w16 >> 8;
    BitShift8(w, i - 8);
    BitShift8(w8, i - 16);
    BitShift8(w16, i - 24);
    BitShift8(w24, i - 32);
    assert w24 >> 8 == 0;
    BitOfZero(i - 32);
  }

  lemma BitOfByteMask(i: nat)
    ensures Bit(0xFF, i) == (i < 8)
  {
    if i < 8 {
      assert Bit(0xFF, 0) && Bit(0xFF, 1) && Bit(0xFF, 2) && Bit(0xFF, 3);
      BitShift4(0xFF, if i < 4 then 0 else i - 4);
      assert Bit(0xF, 0) && Bit(0xF, 1) && Bit(0xF, 2) && Bit(0xF, 3);
    } else {
      BitShift8(0xFF, i - 8);
      BitOfZero(i - 8);
    }
  }

  lemma BitOfFullByte(w: bv32, i: nat)
    requires w & 0xFF == 0xFF && i < 8
    ensures Bit(w, i)
  {
    BitAnd(w, 0xFF, 0xFF, i);
    BitOfByteMask(i);
  }

  lemma BitsOfOnes()
    ensures Bits(0xFFFFFFFF) == Ones()
  {
    forall i: nat | i < 32 ensures Bit(0xFFFFFFFF, i) {
      if i < 8 { BitOfFullByte(0xFFFFFFFF, i); }
      else if i < 16 { BitShift8(0xFFFFFFFF, i - 8); BitOfFullByte(0xFFFFFF, i - 8); }
      else if i < 24 { BitShift8(0xFFFFFFFF, i - 8); BitShift8(0xFFFFFF, i - 16); BitOfFullByte(0xFFFF, i - 16); }
      else {
        BitShift8(0xFFFFFFFF, i - 8);
        BitShift8(0xFFFFFF, i - 16);
        BitShift8(0xFFFF, i - 24);
        BitOfFullByte(0xFF, i - 24);
      }
    }
  }

  lemma TopBitOfPolynomial()
    ensures Bits(POLYNOMIAL)[31]
  {
    BitShift8(0xEDB88320, 23);
    BitShift8(0xEDB883, 15);
    BitShift8(0xEDB8, 7);
    BitShift4(0xED, 3);
    assert Bit(0xE, 3);
  }

  lemma BitsShift8(w: bv32)
    ensures Bits(w >> 8) == Bits(w)[8..] + Zeros(8)
  {
    var v := w >> 8;
    forall i: nat | i < 32 ensures Bit(v, i) == Bit(w, i + 8) && (24 <= i ==> !Bit(v, i)) {
      BitShift8(w, i);
      if 24 <= i { BitPastEnd(w, i + 8); }
    }
  }

  lemma BitsLowByte(w: bv32)
    ensures Bits(w & 0xFF) == Bits(w)[..8] + Zeros(24)
  {
    var v := w & 0xFF;
    forall i: nat | i < 32 ensures Bit(v, i) == (Bit(w, i) && i < 8) {
      BitAnd(w, 0xFF, v, i);
      BitOfByteMask(i);
    }
  }

  lemma HalvesDetermineWord(x: bv32, y: bv32)
    requires Bit(x, 0) == Bit(y, 0) && x >> 1 == y >> 1
    ensures x == y
  {}

  function BitLength(w: bv32): nat
    decreases w
  {
    if w == 0 then 0 else 1 + BitLength(w >> 1)
  }

  ghost predicate SameBits(x: bv32, y: bv32) {
    forall i: nat :: Bit(x, i) == Bit(y, i)
  }

  lemma ShiftedBitsAgree(x: bv32, y: bv32, x': bv32, y': bv32)
    requires SameBits(x, y) && x' == x >> 1 && y' == y >> 1
    ensures SameBits(x', y') && Bit(x, 0) == Bit(y, 0)
  {
    forall i: nat ensures Bit(x', i) == Bit(y', i) {
      assert Bit(x, i + 1) == Bit(y, i + 1);
    }
  }

  lemma {:induction false} BitsDetermineWord(x: bv32, y: bv32)
    requires SameBits(x, y)
    ensures x == y
    decreases BitLength(x) + BitLength(y)
  {
    if x != 0 || y != 0 {
      ShiftedBitsAgree(x, y, x >> 1, y >> 1);
      BitsDetermineWord(x >> 1, y >> 1);
      HalvesDetermineWord(x, y);
    }
  }

  /** A word is determined by its 32 bits, so the contract of CalculateCrc32 admits one result. */
  lemma BitsInjective(x: bv32, y: bv32)
    requires Bits(x) == Bits(y)
    ensures x == y
  {
    forall i: nat ensures Bit(x, i) == Bit(y, i) {
      if i < 32 { assert Bits(x)[i] == Bits(y)[i]; } else { BitPastEnd(x, i); BitPastEnd(y, i); }
    }
    BitsDetermineWord(x, y);
  }

  lemma BitsOfByte(b: bv8)
    ensures Bits(b as bv32) == ByteBits(b) + Zeros(24)
  {
    assert (b as bv32) & 0xFF == b as bv32;
    BitsLowByte(b as bv32);
  }

  lemma ByteBitsInjective(x: bv8, y: bv8)
    requires ByteBits(x) == ByteBits(y)
    ensures x == y
  {
    BitsOfByte(x);
    BitsOfByte(y);
    BitsInjective(x as bv32, y as bv32);
  }

  // ---------------------------------------------------------------- the table

  function WordStep(c: bv32): bv32 {
    if c & 1 == 1 then (c >> 1) ^ POLYNOMIAL else c >> 1
  }

  function WordSteps8(c: bv32): bv32 {
    WordStep(WordStep(WordStep(WordStep(WordStep(WordStep(WordStep(WordStep(c))))))))
  }

  lemma BitsWordStep(c: bv32)
    ensures Bits(WordStep(c)) == Step(Bits(c))
  {
    var half := c >> 1;
    assert Bits(half) == Bits(c)[1..] + [false] by {
      BitPastEnd(c, 32);
      assert forall i: nat | i < 32 :: Bit(half, i) == Bit(c, i + 1);
    }
    assert Bits(c)[0] == (c & 1 == 1);
    if c & 1 == 1 { BitsXor(half, POLYNOMIAL, WordStep(c)); }
  }

  lemma BitsWordSteps8(c: bv32)
    ensures Bits(WordSteps8(c)) == Steps(Bits(c), 8)
  {
    var c1 := WordStep(c);
    var c2 := WordStep(c1);
    var c3 := WordStep(c2);
    var c4 := WordStep(c3);
    BitsWordStep(c);
    BitsWordStep(c1);
    BitsWordStep(c2);
    BitsWordStep(c3);
    assert Bits(c4) == Steps(Bits(c), 4);
    var c5 := WordStep(c4);
    var c6 := WordStep(c5);
    var c7 := WordStep(c6);
    BitsWordStep(c4);
    BitsWordStep(c5);
    BitsWordStep(c6);
    BitsWordStep(c7);
    assert Bits(WordStep(c7)) == Steps(Bits(c4), 4);
    StepsAdd(Bits(c), 4, 4);
  }

  lemma {:induction false} StepsAdd(c: Register, m: nat, n: nat)
    ensures Steps(Steps(c, m), n) == Steps(c, m + n)
    decreases m
  {
    if m > 0 { StepsAdd(Step(c), m - 1, n); }
  }

  /** A whole round on words: the byte brought in, then eight steps. */
  lemma RoundOnWords(crc: bv32, b: bv8, next: bv32)
    requires next == WordSteps8(crc ^ (b as bv32))
    ensures Bits(next) == Divide(Bits(crc), ByteBits(b))
  {
    var x := crc ^ (b as bv32);
    BitsXor(crc, b as bv32, x);
    BitsOfByte(b);
    BitsWordSteps8(x);
    Collect(Bits(crc), ByteBits(b));
  }

  lemma ResidueIs()
    ensures Steps(Ones(), 32) == Bits(0xDEBB20E3)
  {
    hide Bits, Steps;
    BitsOfOnes();
    EightSteps(0xFFFFFFFF, 0x2DFD1072);
    EightSteps(0x2DFD1072, 0xBE26ED00);
    EightSteps(0xBE26ED00, 0x00BE26ED);
    EightSteps(0x00BE26ED, 0xDEBB20E3);
    StepsAdd(Ones(), 8, 8);
    StepsAdd(Ones(), 16, 8);
    StepsAdd(Ones(), 24, 8);
  }

  lemma EightSteps(c: bv32, d: bv32)
    requires d == WordSteps8(c)
    ensures Bits(d) == Steps(Bits(c), 8)
  {
    BitsWordSteps8(c);
  }

  /** One byte more of a message. */
  lemma MessageRound(data: seq<bv8>, b: bv8, crc: bv32, next: bv32)
    requires Bits(crc) == Divide(Ones(), MessageBits(data)) && next == WordSteps8(crc ^ (b as bv32))
    ensures Bits(next) == Divide(Ones(), MessageBits(data + [b]))
  {
    RoundOnWords(crc, b, next);
    assert (data + [b])[..|data|] == data;
    DivideAppend(Ones(), MessageBits(data), ByteBits(b));
  }

  /** The check value catalogues give for this CRC: that of the nine characters from 1 to 9. */
  lemma CheckValue()
    ensures Crc([0x31, 0x32, 0x33, 0x34, 0x35, 0x36, 0x37, 0x38, 0x39]) == Bits(0xCBF43926)
  {
    hide Bits, Divide, MessageBits;
    BitsOfOnes();
    NoMessage();
    var data: seq<bv8> := [];
    MessageRound(data, 0x31, 0xFFFFFFFF, 0x7C231048);
    data := data + [0x31];
    MessageRound(data, 0x32, 0x7C231048, 0xB0ACBB32);
    data := data + [0x32];
    MessageRound(data, 0x33, 0xB0ACBB32, 0x77B79C2D);
    data := data + [0x33];
    MessageRound(data, 0x34, 0x77B79C2D, 0x641C1F5C);
    data := data + [0x34];
    MessageRound(data, 0x35, 0x641C1F5C, 0x340AC5E3);
    data := data + [0x35];
    MessageRound(data, 0x36, 0x340AC5E3, 0xF68D2C9E);
    data := data + [0x36];
    MessageRound(data, 0x37, 0xF68D2C9E, 0xAFFC9660);
    data := data + [0x37];
    MessageRound(data, 0x38, 0xAFFC9660, 0x651F2550);
    data := data + [0x38];
    MessageRound(data, 0x39, 0x651F2550, 0x340BC6D9);
    data := data + [0x39];
    BitsXor(0x340BC6D9, 0xFFFFFFFF, 0xCBF43926);
    assert data == [0x31, 0x32, 0x33, 0x34, 0x35, 0x36, 0x37, 0x38, 0x39];
  }

  lemma NoMessage()
    ensures Divide(Ones(), MessageBits([])) == Ones()
  {}

  lemma TableHasShape()
    ensures IsTable(CRC_TABLE)
  {}

  ghost predicate EntryFollows(index: bv8)
    requires IsTable(CRC_TABLE)
  {
    Entry(CRC_TABLE, index) == WordSteps8(index as bv32)
  }

  lemma Row00(index: bv8) requires IsTable(CRC_TABLE) && index >> 3 == 0 ensures EntryFollows(index) {}
  lemma Row01(index: bv8) requires IsTable(CRC_TABLE) && index >> 3 == 1 ensures EntryFollows(index) {}
  lemma Row02(index: bv8) requires IsTable(CRC_TABLE) && index >> 3 == 2 ensures EntryFollows(index) {}
  lemma Row03(index: bv8) requires IsTable(CRC_TABLE) && index >> 3 == 3 ensures EntryFollows(index) {}
  lemma Row04(index: bv8) requires IsTable(CRC_TABLE) && index >> 3 == 4 ensures EntryFollows(index) {}
  lemma Row05(index: bv8) requires IsTable(CRC_TABLE) && index >> 3 == 5 ensures EntryFollows(index) {}
  lemma Row06(index: bv8) requires IsTable(CRC_TABLE) && index >> 3 == 6 ensures EntryFollows(index) {}
  lemma Row07(index: bv8) requires IsTable(CRC_TABLE) && index >> 3 == 7 ensures EntryFollows(index) {}
  lemma Row08(index: bv8) requires IsTable(CRC_TABLE) && index >> 3 == 8 ensures EntryFollows(index) {}
  lemma Row09(index: bv8) requires IsTable(CRC_TABLE) && index >> 3 == 9 ensures EntryFollows(index) {}
  lemma Row10(index: bv8) requires IsTable(CRC_TABLE) && index >> 3 == 10 ensures EntryFollows(index) {}
  lemma Row11(index: bv8) requires IsTable(CRC_TABLE) && index >> 3 == 11 ensures EntryFollows(index) {}
  lemma Row12(index: bv8) requires IsTable(CRC_TABLE) && index >> 3 == 12 ensures EntryFollows(index) {}
  lemma Row13(index: bv8) requires IsTable(CRC_TABLE) && index >> 3 == 13 ensures EntryFollows(index) {}
  lemma Row14(index: bv8) requires IsTable(CRC_TABLE) && index >> 3 == 14 ensures EntryFollows(index) {}
  lemma Row15(index: bv8) requires IsTable(CRC_TABLE) && index >> 3 == 15 ensures EntryFollows(index) {}
  lemma Row16(index: bv8) requires IsTable(CRC_TABLE) && index >> 3 == 16 ensures EntryFollows(index) {}
  lemma Row17(index: bv8) requires IsTable(CRC_TABLE) && index >> 3 == 17 ensures EntryFollows(index) {}
  lemma Row18(index: bv8) requires IsTable(CRC_TABLE) && index >> 3 == 18 ensures EntryFollows(index) {}
  lemma Row19(index: bv8) requires IsTable(CRC_TABLE) && index >> 3 == 19 ensures EntryFollows(index) {}
  lemma Row20(index: bv8) requires IsTable(CRC_TABLE) && index >> 3 == 20 ensures EntryFollows(index) {}
  lemma Row21(index: bv8) requires IsTable(CRC_TABLE) && index >> 3 == 21 ensures EntryFollows(index) {}
  lemma Row22(index: bv8) requires IsTable(CRC_TABLE) && index >> 3 == 22 ensures EntryFollows(index) {}
  lemma Row23(index: bv8) requires IsTable(CRC_TABLE) && index >> 3 == 23 ensures EntryFollows(index) {}
  lemma Row24(index: bv8) requires IsTable(CRC_TABLE) && index >> 3 == 24 ensures EntryFollows(index) {}
  lemma Row25(index: bv8) requires IsTable(CRC_TABLE) && index >> 3 == 25 ensures EntryFollows(index) {}
  lemma Row26(index: bv8) requires IsTable(CRC_TABLE) && index >> 3 == 26 ensures EntryFollows(index) {}
  lemma Row27(index: bv8) requires IsTable(CRC_TABLE) && index >> 3 == 27 ensures EntryFollows(index) {}
  lemma Row28(index: bv8) requires IsTable(CRC_TABLE) && index >> 3 == 28 ensures EntryFollows(index) {}
  lemma Row29(index: bv8) requires IsTable(CRC_TABLE) && index >> 3 == 29 ensures EntryFollows(index) {}
  lemma Row30(index: bv8) requires IsTable(CRC_TABLE) && index >> 3 == 30 ensures EntryFollows(index) {}
  lemma Row31(index: bv8) requires IsTable(CRC_TABLE) && index >> 3 == 31 ensures EntryFollows(index) {}

  lemma TableFollows(index: bv8)
    requires IsTable(CRC_TABLE)
    ensures EntryFollows(index)
  {
    match (index >> 3) as int
    case 0 => Row00(index);
    case 1 => Row01(index);
    case 2 => Row02(index);
    case 3 => Row03(index);
    case 4 => Row04(index);
    case 5 => Row05(index);
    case 6 => Row06(index);
    case 7 => Row07(index);
    case 8 => Row08(index);
    case 9 => Row09(index);
    case 10 => Row10(index);
    case 11 => Row11(index);
    case 12 => Row12(index);
    case 13 => Row13(index);
    case 14 => Row14(index);
    case 15 => Row15(index);
    case 16 => Row16(index);
    case 17 => Row17(index);
    case 18 => Row18(index);
    case 19 => Row19(index);
    case 20 => Row20(index);
    case 21 => Row21(index);
    case 22 => Row22(index);
    case 23 => Row23(index);
    case 24 => Row24(index);
    case 25 => Row25(index);
    case 26 => Row26(index);
    case 27 => Row27(index);
    case 28 => Row28(index);
    case 29 => Row29(index);
    case 30 => Row30(index);
    case 31 => Row31(index);
  }

  /** Every entry is its index divided through eight zero bits. */
  lemma EntryDivides(index: bv8)
    requires IsTable(CRC_TABLE)
    ensures Bits(Entry(CRC_TABLE, index)) == Steps(Bits(index as bv32), 8)
  {
    TableFollows(index);
    BitsWordSteps8(index as bv32);
  }

  lemma IndexIsLowByte(crc: bv32, b: bv8, x: bv32)
    requires x == crc ^ (b as bv32)
    ensures Index(crc, b) as bv32 == x & 0xFF && x >> 8 == crc >> 8
  {}

  /** The register with the byte brought in, before it is divided. */
  lemma ByteBroughtIn(crc: bv32, b: bv8) returns (x: bv32)
    ensures Index(crc, b) as bv32 == x & 0xFF && x >> 8 == crc >> 8
    ensures Bits(x) == Xor(Bits(crc), ByteBits(b) + Zeros(24))
  {
    x := crc ^ (b as bv32);
    IndexIsLowByte(crc, b, x);
    BitsXor(crc, b as bv32, x);
    BitsOfByte(b);
  }

  lemma BitsNextWord(crc: bv32, entry: bv32)
    ensures Bits(NextWord(crc, entry)) == Xor(Bits(entry), Bits(crc >> 8))
  {
    BitsXor(crc >> 8, entry, NextWord(crc, entry));
    XorCommutes(Bits(crc >> 8), Bits(entry));
  }

  /** A round divides the eight bits of the byte: the low ones through the table, the rest by moving down. */
  lemma NextWordDivides(crc: bv32, b: bv8, entry: bv32)
    requires Bits(entry) == Steps(Bits(Index(crc, b) as bv32), 8)
    ensures Bits(NextWord(crc, entry)) == Divide(Bits(crc), ByteBits(b))
  {
    var x := ByteBroughtIn(crc, b);
    BitsNextWord(crc, entry);
    BitsLowByte(x);
    BitsShift8(x);
    RegisterSplits(Bits(x));
    Collect(Bits(crc), ByteBits(b));
  }

  lemma RegisterSplits(c: Register)
    ensures Steps(c, 8) == Xor(Steps(c[..8] + Zeros(24), 8), c[8..] + Zeros(8))
  {
    assert Xor(c[..8] + Zeros(24), Zeros(8) + c[8..]) == c;
    StepsMoveHighBits(c[..8] + Zeros(24), c[8..], 8);
  }

  lemma XorCommutes(a: Register, b: Register)
    ensures Xor(a, b) == Xor(b, a)
  {}
}
