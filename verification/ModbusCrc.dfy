/**
 The Modbus RTU checksum: the table-driven loop of the firmware against the bit-serial
 definition in section 6.2.2 of the MODBUS over Serial Line Specification V1.02, and the
 error detection that `is_ok` relies on.
 */
module ModbusCrc {
  import opened Basics

  // ---------------------------------------------------------------- bit-serial definition

  /** One shift of the CRC register: out goes the low bit, and the polynomial is folded in if it was set. */
  function BitStep(v: bv16): bv16 {
    (v >> 1) ^ (if v & 1 == 1 then 0xA001 else 0)
  }

  /** Eight shifts. */
  function ByteStep(v: bv16): bv16 {
    BitStep(BitStep(BitStep(BitStep(BitStep(BitStep(BitStep(BitStep(v))))))))
  }

  /** The register after one byte: the byte is folded into the low half, then shifted out. */
  function ByteFed(v: bv16, b: bv8): bv16 {
    ByteStep(v ^ b as bv16)
  }

  /** The bit-serial CRC of `data`, starting from register `v`. */
  function CrcFrom(v: bv16, data: seq<bv8>): bv16
    decreases |data|
  {
    if data == [] then v else CrcFrom(ByteFed(v, data[0]), data[1..])
  }

  function Crc(data: seq<bv8>): bv16 {
    CrcFrom(0xFFFF, data)
  }

  lemma CheckValueSteps()
    ensures ByteFed(0xFFFF, 0x31) == 0x947E && ByteFed(0x947E, 0x32) == 0xF595 && ByteFed(0xF595, 0x33) == 0x7A75
            && ByteFed(0x7A75, 0x34) == 0x30BA && ByteFed(0x30BA, 0x35) == 0xA471
    ensures ByteFed(0xA471, 0x36) == 0x32E4 && ByteFed(0x32E4, 0x37) == 0x9D73 && ByteFed(0x9D73, 0x38) == 0x37DD
            && ByteFed(0x37DD, 0x39) == 0x4B37
  {
  }

  /** The check value of CRC-16/MODBUS: the checksum of the digits 1 to 9. */
  lemma CheckValue()
    ensures Crc([0x31, 0x32, 0x33, 0x34, 0x35, 0x36, 0x37, 0x38, 0x39]) == 0x4B37 && Crc([]) == 0xFFFF
  {
    CheckValueSteps();
    hide ByteFed;
    var d8: seq<bv8> := [0x39];
    assert d8[1..] == [] && CrcFrom(0x37DD, d8) == 0x4B37;
    var d7: seq<bv8> := [0x38, 0x39];
    assert d7[1..] == d8 && CrcFrom(0x9D73, d7) == 0x4B37;
    var d6: seq<bv8> := [0x37, 0x38, 0x39];
    assert d6[1..] == d7 && CrcFrom(0x32E4, d6) == 0x4B37;
    var d5: seq<bv8> := [0x36, 0x37, 0x38, 0x39];
    assert d5[1..] == d6 && CrcFrom(0xA471, d5) == 0x4B37;
    var d4: seq<bv8> := [0x35, 0x36, 0x37, 0x38, 0x39];
    assert d4[1..] == d5 && CrcFrom(0x30BA, d4) == 0x4B37;
    var d3: seq<bv8> := [0x34, 0x35, 0x36, 0x37, 0x38, 0x39];
    assert d3[1..] == d4 && CrcFrom(0x7A75, d3) == 0x4B37;
    var d2: seq<bv8> := [0x33, 0x34, 0x35, 0x36, 0x37, 0x38, 0x39];
    assert d2[1..] == d3 && CrcFrom(0xF595, d2) == 0x4B37;
    var d1: seq<bv8> := [0x32, 0x33, 0x34, 0x35, 0x36, 0x37, 0x38, 0x39];
    assert d1[1..] == d2 && CrcFrom(0x947E, d1) == 0x4B37;
    var d0: seq<bv8> := [0x31, 0x32, 0x33, 0x34, 0x35, 0x36, 0x37, 0x38, 0x39];
    assert d0[1..] == d1 && CrcFrom(0xFFFF, d0) == 0x4B37;
  }

  // ---------------------------------------------------------------- the table and the loop

  /** Entry `i & 7` of a row of eight. */
  function Pick(i: bv16, a: bv16, b: bv16, c: bv16, d: bv16, e: bv16, f: bv16, g: bv16, h: bv16): bv16 {
    if i & 4 == 0 then
      if i & 2 == 0 then (if i & 1 == 0 then a else b) else (if i & 1 == 0 then c else d)
    else
      if i & 2 == 0 then (if i & 1 == 0 then e else f) else (if i & 1 == 0 then g else h)
  }

  /** The constant table, in the source's rows of eight. */
  function Table(i: bv16): bv16 {
    if i < 0x08 then Pick(i, 0x0000, 0xc0c1, 0xc181, 0x0140, 0xc301, 0x03c0, 0x0280, 0xc241) else
    if i < 0x10 then Pick(i, 0xc601, 0x06c0, 0x0780, 0xc741, 0x0500, 0xc5c1, 0xc481, 0x0440) else
    if i < 0x18 then Pick(i, 0xcc01, 0x0cc0, 0x0d80, 0xcd41, 0x0f00, 0xcfc1, 0xce81, 0x0e40) else
    if i < 0x20 then Pick(i, 0x0a00, 0xcac1, 0xcb81, 0x0b40, 0xc901, 0x09c0, 0x0880, 0xc841) else
    if i < 0x28 then Pick(i, 0xd801, 0x18c0, 0x1980, 0xd941, 0x1b00, 0xdbc1, 0xda81, 0x1a40) else
    if i < 0x30 then Pick(i, 0x1e00, 0xdec1, 0xdf81, 0x1f40, 0xdd01, 0x1dc0, 0x1c80, 0xdc41) else
    if i < 0x38 then Pick(i, 0x1400, 0xd4c1, 0xd581, 0x1540, 0xd701, 0x17c0, 0x1680, 0xd641) else
    if i < 0x40 then Pick(i, 0xd201, 0x12c0, 0x1380, 0xd341, 0x1100, 0xd1c1, 0xd081, 0x1040) else
    if i < 0x48 then Pick(i, 0xf001, 0x30c0, 0x3180, 0xf141, 0x3300, 0xf3c1, 0xf281, 0x3240) else
    if i < 0x50 then Pick(i, 0x3600, 0xf6c1, 0xf781, 0x3740, 0xf501, 0x35c0, 0x3480, 0xf441) else
    if i < 0x58 then Pick(i, 0x3c00, 0xfcc1, 0xfd81, 0x3d40, 0xff01, 0x3fc0, 0x3e80, 0xfe41) else
    if i < 0x60 then Pick(i, 0xfa01, 0x3ac0, 0x3b80, 0xfb41, 0x3900, 0xf9c1, 0xf881, 0x3840) else
    if i < 0x68 then Pick(i, 0x2800, 0xe8c1, 0xe981, 0x2940, 0xeb01, 0x2bc0, 0x2a80, 0xea41) else
    if i < 0x70 then Pick(i, 0xee01, 0x2ec0, 0x2f80, 0xef41, 0x2d00, 0xedc1, 0xec81, 0x2c40) else
    if i < 0x78 then Pick(i, 0xe401, 0x24c0, 0x2580, 0xe541, 0x2700, 0xe7c1, 0xe681, 0x2640) else
    if i < 0x80 then Pick(i, 0x2200, 0xe2c1, 0xe381, 0x2340, 0xe101, 0x21c0, 0x2080, 0xe041) else
    if i < 0x88 then Pick(i, 0xa001, 0x60c0, 0x6180, 0xa141, 0x6300, 0xa3c1, 0xa281, 0x6240) else
    if i < 0x90 then Pick(i, 0x6600, 0xa6c1, 0xa781, 0x6740, 0xa501, 0x65c0, 0x6480, 0xa441) else
    if i < 0x98 then Pick(i, 0x6c00, 0xacc1, 0xad81, 0x6d40, 0xaf01, 0x6fc0, 0x6e80, 0xae41) else
    if i < 0xa0 then Pick(i, 0xaa01, 0x6ac0, 0x6b80, 0xab41, 0x6900, 0xa9c1, 0xa881, 0x6840) else
    if i < 0xa8 then Pick(i, 0x7800, 0xb8c1, 0xb981, 0x7940, 0xbb01, 0x7bc0, 0x7a80, 0xba41) else
    if i < 0xb0 then Pick(i, 0xbe01, 0x7ec0, 0x7f80, 0xbf41, 0x7d00, 0xbdc1, 0xbc81, 0x7c40) else
    if i < 0xb8 then Pick(i, 0xb401, 0x74c0, 0x7580, 0xb541, 0x7700, 0xb7c1, 0xb681, 0x7640) else
    if i < 0xc0 then Pick(i, 0x7200, 0xb2c1, 0xb381, 0x7340, 0xb101, 0x71c0, 0x7080, 0xb041) else
    if i < 0xc8 then Pick(i, 0x5000, 0x90c1, 0x9181, 0x5140, 0x9301, 0x53c0, 0x5280, 0x9241) else
    if i < 0xd0 then Pick(i, 0x9601, 0x56c0, 0x5780, 0x9741, 0x5500, 0x95c1, 0x9481, 0x5440) else
    if i < 0xd8 then Pick(i, 0x9c01, 0x5cc0, 0x5d80, 0x9d41, 0x5f00, 0x9fc1, 0x9e81, 0x5e40) else
    if i < 0xe0 then Pick(i, 0x5a00, 0x9ac1, 0x9b81, 0x5b40, 0x9901, 0x59c0, 0x5880, 0x9841) else
    if i < 0xe8 then Pick(i, 0x8801, 0x48c0, 0x4980, 0x8941, 0x4b00, 0x8bc1, 0x8a81, 0x4a40) else
    if i < 0xf0 then Pick(i, 0x4e00, 0x8ec1, 0x8f81, 0x4f40, 0x8d01, 0x4dc0, 0x4c80, 0x8c41) else
    if i < 0xf8 then Pick(i, 0x4400, 0x84c1, 0x8581, 0x4540, 0x8701, 0x47c0, 0x4680, 0x8641) else
    Pick(i, 0x8201, 0x42c0, 0x4380, 0x8341, 0x4100, 0x81c1, 0x8081, 0x4040)
  }

  lemma TableIsByteStep(i: bv16)
    requires i <= 0xFF
    ensures Table(i) == ByteStep(i)
  {
  }

  /** Eight shifts move the high byte down untouched and spread the low byte. */
  lemma ByteStepSplits(v: bv16)
    ensures ByteStep(v) == (v >> 8) ^ ByteStep(v & 0xFF)
  {
  }

  lemma RegisterHalves(v: bv16, b: bv16)
    requires b <= 0xFF
    ensures (v & 0xFF) ^ b == (v ^ b) & 0xFF <= 0xFF
    ensures (v ^ b) >> 8 == v >> 8
  {
  }

  lemma JoinHalves(v: bv16, x: bv16, w: bv16)
    requires x == w & 0xFF && w >> 8 == v >> 8
    requires Table(x) == ByteStep(x) && ByteStep(w) == (w >> 8) ^ ByteStep(w & 0xFF)
    ensures (v >> 8) ^ Table(x) == ByteStep(w)
  {
    hide *;
  }

  /** One loop body of the source is eight shifts of the register with the byte folded in. */
  lemma TableStep(v: bv16, b: bv16, x: bv16, w: bv16)
    requires b <= 0xFF && x == (v & 0xFF) ^ b && w == v ^ b
    ensures (v >> 8) ^ Table(x) == ByteStep(w)
  {
    hide *;
    RegisterHalves(v, b);
    TableIsByteStep(x);
    ByteStepSplits(w);
    JoinHalves(v, x, w);
  }

  /** The table-driven loop computes the bit-serial CRC. */
  method ComputeCrc(data: array<bv8>, len: nat) returns (val: bv16)
    requires len <= data.Length
    ensures val == Crc(data[..len])
  {
    hide Table, ByteStep;
    val := 0xFFFF;
    for i := 0 to len
      invariant CrcFrom(val, data[i..len]) == Crc(data[..len])
    {
      var b := data[i] as bv16;
      var index := (val & 0xFF) ^ b;
      TableStep(val, b, index, val ^ b);
      assert data[i..len][1..] == data[i + 1..len];
      val := (val >> 8) ^ Table(index);
    }
  }

  // ---------------------------------------------------------------- the CRC over single bits

  /** The register after one bit of the stream. */
  function Fed(v: bv16, bit: bool): bv16 {
    BitStep(if bit then v ^ 1 else v)
  }

  function BitsFrom(v: bv16, bits: seq<bool>): bv16
    decreases |bits|
  {
    if bits == [] then v else BitsFrom(Fed(v, bits[0]), bits[1..])
  }

  function Half(b: bv16): bv16 {
    b >> 1
  }

  predicate Odd(b: bv16) {
    b & 1 == 1
  }

  /** The `n` low bits of `b`, least significant first: the order in which the line sends them. */
  function LowBits(b: bv16, n: nat): (bits: seq<bool>)
    ensures |bits| == n
    decreases n
  {
    if n == 0 then [] else [Odd(b)] + LowBits(Half(b), n - 1)
  }

  /** What is left of `b` after `n` bits went out. */
  function Shifted(b: bv16, n: nat): bv16
    decreases n
  {
    if n == 0 then b else Shifted(Half(b), n - 1)
  }

  function Steps(v: bv16, n: nat): bv16
    decreases n
  {
    if n == 0 then v else Steps(BitStep(v), n - 1)
  }

  function Bits(data: seq<bv8>): (bits: seq<bool>)
    ensures |bits| == 8 * |data|
  {
    if data == [] then [] else LowBits(data[0] as bv16, 8) + Bits(data[1..])
  }

  lemma EightSteps(v: bv16)
    ensures Steps(v, 8) == ByteStep(v)
  {
    hide BitStep;
    var v1 := BitStep(v);
    var v2 := BitStep(v1);
    var v3 := BitStep(v2);
    var v4 := BitStep(v3);
    assert Steps(v, 8) == Steps(v1, 7) == Steps(v2, 6) == Steps(v3, 5) == Steps(v4, 4);
    var v5 := BitStep(v4);
    var v6 := BitStep(v5);
    assert Steps(v4, 4) == Steps(v5, 3) == Steps(v6, 2) == Steps(BitStep(v6), 1);
  }

  lemma ByteShiftedOut(b: bv8)
    ensures Shifted(b as bv16, 8) == 0
  {
    var b0 := b as bv16;
    var b1 := b0 >> 1;
    var b2 := b1 >> 1;
    var b3 := b2 >> 1;
    var b4 := b3 >> 1;
    assert Shifted(b0, 8) == Shifted(b1, 7) == Shifted(b2, 6) == Shifted(b3, 5) == Shifted(b4, 4);
    var b5 := b4 >> 1;
    var b6 := b5 >> 1;
    var b7 := b6 >> 1;
    assert Shifted(b4, 4) == Shifted(b5, 3) == Shifted(b6, 2) == Shifted(b7, 1) == b7 >> 1;
  }

  lemma XorZero(v: bv16)
    ensures Xor(v, 0) == v
  {
  }

  lemma BitsPassThrough(v: bv16, b: bv16, x: bv16, bit: bool, rest: bv16)
    requires x == v ^ b && bit == (b & 1 == 1) && rest == b >> 1
    ensures BitStep(x) == Fed(v, bit) ^ rest
  {
  }

  /** Bits above the lowest one pass through a shift unharmed. */
  lemma FedFolds(v: bv16, b: bv16)
    ensures BitStep(Xor(v, b)) == Xor(Fed(v, Odd(b)), Half(b))
  {
    hide BitStep, Fed;
    var x, bit, rest := Xor(v, b), Odd(b), Half(b);
    BitsPassThrough(v, b, x, bit, rest);
  }

  lemma {:induction false} StepsAreBits(v: bv16, b: bv16, n: nat)
    requires Shifted(b, n) == 0
    ensures Steps(Xor(v, b), n) == BitsFrom(v, LowBits(b, n))
    decreases n
  {
    hide BitStep, Fed, Xor, Half, Odd;
    if n == 0 {
      XorZero(v);
    } else {
      FedFolds(v, b);
      StepsAreBits(Fed(v, Odd(b)), Half(b), n - 1);
      assert LowBits(b, n)[1..] == LowBits(Half(b), n - 1);
    }
  }

  lemma {:induction false} BitsFromConcat(v: bv16, a: seq<bool>, b: seq<bool>)
    ensures BitsFrom(v, a + b) == BitsFrom(BitsFrom(v, a), b)
    decreases |a|
  {
    hide BitStep, Fed;
    if a == [] {
      assert a + b == b;
    } else {
      BitsFromConcat(Fed(v, a[0]), a[1..], b);
      assert (a + b)[1..] == a[1..] + b;
    }
  }

  lemma {:induction false} CrcFromConcat(v: bv16, a: seq<bv8>, b: seq<bv8>)
    ensures CrcFrom(v, a + b) == CrcFrom(CrcFrom(v, a), b)
    decreases |a|
  {
    hide ByteFed;
    if a == [] {
      assert a + b == b;
    } else {
      CrcFromConcat(ByteFed(v, a[0]), a[1..], b);
      assert (a + b)[1..] == a[1..] + b;
    }
  }

  lemma ByteIsBits(v: bv16, b: bv8)
    ensures ByteFed(v, b) == BitsFrom(v, LowBits(b as bv16, 8))
  {
    hide ByteStep, BitStep, LowBits, BitsFrom, Shifted, Steps;
    ByteShiftedOut(b);
    StepsAreBits(v, b as bv16, 8);
    EightSteps(v ^ b as bv16);
  }

  lemma ThreeParts(v: bv16, a: seq<bool>, b: seq<bool>, c: seq<bool>)
    ensures BitsFrom(v, a + b + c) == BitsFrom(BitsFrom(BitsFrom(v, a), b), c)
  {
    hide *;
    BitsFromConcat(v, a, b);
    BitsFromConcat(v, a + b, c);
  }

  /** The byte-wise CRC is the CRC of the bit stream. */
  lemma {:induction false} CrcIsBits(v: bv16, data: seq<bv8>)
    ensures CrcFrom(v, data) == BitsFrom(v, Bits(data))
    decreases |data|
  {
    hide ByteFed, Fed, LowBits;
    if data != [] {
      ByteIsBits(v, data[0]);
      BitsFromConcat(v, LowBits(data[0] as bv16, 8), Bits(data[1..]));
      CrcIsBits(ByteFed(v, data[0]), data[1..]);
    }
  }

  // ---------------------------------------------------------------- error detection

  lemma DifferentBitsSeparate(v: bv16, x: bool, y: bool)
    requires x != y
    ensures (Fed(v, x) ^ Fed(v, y)) >> 15 != 0
  {
  }

  lemma HighDifferenceSinks(a: bv16, b: bv16, x: bool, y: bool, k: bv16)
    requires k < 15 && (a ^ b) >> (k + 1) != 0
    ensures (Fed(a, x) ^ Fed(b, y)) >> k != 0
  {
  }

  lemma SameBitKeepsApart(a: bv16, b: bv16, x: bool)
    requires a != b
    ensures Fed(a, x) != Fed(b, x)
  {
  }

  lemma {:induction false} ApartStaysApart(a: bv16, b: bv16, bits: seq<bool>)
    requires a != b
    ensures BitsFrom(a, bits) != BitsFrom(b, bits)
    decreases |bits|
  {
    hide BitStep, Fed;
    if bits != [] {
      SameBitKeepsApart(a, b, bits[0]);
      ApartStaysApart(Fed(a, bits[0]), Fed(b, bits[0]), bits[1..]);
    }
  }

  /** Registers that differ at bit `k` or above cannot be brought together by `k` bits, whatever those are. */
  lemma {:induction false} HighDifferenceSurvives(a: bv16, b: bv16, w: seq<bool>, u: seq<bool>, k: bv16)
    requires |w| == |u| <= k as int && k <= 15
    requires (a ^ b) >> k != 0
    ensures BitsFrom(a, w) != BitsFrom(b, u)
    decreases |w|
  {
    hide BitStep, Fed;
    if w == [] {
      assert a != b;
    } else {
      var k' := k - 1;
      HighDifferenceSinks(a, b, w[0], u[0], k');
      HighDifferenceSurvives(Fed(a, w[0]), Fed(b, u[0]), w[1..], u[1..], k');
    }
  }

  /** Two different bit strings of at most 16 bits lead the same register to different values. */
  lemma {:induction false} WindowSeparates(v: bv16, w: seq<bool>, u: seq<bool>)
    requires |w| == |u| <= 16 && w != u
    ensures BitsFrom(v, w) != BitsFrom(v, u)
    decreases |w|
  {
    hide BitStep, Fed;
    if w[0] == u[0] {
      assert w == [w[0]] + w[1..] && u == [u[0]] + u[1..];
      WindowSeparates(Fed(v, w[0]), w[1..], u[1..]);
    } else {
      DifferentBitsSeparate(v, w[0], u[0]);
      HighDifferenceSurvives(Fed(v, w[0]), Fed(v, u[0]), w[1..], u[1..], 15);
    }
  }

  lemma WindowErrorDetected(v: bv16, pre: seq<bool>, w: seq<bool>, u: seq<bool>, suf: seq<bool>)
    requires |w| == |u| <= 16 && w != u
    ensures BitsFrom(v, pre + w + suf) != BitsFrom(v, pre + u + suf)
  {
    hide *;
    var m := BitsFrom(v, pre);
    WindowSeparates(m, w, u);
    ApartStaysApart(BitsFrom(m, w), BitsFrom(m, u), suf);
    ThreeParts(v, pre, w, suf);
    ThreeParts(v, pre, u, suf);
  }

  lemma SameHalves(a: bv16, b: bv16)
    requires Odd(a) == Odd(b) && Half(a) == Half(b)
    ensures a == b
  {
  }

  lemma {:induction false} LowBitsInjective(a: bv16, b: bv16, n: nat)
    requires LowBits(a, n) == LowBits(b, n) && Shifted(a, n) == Shifted(b, n)
    ensures a == b
    decreases n
  {
    hide Half, Odd;
    if n > 0 {
      assert LowBits(a, n)[0] == LowBits(b, n)[0];
      assert LowBits(a, n)[1..] == LowBits(Half(a), n - 1) && LowBits(b, n)[1..] == LowBits(Half(b), n - 1);
      LowBitsInjective(Half(a), Half(b), n - 1);
      SameHalves(a, b);
    }
  }

  lemma ByteBitsInjective(a: bv8, b: bv8)
    requires LowBits(a as bv16, 8) == LowBits(b as bv16, 8)
    ensures a == b
  {
    hide LowBits, Shifted;
    ByteShiftedOut(a);
    ByteShiftedOut(b);
    LowBitsInjective(a as bv16, b as bv16, 8);
  }

  lemma {:induction false} BitsInjective(f: seq<bv8>, g: seq<bv8>)
    requires |f| == |g| && Bits(f) == Bits(g)
    ensures f == g
    decreases |f|
  {
    hide LowBits;
    if f != [] {
      assert LowBits(f[0] as bv16, 8) == Bits(f)[..8] && LowBits(g[0] as bv16, 8) == Bits(g)[..8];
      ByteBitsInjective(f[0], g[0]);
      assert Bits(f[1..]) == Bits(f)[8..] && Bits(g[1..]) == Bits(g)[8..];
      BitsInjective(f[1..], g[1..]);
      assert f == [f[0]] + f[1..] && g == [g[0]] + g[1..];
    }
  }

  /** Bit `k` of the stream belongs to byte `k / 8`. */
  lemma {:induction false} BitsAt(data: seq<bv8>, k: nat)
    requires k < 8 * |data|
    ensures Bits(data)[k] == LowBits(data[k / 8] as bv16, 8)[k % 8]
    decreases |data|
  {
    hide LowBits;
    if k >= 8 {
      BitsAt(data[1..], k - 8);
    }
  }

  lemma OutsideWindow(F: seq<bool>, G: seq<bool>, lo: nat, hi: nat)
    requires |F| == |G| && lo <= hi <= |F|
    requires forall k :: 0 <= k < |F| && !(lo <= k < hi) ==> F[k] == G[k]
    ensures F == F[..lo] + F[lo..hi] + F[hi..] && G == F[..lo] + G[lo..hi] + F[hi..]
  {
  }

  /**
   Every error burst of at most 16 consecutive bits changes the CRC: two different frames of the
   same length whose bit streams agree outside one window of 16 bits have different CRCs.
   */
  lemma BurstErrorDetected(f: seq<bv8>, g: seq<bv8>, p: nat)
    requires |f| == |g| && f != g
    requires forall k :: 0 <= k < 8 * |f| && !(p <= k < p + 16) ==> Bits(f)[k] == Bits(g)[k]
    ensures Crc(f) != Crc(g)
  {
    hide Bits, BitsFrom, CrcFrom;
    var F, G := Bits(f), Bits(g);
    var lo := if p < |F| then p else |F|;
    var hi := if p + 16 < |F| then p + 16 else |F|;
    OutsideWindow(F, G, lo, hi);
    if F[lo..hi] == G[lo..hi] {
      BitsInjective(f, g);
    }
    WindowErrorDetected(0xFFFF, F[..lo], F[lo..hi], G[lo..hi], F[hi..]);
    CrcIsBits(0xFFFF, f);
    CrcIsBits(0xFFFF, g);
  }

  /** Changing any bytes within two adjacent positions changes the CRC. */
  lemma AdjacentBytesDetected(f: seq<bv8>, g: seq<bv8>, i: nat)
    requires |f| == |g| && f != g
    requires forall j :: 0 <= j < |f| && j != i && j != i + 1 ==> f[j] == g[j]
    ensures Crc(f) != Crc(g)
  {
    hide Bits, LowBits, Crc;
    forall k | 0 <= k < 8 * |f| && !(8 * i <= k < 8 * i + 16)
      ensures Bits(f)[k] == Bits(g)[k]
    {
      BitsAt(f, k);
      BitsAt(g, k);
    }
    BurstErrorDetected(f, g, 8 * i);
  }

  // ---------------------------------------------------------------- the trailer

  /** `data` followed by its CRC, low byte first. */
  function Framed(data: seq<bv8>): seq<bv8> {
    data + [Low(Crc(data)), High(Crc(data))]
  }

  lemma TrailerClears(c: bv16)
    ensures ByteFed(ByteFed(c, Low(c)), High(c)) == 0
  {
    var h := c ^ (c & 0xFF);
    ByteStepSplits(h);
    assert h & 0xFF == 0 && h >> 8 == c >> 8;
    assert ByteStep(0) == 0;
  }

  lemma FramedIsZero(data: seq<bv8>)
    ensures Crc(Framed(data)) == 0
  {
    hide ByteFed, Low, High;
    var c := Crc(data);
    var lo, hi := Low(c), High(c);
    CrcFromConcat(0xFFFF, data, [lo, hi]);
    assert [lo, hi][1..] == [hi] && [hi][1..] == [];
    assert CrcFrom(c, [lo, hi]) == CrcFrom(ByteFed(c, lo), [hi]);
    TrailerClears(c);
  }

  /** A received frame passes the zero test exactly when its last two bytes are the CRC of the rest. */
  lemma ZeroExactlyWhenFramed(data: seq<bv8>, x: bv8, y: bv8)
    ensures Crc(data + [x, y]) == 0 <==> data + [x, y] == Framed(data)
  {
    hide Crc;
    FramedIsZero(data);
    if data + [x, y] != Framed(data) {
      AdjacentBytesDetected(data + [x, y], Framed(data), |data|);
    }
  }
}
