/**
 The checksum of the EEPROM log records: the shift-trick loop of the firmware against the
 bit-serial CRC with polynomial 0x1021 and initial value 0xFFFF.
 */
module LogCrc {
  import opened Basics

  /** One shift of the CRC register: out goes the high bit, and the polynomial is folded in if it was set. */
  function BitStep(v: bv16): bv16 {
    if v & 0x8000 != 0 then (v << 1) ^ 0x1021 else v << 1
  }

  function ByteStep(v: bv16): bv16 {
    BitStep(BitStep(BitStep(BitStep(BitStep(BitStep(BitStep(BitStep(v))))))))
  }

  /** The register after one byte: the byte is folded into the high half, then shifted out. */
  function ByteFed(v: bv16, b: bv8): bv16 {
    ByteStep(v ^ (b as bv16 << 8))
  }

  function CrcFrom(v: bv16, data: seq<bv8>): bv16
    decreases |data|
  {
    if data == [] then v else CrcFrom(ByteFed(v, data[0]), data[1..])
  }

  function Crc(data: seq<bv8>): bv16 {
    CrcFrom(0xFFFF, data)
  }

  lemma CheckValueSteps()
    ensures ByteFed(0xFFFF, 0x31) == 0xC782 && ByteFed(0xC782, 0x32) == 0x3DBA && ByteFed(0x3DBA, 0x33) == 0x5BCE
            && ByteFed(0x5BCE, 0x34) == 0x5349 && ByteFed(0x5349, 0x35) == 0x4560
    ensures ByteFed(0x4560, 0x36) == 0x2EF4 && ByteFed(0x2EF4, 0x37) == 0x7718 && ByteFed(0x7718, 0x38) == 0xA12B
            && ByteFed(0xA12B, 0x39) == 0x29B1
  {
  }

  /** The check value of the CRC with polynomial 0x1021 and initial value 0xFFFF: the checksum of the digits 1 to 9. */
  lemma CheckValue()
    ensures Crc([0x31, 0x32, 0x33, 0x34, 0x35, 0x36, 0x37, 0x38, 0x39]) == 0x29B1 && Crc([]) == 0xFFFF
  {
    CheckValueSteps();
    hide ByteFed;
    var d8: seq<bv8> := [0x39];
    assert d8[1..] == [] && CrcFrom(0xA12B, d8) == 0x29B1;
    var d7: seq<bv8> := [0x38, 0x39];
    assert d7[1..] == d8 && CrcFrom(0x7718, d7) == 0x29B1;
    var d6: seq<bv8> := [0x37, 0x38, 0x39];
    assert d6[1..] == d7 && CrcFrom(0x2EF4, d6) == 0x29B1;
    var d5: seq<bv8> := [0x36, 0x37, 0x38, 0x39];
    assert d5[1..] == d6 && CrcFrom(0x4560, d5) == 0x29B1;
    var d4: seq<bv8> := [0x35, 0x36, 0x37, 0x38, 0x39];
    assert d4[1..] == d5 && CrcFrom(0x5349, d4) == 0x29B1;
    var d3: seq<bv8> := [0x34, 0x35, 0x36, 0x37, 0x38, 0x39];
    assert d3[1..] == d4 && CrcFrom(0x5BCE, d3) == 0x29B1;
    var d2: seq<bv8> := [0x33, 0x34, 0x35, 0x36, 0x37, 0x38, 0x39];
    assert d2[1..] == d3 && CrcFrom(0x3DBA, d2) == 0x29B1;
    var d1: seq<bv8> := [0x32, 0x33, 0x34, 0x35, 0x36, 0x37, 0x38, 0x39];
    assert d1[1..] == d2 && CrcFrom(0xC782, d1) == 0x29B1;
    var d0: seq<bv8> := [0x31, 0x32, 0x33, 0x34, 0x35, 0x36, 0x37, 0x38, 0x39];
    assert d0[1..] == d1 && CrcFrom(0xFFFF, d0) == 0x29B1;
  }

  function Up(l: bv16): bv16 {
    l << 1
  }

  predicate Top(l: bv16) {
    l & 0x8000 != 0
  }

  function Steps(v: bv16, n: nat): bv16
    decreases n
  {
    if n == 0 then v else Steps(BitStep(v), n - 1)
  }

  function Raised(l: bv16, n: nat): bv16
    decreases n
  {
    if n == 0 then l else Raised(Up(l), n - 1)
  }

  /** No set bit of `l` is lost when it is raised by `n`. */
  predicate Room(l: bv16, n: nat)
    decreases n
  {
    n > 0 ==> !Top(l) && Room(Up(l), n - 1)
  }

  lemma LowShifts(h: bv16, l: bv16)
    requires l & 0x8000 == 0
    ensures (h ^ l) & 0x8000 == h & 0x8000 && (h ^ l) << 1 == (h << 1) ^ (l << 1)
  {
  }

  lemma BitsPassThrough(x: bv16, h: bv16, l: bv16, up: bv16)
    requires x == h ^ l && up == l << 1 && l & 0x8000 == 0
    ensures BitStep(x) == BitStep(h) ^ up
  {
    LowShifts(h, l);
    if h & 0x8000 != 0 {
    } else {
    }
  }

  /** Bits below the highest one pass through a shift unharmed. */
  lemma LowPassesThrough(h: bv16, l: bv16)
    requires !Top(l)
    ensures BitStep(Xor(h, l)) == Xor(BitStep(h), Up(l))
  {
    hide BitStep;
    var x, up := Xor(h, l), Up(l);
    BitsPassThrough(x, h, l, up);
  }

  lemma {:induction false} LowStepsPass(h: bv16, l: bv16, n: nat)
    requires Room(l, n)
    ensures Steps(Xor(h, l), n) == Xor(Steps(h, n), Raised(l, n))
    decreases n
  {
    hide BitStep, Xor, Up, Top;
    if n > 0 {
      LowPassesThrough(h, l);
      LowStepsPass(BitStep(h), Up(l), n - 1);
    }
  }

  lemma EightSteps(v: bv16)
    ensures Steps(v, 8) == ByteStep(v)
  {
    hide BitStep;
    var v1 := BitStep(v);
    var v2 := BitStep(v1);
    var v3 := BitStep(v2);
    var v4 := BitStep(v3);
    assert Steps(v, 8) == Steps(v1, 7) == Steps(v2, 6) == Steps(v3, 5) == Steps(v4, 4);
    var v5 := BitStep(v4);
    var v6 := BitStep(v5);
    assert Steps(v4, 4) == Steps(v5, 3) == Steps(v6, 2) == Steps(BitStep(v6), 1);
  }

  lemma TopClear(l: bv16)
    requires l & 0xFF00 == 0
    ensures !Top(l) && !Top(l << 1) && !Top(l << 2) && !Top(l << 3)
    ensures !Top(l << 4) && !Top(l << 5) && !Top(l << 6) && !Top(l << 7)
  {
  }

  lemma UpByOne(l: bv16)
    ensures Up(l) == l << 1 && Up(l << 1) == l << 2 && Up(l << 2) == l << 3 && Up(l << 3) == l << 4
    ensures Up(l << 4) == l << 5 && Up(l << 5) == l << 6 && Up(l << 6) == l << 7 && Up(l << 7) == l << 8
  {
  }

  lemma ByteRaised(l: bv16)
    ensures Raised(l, 8) == l << 8
  {
    hide Up;
    UpByOne(l);
    assert Raised(l, 8) == Raised(l << 1, 7) == Raised(l << 2, 6) == Raised(l << 3, 5) == Raised(l << 4, 4);
    assert Raised(l << 4, 4) == Raised(l << 5, 3) == Raised(l << 6, 2) == Raised(l << 7, 1);
  }

  lemma ByteHasRoom(l: bv16)
    requires l & 0xFF00 == 0
    ensures Room(l, 8)
  {
    hide Top, Up;
    TopClear(l);
    UpByOne(l);
    assert Room(l << 6, 2) by { assert Room(l << 7, 1); }
    assert Room(l << 4, 4) by { assert Room(l << 5, 3); }
    assert Room(l << 2, 6) by { assert Room(l << 3, 5); }
    assert Room(l << 1, 7);
  }

  /** Eight shifts move the low byte up untouched. */
  lemma LowBytePasses(h: bv16, l: bv16)
    requires l & 0xFF00 == 0
    ensures ByteStep(Xor(h, l)) == Xor(ByteStep(h), l << 8)
  {
    hide ByteStep, Xor, Steps, Raised, Room;
    ByteHasRoom(l);
    ByteRaised(l);
    LowStepsPass(h, l, 8);
    EightSteps(h);
    EightSteps(Xor(h, l));
  }

  /** The folded byte of the loop body, and the three copies of it. */
  function Fold(x: bv8): bv8 {
    x ^ (x >> 4)
  }

  function Spread(y: bv16): bv16 {
    (y << 12) ^ (y << 5) ^ y
  }

  /** Eight shifts of a register that holds one high byte. */
  lemma TrickOnHighByte(x: bv8)
    ensures ByteStep(x as bv16 << 8) == Spread(Fold(x) as bv16)
  {
  }

  lemma Halves(v: bv16, b: bv8, w: bv16, x: bv8, h: bv16, l: bv16)
    requires w == v ^ (b as bv16 << 8) && x == (v >> 8) as bv8 ^ b && h == x as bv16 << 8 && l == v & 0xFF
    ensures w == h ^ l && l & 0xFF00 == 0 && l << 8 == v << 8
  {
  }

  lemma IsXor(a: bv16, b: bv16, c: bv16)
    requires c == a ^ b
    ensures c == Xor(a, b)
  {
  }

  lemma LoopBodySpreads(v: bv16, y: bv16)
    ensures (v << 8) ^ (y << 12) ^ (y << 5) ^ y == Xor(Spread(y), v << 8)
  {
  }

  /** The loop body of the source is eight shifts of the register with the byte folded in. */
  lemma TrickIsByteFed(v: bv16, b: bv8)
    ensures Xor(Spread(Fold((v >> 8) as bv8 ^ b) as bv16), v << 8) == ByteFed(v, b)
  {
    hide ByteStep, Spread, Fold, Xor;
    var w, x, l := v ^ (b as bv16 << 8), (v >> 8) as bv8 ^ b, v & 0xFF;
    var h := x as bv16 << 8;
    Halves(v, b, w, x, h, l);
    IsXor(h, l, w);
    LowBytePasses(h, l);
    TrickOnHighByte(x);
  }

  method Crc16(data: array<bv8>, length: nat) returns (crc: bv16)
    requires length <= data.Length
    ensures crc == Crc(data[..length])
  {
    hide ByteFed, Xor, Spread, Fold;
    crc := 0xFFFF;
    var i := 0;
    while i < length
      invariant i <= length
      invariant CrcFrom(crc, data[i..length]) == Crc(data[..length])
    {
      var b := data[i];
      TrickIsByteFed(crc, b);
      assert data[i..length][1..] == data[i + 1..length];
      var x := (crc >> 8) as bv8 ^ b;
      var y := Fold(x) as bv16;
      LoopBodySpreads(crc, y);
      crc := (crc << 8) ^ (y << 12) ^ (y << 5) ^ y;
      i := i + 1;
    }
  }

  // ---------------------------------------------------------------- the trailer

  /** `data` followed by its CRC, high byte first. */
  function Sealed(data: seq<bv8>): seq<bv8> {
    data + [High(Crc(data)), Low(Crc(data))]
  }

  /** The shift undone. */
  function Back(u: bv16): bv16 {
    if u & 1 == 1 then (u >> 1) ^ 0x8810 else u >> 1
  }

  lemma BackOfCarry(v: bv16, u: bv16)
    requires v & 0x8000 != 0 && u == (v << 1) ^ 0x1021
    ensures u & 1 == 1 && (u >> 1) ^ 0x8810 == v
  {
  }

  lemma BackOfShift(v: bv16, u: bv16)
    requires v & 0x8000 == 0 && u == v << 1
    ensures u & 1 != 1 && u >> 1 == v
  {
  }

  lemma BackUndoesStep(v: bv16)
    ensures Back(BitStep(v)) == v
  {
    if v & 0x8000 != 0 {
      BackOfCarry(v, (v << 1) ^ 0x1021);
    } else {
      BackOfShift(v, v << 1);
    }
  }

  lemma BitStepInjective(a: bv16, b: bv16)
    requires BitStep(a) == BitStep(b)
    ensures a == b
  {
    hide *;
    BackUndoesStep(a);
    BackUndoesStep(b);
  }

  lemma ByteStepInjective(a: bv16, b: bv16)
    requires ByteStep(a) == ByteStep(b)
    ensures a == b
  {
    hide BitStep;
    var a1, b1 := BitStep(a), BitStep(b);
    var a2, b2 := BitStep(a1), BitStep(b1);
    var a3, b3 := BitStep(a2), BitStep(b2);
    var a4, b4 := BitStep(a3), BitStep(b3);
    var a5, b5 := BitStep(a4), BitStep(b4);
    var a6, b6 := BitStep(a5), BitStep(b5);
    BitStepInjective(BitStep(a6), BitStep(b6));
    BitStepInjective(a6, b6);
    BitStepInjective(a5, b5);
    BitStepInjective(a4, b4);
    BitStepInjective(a3, b3);
    BitStepInjective(a2, b2);
    BitStepInjective(a1, b1);
    BitStepInjective(a, b);
  }

  /** A register that holds one low byte raises it. */
  lemma LowByteRises(y: bv8)
    ensures ByteStep(y as bv16) == y as bv16 << 8
  {
  }

  lemma ZeroStays()
    ensures ByteStep(0) == 0
  {
  }

  lemma SplitRegister(c: bv16, x: bv8, y: bv8)
    ensures c ^ (x as bv16 << 8) == y as bv16 <==> x == High(c) && y == Low(c)
  {
  }

  lemma OnlyOwnByteClears(u: bv16, y: bv8)
    ensures ByteFed(u, y) == 0 <==> u == y as bv16 << 8
  {
    hide ByteStep;
    ZeroStays();
    if ByteFed(u, y) == 0 {
      ByteStepInjective(u ^ (y as bv16 << 8), 0);
    }
  }

  /** Two more bytes bring the register to zero exactly when they are the register's own bytes. */
  lemma TrailerClears(c: bv16, x: bv8, y: bv8)
    ensures ByteFed(ByteFed(c, x), y) == 0 <==> x == High(c) && y == Low(c)
  {
    hide ByteStep, High, Low;
    var w := c ^ (x as bv16 << 8);
    OnlyOwnByteClears(ByteFed(c, x), y);
    LowByteRises(y);
    SplitRegister(c, x, y);
    if ByteStep(w) == y as bv16 << 8 {
      ByteStepInjective(w, y as bv16);
    }
  }

  lemma {:induction false} CrcFromConcat(v: bv16, a: seq<bv8>, b: seq<bv8>)
    ensures CrcFrom(v, a + b) == CrcFrom(CrcFrom(v, a), b)
    decreases |a|
  {
    hide ByteFed;
    if a == [] {
      assert a + b == b;
    } else {
      CrcFromConcat(ByteFed(v, a[0]), a[1..], b);
      assert (a + b)[1..] == a[1..] + b;
    }
  }

  /** Bytes pass the integrity check exactly when the last two are the CRC of the rest. */
  lemma VerifiesExactlyWhenSealed(data: seq<bv8>, x: bv8, y: bv8)
    ensures Crc(data + [x, y]) == 0 <==> data + [x, y] == Sealed(data)
  {
    hide ByteFed, High, Low;
    var c := Crc(data);
    CrcFromConcat(0xFFFF, data, [x, y]);
    assert [x, y][1..] == [y] && [y][1..] == [];
    assert CrcFrom(c, [x, y]) == CrcFrom(ByteFed(c, x), [y]);
    TrailerClears(c, x, y);
    assert (data + [x, y])[|data|] == x && (data + [x, y])[|data| + 1] == y;
    assert Sealed(data)[|data|] == High(c) && Sealed(data)[|data| + 1] == Low(c);
  }
}
