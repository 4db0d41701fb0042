/** The checksum engine: CRC-16 with generator polynomial 0x1021, most
    significant bit first, no reflection and no final XOR, started from the
    register value 0xFFFF (the CRC-16/CCITT-FALSE parameter set).

    The source keeps the register in a JavaScript number and updates it with
    the 32-bit bitwise operators, so it is a `bv32` here; the register never
    needs more than 17 bits, so no 32-bit wrap-around can occur. */
module Crc16 {
  import opened Bytes

  const Polynomial: bv32 := 0x1021
  const Initial: bv32 := 0xFFFF

  /** One pass of the inner loop: shift left, XOR in the polynomial when the
      bit shifted out was set, and mask back to 16 bits. */
  function BitStep(crc: bv32): (r: bv32)
    ensures r <= 0xFFFF
  {
    if crc & 0x8000 != 0 then ((crc << 1) ^ Polynomial) & 0xFFFF else (crc << 1) & 0xFFFF
  }

  /** `k` passes of the inner loop. */
  function BitSteps(crc: bv32, k: nat): (r: bv32)
    ensures crc <= 0xFFFF || k > 0 ==> r <= 0xFFFF
  {
    if k == 0 then crc else BitStep(BitSteps(crc, k - 1))
  }

  /** The byte `b` XORed into the high half of the register (`crc ^= b << 8`). */
  function Load(crc: bv32, b: Byte): (r: bv32)
    ensures crc <= 0xFFFF ==> r <= 0xFFFF
    ensures r & 0xFF == crc & 0xFF
  {
    crc ^ (((b as bv8) as bv32) << 8)
  }

  /** One pass of the outer loop: load a byte, then eight bit steps. */
  function ShiftIn(crc: bv32, b: Byte): (r: bv32)
    ensures r <= 0xFFFF
  {
    BitSteps(Load(crc, b), 8)
  }

  /** The register after the outer loop has consumed all of `data`. */
  function Register(data: seq<Byte>): (r: bv32)
    ensures r <= 0xFFFF
  {
    if |data| == 0 then Initial else ShiftIn(Register(data[..|data| - 1]), data[|data| - 1])
  }

  /** `crc >> 8`, for a 16-bit register. */
  function HighByte(crc: bv32): Byte
    requires crc <= 0xFFFF
  {
    (crc >> 8) as int
  }

  /** `crc & 0xFF`. */
  function LowByte(crc: bv32): Byte
  {
    (crc & 0xFF) as int
  }

  /** The two bytes are the big-endian form of the register. */
  lemma BigEndian(crc: bv32)
    requires crc <= 0xFFFF
    ensures HighByte(crc) as int * 256 + LowByte(crc) as int == crc as int
  {
  }

  /** Distinct registers are distinct numbers. */
  lemma DistinctAsNumbers(x: bv32, y: bv32)
    requires x != y
    ensures x as int != y as int
  {
    assert (x as int) as bv32 == x;
    assert (y as int) as bv32 == y;
  }

  /** The two checksum bytes: the final register, most significant byte first. */
  function Checksum(data: seq<Byte>): (r: seq<Byte>)
    ensures |r| == 2
    ensures r[0] as int * 256 + r[1] as int == Register(data) as int
    ensures data == [] ==> r == [0xFF, 0xFF]
  {
    var crc := Register(data);
    BigEndian(crc);
    [HighByte(crc), LowByte(crc)]
  }

  /** The source's `crc16`: a register updated by nested loops over the bytes
      and their eight bits. */
  method Crc16(data: seq<Byte>) returns (r: seq<Byte>)
    ensures r == Checksum(data)
  {
    var crc: bv32 := 0xFFFF;
    var polynomial: bv32 := 0x1021;
    for i := 0 to |data|
      invariant crc == Register(data[..i])
    {
      crc := crc ^ (((data[i] as bv8) as bv32) << 8);
      ghost var loaded := crc;
      for j := 0 to 8
        invariant crc == BitSteps(loaded, j)
      {
        if crc & 0x8000 != 0 {
          crc := ((crc << 1) ^ polynomial) & 0xFFFF;
        } else {
          crc := (crc << 1) & 0xFFFF;
        }
      }
      assert data[..i + 1][..i] == data[..i];
    }
    assert data[..|data|] == data;
    r := [HighByte(crc), LowByte(crc)];
  }

  // Error detection: every step of the register update is injective, so two
  // inputs of equal length that differ in a single byte have different
  // checksums.

  /** The polynomial is odd and a shifted register is even, so the low bit of
      a step's result tells which branch was taken. */
  lemma BitStepLowBit(x: bv32)
    ensures BitStep(x) & 1 == (if x & 0x8000 != 0 then 1 else 0)
  {
  }

  lemma BitStepInjective(x: bv32, y: bv32)
    requires x <= 0xFFFF && y <= 0xFFFF && BitStep(x) == BitStep(y)
    ensures x == y
  {
    BitStepLowBit(x);
    BitStepLowBit(y);
    if x & 0x8000 != 0 {
      ShiftedXorInjective(x, y);
    } else {
      ShiftedInjective(x, y);
    }
  }

  lemma ShiftedXorInjective(x: bv32, y: bv32)
    requires x <= 0xFFFF && y <= 0xFFFF && x & 0x8000 != 0 && y & 0x8000 != 0
    requires ((x << 1) ^ Polynomial) & 0xFFFF == ((y << 1) ^ Polynomial) & 0xFFFF
    ensures x == y
  {
  }

  lemma ShiftedInjective(x: bv32, y: bv32)
    requires x <= 0xFFFF && y <= 0xFFFF && x & 0x8000 == 0 && y & 0x8000 == 0
    requires (x << 1) & 0xFFFF == (y << 1) & 0xFFFF
    ensures x == y
  {
  }

  lemma {:induction false} BitStepsInjective(x: bv32, y: bv32, k: nat)
    requires x <= 0xFFFF && y <= 0xFFFF && BitSteps(x, k) == BitSteps(y, k)
    ensures x == y
  {
    if k > 0 {
      BitStepInjective(BitSteps(x, k - 1), BitSteps(y, k - 1));
      BitStepsInjective(x, y, k - 1);
    }
  }

  lemma ByteToBits(b: Byte)
    ensures (b as bv8) as int == b
  {
    // Splitting the range keeps the solver's int/bit-vector conversion small.
    if b < 32 {} else if b < 64 {} else if b < 96 {} else if b < 128 {}
    else if b < 160 {} else if b < 192 {} else if b < 224 {} else {}
  }

  lemma ShiftInInjectiveInByte(crc: bv32, a: Byte, b: Byte)
    requires crc <= 0xFFFF && a != b
    ensures ShiftIn(crc, a) != ShiftIn(crc, b)
  {
    ByteToBits(a);
    ByteToBits(b);
    var x, y := a as bv8, b as bv8;
    assert ((x as bv32) << 8) != ((y as bv32) << 8);
    if ShiftIn(crc, a) == ShiftIn(crc, b) {
      BitStepsInjective(Load(crc, a), Load(crc, b), 8);
    }
  }

  lemma ShiftInInjectiveInRegister(x: bv32, y: bv32, b: Byte)
    requires x <= 0xFFFF && y <= 0xFFFF && x != y
    ensures ShiftIn(x, b) != ShiftIn(y, b)
  {
    if ShiftIn(x, b) == ShiftIn(y, b) {
      BitStepsInjective(Load(x, b), Load(y, b), 8);
    }
  }

  lemma {:induction false} RegisterDetectsByteChange(a: seq<Byte>, b: seq<Byte>, i: nat)
    requires |a| == |b| && i < |a| && a[i] != b[i]
    requires forall j :: 0 <= j < |a| && j != i ==> a[j] == b[j]
    ensures Register(a) != Register(b)
    decreases |a|
  {
    var n := |a| - 1;
    if n == i {
      assert a[..n] == b[..n];
      ShiftInInjectiveInByte(Register(a[..n]), a[n], b[n]);
    } else {
      RegisterDetectsByteChange(a[..n], b[..n], i);
      ShiftInInjectiveInRegister(Register(a[..n]), Register(b[..n]), a[n]);
    }
  }

  /** Distinct 16-bit registers give distinct checksum bytes. */
  lemma BytesDistinguishRegisters(x: bv32, y: bv32)
    requires x <= 0xFFFF && y <= 0xFFFF && x != y
    ensures HighByte(x) != HighByte(y) || LowByte(x) != LowByte(y)
  {
    DistinctAsNumbers(x, y);
    BigEndian(x);
    BigEndian(y);
  }

  /** A single corrupted byte (in particular a single flipped bit) always
      changes the checksum. */
  lemma ChecksumDetectsByteChange(a: seq<Byte>, b: seq<Byte>, i: nat)
    requires |a| == |b| && i < |a| && a[i] != b[i]
    requires forall j :: 0 <= j < |a| && j != i ==> a[j] == b[j]
    ensures Checksum(a) != Checksum(b)
  {
    RegisterDetectsByteChange(a, b, i);
    BytesDistinguishRegisters(Register(a), Register(b));
  }

  /** Consuming one more byte is one more turn of the outer loop. */
  lemma RegisterAppend(data: seq<Byte>, b: Byte)
    ensures Register(data + [b]) == ShiftIn(Register(data), b)
  {
    assert (data + [b])[..|data|] == data;
  }

  /** The check value of CRC-16/CCITT-FALSE: the checksum of the ASCII text
      "123456789" is 0x29B1. */
  lemma CheckValue()
    ensures Checksum([0x31, 0x32, 0x33, 0x34, 0x35, 0x36, 0x37, 0x38, 0x39]) == [0x29, 0xB1]
  {
    var d: seq<Byte> := [];
    assert Register(d) == 0xFFFF;
    assert ShiftIn(0xFFFF, 0x31) == 0xC782;
    RegisterAppend(d, 0x31); d := d + [0x31];
    assert ShiftIn(0xC782, 0x32) == 0x3DBA;
    RegisterAppend(d, 0x32); d := d + [0x32];
    assert ShiftIn(0x3DBA, 0x33) == 0x5BCE;
    RegisterAppend(d, 0x33); d := d + [0x33];
    assert ShiftIn(0x5BCE, 0x34) == 0x5349;
    RegisterAppend(d, 0x34); d := d + [0x34];
    assert ShiftIn(0x5349, 0x35) == 0x4560;
    RegisterAppend(d, 0x35); d := d + [0x35];
    assert ShiftIn(0x4560, 0x36) == 0x2EF4;
    RegisterAppend(d, 0x36); d := d + [0x36];
    assert ShiftIn(0x2EF4, 0x37) == 0x7718;
    RegisterAppend(d, 0x37); d := d + [0x37];
    assert ShiftIn(0x7718, 0x38) == 0xA12B;
    RegisterAppend(d, 0x38); d := d + [0x38];
    assert ShiftIn(0xA12B, 0x39) == 0x29B1;
    RegisterAppend(d, 0x39); d := d + [0x39];
    assert d == [0x31, 0x32, 0x33, 0x34, 0x35, 0x36, 0x37, 0x38, 0x39];
    assert Register(d) == 0x29B1;
  }
}
