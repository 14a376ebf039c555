/**
 Model of the MPU6050 driver: the 14-byte register dump read from address 0x3B
 is split into an acceleration triple (bytes 0-5) and a gyro triple (bytes 8-13),
 each decoded as three big-endian two's-complement 16-bit integers, and then
 scaled to g (1/16384) or to degrees per second (1/131).
 */
module Mpu6050 {

  /** An unsigned 8-bit register value. */
  type Byte = b: int | 0 <= b < 256

  const INT16_MIN: int := -32768
  const INT16_MAX: int := 32767
  const WORD_MODULUS: int := 0x1_0000

  /** Number of bytes the driver reads in one burst (bytearray(14)). */
  const DUMP_LENGTH: nat := 14
  /** Size of one packed '>hhh' record. */
  const TRIPLE_SIZE: nat := 6

  /** Sensitivity divisors of the default full-scale ranges (+-2 g, +-250 deg/s). */
  const ACCEL_LSB_PER_G: real := 16384.0
  const GYRO_LSB_PER_DPS: real := 131.0

  /** The contents of the driver's 14-byte buffer after a successful burst read. */
  type RegisterDump = s: seq<Byte> | |s| == DUMP_LENGTH
    witness [0, 0, 0, 0, 0, 0, 0, 0, 0, 0, 0, 0, 0, 0]

  predicate IsInt16(v: int) {
    INT16_MIN <= v <= INT16_MAX
  }

  /** `v` is the two's-complement value of the 16-bit word `word`: the unique
      signed 16-bit integer congruent to it modulo 2^16. */
  predicate IsTwosComplementOf(v: int, word: int) {
    IsInt16(v) && v % WORD_MODULUS == word
  }

  /** The big-endian word formed by a high and a low byte. */
  function Word(hi: Byte, lo: Byte): int {
    hi * 256 + lo
  }

  /** Struct code 'h' under '>': one big-endian signed 16-bit integer. */
  function Int16FromBytes(hi: Byte, lo: Byte): (v: int)
    ensures IsTwosComplementOf(v, Word(hi, lo))
    ensures v < 0 <==> hi >= 0x80
  {
    var word := Word(hi, lo);
    if word < 0x8000 then word else word - WORD_MODULUS
  }

  /** Packing with struct code 'h' under '>': the high byte first. */
  function Int16ToBytes(v: int): (bytes: seq<Byte>)
    requires IsInt16(v)
    ensures |bytes| == 2
    ensures IsTwosComplementOf(v, Word(bytes[0], bytes[1]))
  {
    var word := if v < 0 then v + WORD_MODULUS else v;
    [word / 256, word % 256]
  }

  /** Two's complement is a function of the word: at most one signed value fits. */
  lemma TwosComplementUnique(a: int, b: int, word: int)
    requires IsTwosComplementOf(a, word) && IsTwosComplementOf(b, word)
    ensures a == b
  {
  }

  /** Decoding an encoded value gives the value back. */
  lemma Int16RoundTrip(v: int)
    requires IsInt16(v)
    ensures var bytes := Int16ToBytes(v); Int16FromBytes(bytes[0], bytes[1]) == v
  {
    var bytes := Int16ToBytes(v);
    TwosComplementUnique(Int16FromBytes(bytes[0], bytes[1]), v, Word(bytes[0], bytes[1]));
  }

  /** Encoding a decoded value gives the two bytes back. */
  lemma BytesRoundTrip(hi: Byte, lo: Byte)
    ensures Int16ToBytes(Int16FromBytes(hi, lo)) == [hi, lo]
  {
  }

  /** A tuple of three integers, as `ustruct.unpack('>hhh', ...)` returns. */
  datatype Triple = Triple(x: int, y: int, z: int)

  const ZERO_TRIPLE: Triple := Triple(0, 0, 0)

  predicate IsInt16Triple(t: Triple) {
    IsInt16(t.x) && IsInt16(t.y) && IsInt16(t.z)
  }

  /** MicroPython's `ustruct.unpack` either yields the triple or raises
      ValueError because the buffer is shorter than the format needs. */
  datatype Unpacked = Unpacked(triple: Triple) | BufferTooSmall(needed: nat, actual: nat)

  /** '>hhh' packing of a triple: six bytes, each component high byte first. */
  function EncodeTriple(t: Triple): (data: seq<Byte>)
    requires IsInt16Triple(t)
    ensures |data| == TRIPLE_SIZE
  {
    Int16ToBytes(t.x) + Int16ToBytes(t.y) + Int16ToBytes(t.z)
  }

  /** `_convert_data`: unpack a buffer with format '>hhh'. MicroPython checks
      only that the buffer holds the six bytes the format needs and decodes
      the first six; bytes after them are ignored. */
  function ConvertData(data: seq<Byte>): (r: Unpacked)
    ensures r.Unpacked? <==> |data| >= TRIPLE_SIZE
    ensures r.BufferTooSmall? ==> r.needed == TRIPLE_SIZE && r.actual == |data|
    ensures r.Unpacked? ==> IsInt16Triple(r.triple)
    ensures r.Unpacked? ==>
              && IsTwosComplementOf(r.triple.x, Word(data[0], data[1]))
              && IsTwosComplementOf(r.triple.y, Word(data[2], data[3]))
              && IsTwosComplementOf(r.triple.z, Word(data[4], data[5]))
  {
    if |data| < TRIPLE_SIZE then BufferTooSmall(TRIPLE_SIZE, |data|)
    else Unpacked(Triple(Int16FromBytes(data[0], data[1]),
                         Int16FromBytes(data[2], data[3]),
                         Int16FromBytes(data[4], data[5])))
  }

  /** Only the first six bytes of a long enough buffer matter. */
  lemma TrailingBytesIgnored(data: seq<Byte>, extra: seq<Byte>)
    requires |data| == TRIPLE_SIZE
    ensures ConvertData(data + extra) == ConvertData(data)
  {
  }

  /** Unpacking a packed triple returns the same triple. */
  lemma TripleRoundTrip(t: Triple)
    requires IsInt16Triple(t)
    ensures ConvertData(EncodeTriple(t)) == Unpacked(t)
  {
    var data := EncodeTriple(t);
    Int16RoundTrip(t.x);
    Int16RoundTrip(t.y);
    Int16RoundTrip(t.z);
    assert data[0..2] == Int16ToBytes(t.x);
    assert data[2..4] == Int16ToBytes(t.y);
    assert data[4..6] == Int16ToBytes(t.z);
  }

  /** Every six-byte buffer is the packing of the triple it unpacks to, so
      the decoder loses no information. */
  lemma DataRoundTrip(data: seq<Byte>)
    requires |data| == TRIPLE_SIZE
    ensures ConvertData(data).Unpacked?
    ensures EncodeTriple(ConvertData(data).triple) == data
  {
    BytesRoundTrip(data[0], data[1]);
    BytesRoundTrip(data[2], data[3]);
    BytesRoundTrip(data[4], data[5]);
  }

  /** Outcome of the I2C burst read `readfrom_mem_into(addr, 0x3B, buf)`. */
  datatype SensorRead = ReadOk(dump: RegisterDump) | ReadOSError

  /** Decode a six-byte slice of the dump; the slice always has the right size. */
  function DecodeSlice(dump: RegisterDump, start: nat): (t: Triple)
    requires start + TRIPLE_SIZE <= DUMP_LENGTH
    ensures IsInt16Triple(t)
    ensures EncodeTriple(t) == dump[start..start + TRIPLE_SIZE]
  {
    DataRoundTrip(dump[start..start + TRIPLE_SIZE]);
    ConvertData(dump[start..start + TRIPLE_SIZE]).triple
  }

  /** `read_accel_gyro`: acceleration from bytes 0-5, gyro from bytes 8-13,
      temperature bytes 6-7 ignored; zeros for both when the read fails. */
  function ReadAccelGyro(read: SensorRead): (r: (Triple, Triple))
    ensures IsInt16Triple(r.0) && IsInt16Triple(r.1)
    ensures read.ReadOSError? ==> r.0 == ZERO_TRIPLE && r.1 == ZERO_TRIPLE
    ensures read.ReadOk? ==> EncodeTriple(r.0) == read.dump[0..6]
    ensures read.ReadOk? ==> EncodeTriple(r.1) == read.dump[8..14]
  {
    match read
    case ReadOSError => (ZERO_TRIPLE, ZERO_TRIPLE)
    case ReadOk(dump) => (DecodeSlice(dump, 0), DecodeSlice(dump, 8))
  }

  /** Encoding is injective, so equal packings mean equal triples. */
  lemma EncodeInjective(a: Triple, b: Triple)
    requires IsInt16Triple(a) && IsInt16Triple(b)
    requires EncodeTriple(a) == EncodeTriple(b)
    ensures a == b
  {
    TripleRoundTrip(a);
    TripleRoundTrip(b);
  }

  /** Acceleration depends only on bytes 0-5 and gyro only on bytes 8-13. */
  lemma ReadDependsOnlyOnItsBytes(d1: RegisterDump, d2: RegisterDump)
    ensures d1[0..6] == d2[0..6] ==> ReadAccelGyro(ReadOk(d1)).0 == ReadAccelGyro(ReadOk(d2)).0
    ensures d1[8..14] == d2[8..14] ==> ReadAccelGyro(ReadOk(d1)).1 == ReadAccelGyro(ReadOk(d2)).1
  {
    var r1 := ReadAccelGyro(ReadOk(d1));
    var r2 := ReadAccelGyro(ReadOk(d2));
    if d1[0..6] == d2[0..6] {
      EncodeInjective(r1.0, r2.0);
    }
    if d1[8..14] == d2[8..14] {
      EncodeInjective(r1.1, r2.1);
    }
  }

  /** A dictionary {'x': .., 'y': .., 'z': ..} of scaled readings. */
  datatype Axes = Axes(x: real, y: real, z: real)

  /** `get_accel_data`: raw acceleration over 16384 LSB/g. */
  function GetAccelData(read: SensorRead): (a: Axes)
    ensures var raw := ReadAccelGyro(read).0;
      && a.x * ACCEL_LSB_PER_G == raw.x as real
      && a.y * ACCEL_LSB_PER_G == raw.y as real
      && a.z * ACCEL_LSB_PER_G == raw.z as real
    ensures read.ReadOSError? ==> a == Axes(0.0, 0.0, 0.0)
  {
    var raw := ReadAccelGyro(read).0;
    Axes(raw.x as real / ACCEL_LSB_PER_G, raw.y as real / ACCEL_LSB_PER_G, raw.z as real / ACCEL_LSB_PER_G)
  }

  /** `get_gyro_data`: raw angular rate over 131 LSB per degree per second. */
  function GetGyroData(read: SensorRead): (g: Axes)
    ensures var raw := ReadAccelGyro(read).1;
      && g.x * GYRO_LSB_PER_DPS == raw.x as real
      && g.y * GYRO_LSB_PER_DPS == raw.y as real
      && g.z * GYRO_LSB_PER_DPS == raw.z as real
    ensures read.ReadOSError? ==> g == Axes(0.0, 0.0, 0.0)
  {
    var raw := ReadAccelGyro(read).1;
    Axes(raw.x as real / GYRO_LSB_PER_DPS, raw.y as real / GYRO_LSB_PER_DPS, raw.z as real / GYRO_LSB_PER_DPS)
  }

  /** Every axis lies within [lo, hi]. */
  predicate AxesWithin(a: Axes, lo: real, hi: real) {
    lo <= a.x <= hi && lo <= a.y <= hi && lo <= a.z <= hi
  }

  /** Acceleration is confined to the +-2 g range of the 16-bit converter. */
  lemma AccelBounds(read: SensorRead)
    ensures AxesWithin(GetAccelData(read), -2.0, INT16_MAX as real / ACCEL_LSB_PER_G)
  {
  }

  /** Angular rate is confined to [-32768/131, 32767/131] degrees per second. */
  lemma GyroBounds(read: SensorRead)
    ensures AxesWithin(GetGyroData(read), INT16_MIN as real / GYRO_LSB_PER_DPS,
                       INT16_MAX as real / GYRO_LSB_PER_DPS)
  {
  }
}
