/**
 * Motion processor packets: their length is computed when features are enabled, their fields are taken apart
 * when a packet is read.
 */
module DmpPacket {
  import opened Words

  type Mask = bv16

  const FEATURE_GESTURE: Mask := 0x003
  const FEATURE_QUAT: Mask := 0x014
  const FEATURE_PEDOMETER: Mask := 0x008
  const FEATURE_RAW_ACCEL: Mask := 0x040
  const FEATURE_ANY_GYRO: Mask := 0x180

  const SENSOR_QUAT: Mask := 0x100
  const SENSOR_ACCEL: Mask := 0x008
  const SENSOR_GYRO: Mask := 0x070

  predicate Has(mask: Mask, feature: Mask) {
    mask & feature != 0
  }

  // ---------- big-endian integers ----------

  type Int16 = i: int | -0x8000 <= i < 0x8000
  type Int32 = i: int | -0x8000_0000 <= i < 0x8000_0000

  function Bytes16(i: Int16): (bs: seq<Byte>)
    ensures |bs| == 2
  {
    var u := i % 0x1_0000;
    [u / 0x100, u % 0x100]
  }

  function Value16(high: Byte, low: Byte): Int16 {
    var u := 0x100 * (high as int) + low;
    if u < 0x8000 then u else u - 0x1_0000
  }

  function Bytes32(i: Int32): (bs: seq<Byte>)
    ensures |bs| == 4
  {
    var u := i % 0x1_0000_0000;
    var high, low := u / 0x1_0000, u % 0x1_0000;
    [high / 0x100, high % 0x100, low / 0x100, low % 0x100]
  }

  function Value32(b3: Byte, b2: Byte, b1: Byte, b0: Byte): Int32 {
    var u := 0x100_0000 * (b3 as int) + 0x1_0000 * (b2 as int) + 0x100 * (b1 as int) + b0;
    if u < 0x8000_0000 then u else u - 0x1_0000_0000
  }

  lemma Value16OfBytes(i: Int16)
    ensures var bs := Bytes16(i); Value16(bs[0], bs[1]) == i
  {
    var u := i % 0x1_0000;
    assert u == 0x100 * (u / 0x100) + u % 0x100;
    assert u == if i < 0 then i + 0x1_0000 else i;
  }

  lemma Value32OfBytes(i: Int32)
    ensures var bs := Bytes32(i); Value32(bs[0], bs[1], bs[2], bs[3]) == i
  {
    var u := i % 0x1_0000_0000;
    var high, low := u / 0x1_0000, u % 0x1_0000;
    assert u == 0x1_0000 * high + low;
    assert high == 0x100 * (high / 0x100) + high % 0x100;
    assert low == 0x100 * (low / 0x100) + low % 0x100;
    assert u == if i < 0 then i + 0x1_0000_0000 else i;
  }

  // ---------- the quaternion check ----------

  const MAG_MIN := 0x1000_0000 - 0x100_0000
  const MAG_MAX := 0x1000_0000 + 0x100_0000

  /** 32-bit two's complement. */
  function Wrap32(i: int): Int32 {
    (i + 0x8000_0000) % 0x1_0000_0000 - 0x8000_0000
  }

  /** The upper half of a 32-bit value; the shift is arithmetic. */
  function Upper(i: Int32): Int16 {
    i / 0x1_0000
  }

  datatype Quat = Quat(w: Int32, x: Int32, y: Int32, z: Int32)

  /** The check as computed: every sum wraps around at 32 bits. */
  predicate Normal(q: Quat) {
    var w: int, x: int, y: int, z: int := Upper(q.w), Upper(q.x), Upper(q.y), Upper(q.z);
    var sum := Wrap32(Wrap32(Wrap32(Wrap32(w * w) + Wrap32(x * x)) + Wrap32(y * y)) + Wrap32(z * z));
    MAG_MIN <= sum <= MAG_MAX
  }

  /** The exact sum of squares of the upper halves. */
  function MagnitudeSquared(q: Quat): int {
    var w, x, y, z := q.w / 65536, q.x / 65536, q.y / 65536, q.z / 65536;
    w * w + x * x + y * y + z * z
  }

  lemma ProductBound(a: nat, b: nat, c: nat)
    requires a <= c && b <= c
    ensures 0 <= a * b <= c * c
  {
  }

  lemma SquareBound(i: int)
    requires -0x8000 <= i < 0x8000
    ensures 0 <= i * i <= 0x4000_0000
  {
    var j := if i < 0 then -i else i;
    ProductBound(j, j, 0x8000);
    assert i * i == j * j;
  }

  lemma WrapSum(a: int, b: int)
    ensures Wrap32(Wrap32(a) + b) == Wrap32(a + b)
  {
  }

  lemma WrappedRange(s: int)
    requires 0 <= s <= 0x1_0000_0000
    ensures MAG_MIN <= Wrap32(s) <= MAG_MAX <==> MAG_MIN <= s <= MAG_MAX
  {
  }

  lemma WrappedSum(a: int, b: int, c: int, d: int)
    requires 0 <= a <= 0x4000_0000 && 0 <= b <= 0x4000_0000 && 0 <= c <= 0x4000_0000 && 0 <= d <= 0x4000_0000
    ensures Wrap32(Wrap32(Wrap32(Wrap32(a) + Wrap32(b)) + Wrap32(c)) + Wrap32(d)) == Wrap32(a + b + c + d)
  {
    hide Wrap32;
    SmallWraps(a);
    SmallWraps(b);
    SmallWraps(c);
    SmallWraps(d);
    WrapSum(a + b, c);
    WrapSum(a + b + c, d);
  }

  lemma SmallWraps(a: int)
    requires 0 <= a <= 0x4000_0000
    ensures Wrap32(a) == a
  {
  }

  /** The wrap-around never lets a wrong magnitude pass, nor stops a right one. */
  lemma NormalIsExact(q: Quat)
    ensures Normal(q) <==> 0x0F00_0000 <= MagnitudeSquared(q) <= 0x1100_0000
  {
    hide Wrap32;
    var w: int, x: int, y: int, z: int := Upper(q.w), Upper(q.x), Upper(q.y), Upper(q.z);
    SquareBound(w);
    SquareBound(x);
    SquareBound(y);
    SquareBound(z);
    WrappedSum(w * w, x * x, y * y, z * z);
    WrappedRange(w * w + x * x + y * y + z * z);
  }

  // ---------- packets ----------

  /** `dmp.feature_mask` and `dmp.packet_length` after a call with `mask`. */
  function PacketLength(mask: Mask): (n: Byte)
    ensures n <= 32
  {
    (if Has(mask, FEATURE_RAW_ACCEL) then 6 else 0)
    + (if Has(mask, FEATURE_ANY_GYRO) then 6 else 0)
    + (if Has(mask, FEATURE_QUAT) then 16 else 0)
    + (if Has(mask, FEATURE_GESTURE) then 4 else 0)
  }

  lemma LengthIs(mask: Mask)
    ensures PacketLength(mask) as int
         == (if Has(mask, FEATURE_RAW_ACCEL) then 6 else 0) + (if Has(mask, FEATURE_ANY_GYRO) then 6 else 0)
            + (if Has(mask, FEATURE_QUAT) then 16 else 0) + (if Has(mask, FEATURE_GESTURE) then 4 else 0)
  {
  }

  datatype Vector = Vector(x: Int16, y: Int16, z: Int16)

  /** What a packet brings; a field is present if its bit is set in `sensors`. */
  datatype Sample = Corrupt | Sample(quat: Quat, accel: Vector, gyro: Vector, sensors: Mask, offset: nat)

  function VectorAt(data: seq<Byte>, i: nat): Vector
    requires i + 6 <= |data|
  {
    Vector(Value16(data[i], data[i + 1]), Value16(data[i + 2], data[i + 3]), Value16(data[i + 4], data[i + 5]))
  }

  function QuatAt(data: seq<Byte>, i: nat): Quat
    requires i + 16 <= |data|
  {
    Quat(Value32(data[i], data[i + 1], data[i + 2], data[i + 3]),
         Value32(data[i + 4], data[i + 5], data[i + 6], data[i + 7]),
         Value32(data[i + 8], data[i + 9], data[i + 10], data[i + 11]),
         Value32(data[i + 12], data[i + 13], data[i + 14], data[i + 15]))
  }

  const NO_QUAT := Quat(0, 0, 0, 0)
  const NO_VECTOR := Vector(0, 0, 0)

  /** The bytes the decoder consumes before the gesture data, from the mask it has stored. */
  function FieldBytes(mask: Mask): nat {
    (if Has(mask, 0x014) then 16 else 0)
    + (if Has(mask, 0x040) then 6 else 0)
    + (if Has(mask, 0x180) then 6 else 0)
  }

  function GestureBytes(mask: Mask): nat {
    if Has(mask, 0x003) then 4 else 0
  }

  function Decode(mask: Mask, data: seq<Byte>): Sample
    requires FieldBytes(mask) <= |data|
  {
    var i0 := if Has(mask, FEATURE_QUAT) then 16 else 0;
    var quat := if Has(mask, FEATURE_QUAT) then QuatAt(data, 0) else NO_QUAT;
    if Has(mask, FEATURE_QUAT) && !Normal(quat) then
      Corrupt
    else
      var s0: Mask := if Has(mask, FEATURE_QUAT) then SENSOR_QUAT else 0;
      var accel := if Has(mask, FEATURE_RAW_ACCEL) then VectorAt(data, i0) else NO_VECTOR;
      var i1 := if Has(mask, FEATURE_RAW_ACCEL) then i0 + 6 else i0;
      var s1 := if Has(mask, FEATURE_RAW_ACCEL) then s0 | SENSOR_ACCEL else s0;
      var gyro := if Has(mask, FEATURE_ANY_GYRO) then VectorAt(data, i1) else NO_VECTOR;
      var i2 := if Has(mask, FEATURE_ANY_GYRO) then i1 + 6 else i1;
      var s2 := if Has(mask, FEATURE_ANY_GYRO) then s1 | SENSOR_GYRO else s1;
      Sample(quat, accel, gyro, s2, i2)
  }

  /** The device's side: quaternion, accelerometer, gyroscope, gesture, as far as they are enabled. */
  function VectorBytes(v: Vector): (bs: seq<Byte>)
    ensures |bs| == 6
  {
    Bytes16(v.x) + Bytes16(v.y) + Bytes16(v.z)
  }

  function QuatBytes(q: Quat): (bs: seq<Byte>)
    ensures |bs| == 16
  {
    Bytes32(q.w) + Bytes32(q.x) + Bytes32(q.y) + Bytes32(q.z)
  }

  function Encode(mask: Mask, q: Quat, accel: Vector, gyro: Vector, gesture: seq<Byte>): seq<Byte>
    requires |gesture| == 4
  {
    (if Has(mask, 0x014) then QuatBytes(q) else [])
    + ((if Has(mask, 0x040) then VectorBytes(accel) else [])
       + ((if Has(mask, 0x180) then VectorBytes(gyro) else [])
          + (if Has(mask, 0x003) then gesture else [])))
  }

  lemma PedometerIsNoField(mask: Mask)
    ensures var stored := mask | 0x008;
            && Has(stored, 0x014) == Has(mask, 0x014)
            && Has(stored, 0x040) == Has(mask, 0x040)
            && Has(stored, 0x180) == Has(mask, 0x180)
            && Has(stored, 0x003) == Has(mask, 0x003)
  {
  }

  /** The length computed on enabling is what the decoder consumes with the mask that was stored. */
  lemma LengthMatchesFields(mask: Mask)
    ensures var stored := mask | 0x008;
            PacketLength(mask) as nat == FieldBytes(stored) + GestureBytes(stored) <= 32
  {
  }

  lemma VectorRoundTrip(v: Vector, before: seq<Byte>, after: seq<Byte>)
    ensures VectorAt(before + (VectorBytes(v) + after), |before|) == v
  {
    hide Bytes16, Value16;
    Value16OfBytes(v.x);
    Value16OfBytes(v.y);
    Value16OfBytes(v.z);
    var n, all := |before|, before + (VectorBytes(v) + after);
    assert all[n..n + 6] == VectorBytes(v);
    forall i | 0 <= i < 6 ensures all[n + i] == VectorBytes(v)[i] {
      assert all[n + i] == all[n..n + 6][i];
    }
  }

  lemma QuatRoundTrip(q: Quat, after: seq<Byte>)
    ensures QuatAt(QuatBytes(q) + after, 0) == q
  {
    hide Bytes32, Value32;
    Value32OfBytes(q.w);
    Value32OfBytes(q.x);
    Value32OfBytes(q.y);
    Value32OfBytes(q.z);
    var all := QuatBytes(q) + after;
    forall i | 0 <= i < 16 ensures all[0 + i] == QuatBytes(q)[i] {
    }
  }

  function SensorMask(mask: Mask): Mask {
    (if Has(mask, 0x014) then 0x100 else 0)
    | (if Has(mask, 0x040) then 0x008 else 0)
    | (if Has(mask, 0x180) then 0x070 else 0)
  }

  /** What the reader of a packet made from these values should get. */
  function Expected(mask: Mask, q: Quat, accel: Vector, gyro: Vector): Sample {
    if Has(mask, 0x014) && !(0x0F00_0000 <= MagnitudeSquared(q) <= 0x1100_0000) then Corrupt
    else
      Sample(if Has(mask, 0x014) then q else NO_QUAT,
             if Has(mask, 0x040) then accel else NO_VECTOR,
             if Has(mask, 0x180) then gyro else NO_VECTOR,
             SensorMask(mask),
             PacketLength(mask) as nat - GestureBytes(mask))
  }

  /**
   * For every set of features: a packet is as long as `dmp.packet_length`, and decoding it with the stored mask
   * returns the values it was made from, the mask of the sensors present and the place of the gesture bytes;
   * a quaternion of the wrong magnitude is reported as corrupt.
   */
  lemma DecodeOfEncode(mask: Mask, q: Quat, accel: Vector, gyro: Vector, gesture: seq<Byte>)
    requires |gesture| == 4
    ensures var data := Encode(mask, q, accel, gyro, gesture);
            var stored := mask | 0x008;
            && |data| == PacketLength(mask) as nat
            && FieldBytes(stored) <= |data|
            && Decode(stored, data) == Expected(mask, q, accel, gyro)
            && (Has(mask, 0x003) ==> data[FieldBytes(stored)..] == gesture)
  {
    PedometerIsNoField(mask);
    NormalIsExact(q);
    hide Has, Normal, MagnitudeSquared, VectorAt, QuatAt, VectorBytes, QuatBytes;
    var a := if Has(mask, 0x014) then QuatBytes(q) else [];
    var b := if Has(mask, 0x040) then VectorBytes(accel) else [];
    var c := if Has(mask, 0x180) then VectorBytes(gyro) else [];
    var d := if Has(mask, 0x003) then gesture else [];
    QuatRoundTrip(q, b + (c + d));
    VectorRoundTrip(accel, a, c + d);
    VectorRoundTrip(gyro, a + b, d);
    AppendAssoc(a, b, c + d);
    AppendAssoc(a + b, c, d);
    assert (a + b + c + d)[|a + b + c|..] == d;
  }

  /** Bytes of a packet as a number modulo 2^16 or 2^32, the first being the most significant. */
  predicate Holds16(i: Int16, data: seq<Byte>, k: nat)
    requires k + 2 <= |data|
  {
    (i - (256 * (data[k] as int) + data[k + 1])) % 65536 == 0
  }

  predicate Holds32(i: Int32, data: seq<Byte>, k: nat)
    requires k + 4 <= |data|
  {
    (i - (16777216 * (data[k] as int) + 65536 * (data[k + 1] as int) + 256 * (data[k + 2] as int) + data[k + 3]))
    % 4294967296 == 0
  }

  lemma ValueHolds(data: seq<Byte>, k: nat)
    ensures k + 2 <= |data| ==> Holds16(Value16(data[k], data[k + 1]), data, k)
    ensures k + 4 <= |data| ==> Holds32(Value32(data[k], data[k + 1], data[k + 2], data[k + 3]), data, k)
  {
  }

  lemma VectorHolds(data: seq<Byte>, k: nat)
    requires k + 6 <= |data|
    ensures var v := VectorAt(data, k); Holds16(v.x, data, k) && Holds16(v.y, data, k + 2) && Holds16(v.z, data, k + 4)
  {
    hide Holds16, Holds32, Value16, Value32;
    ValueHolds(data, k);
    ValueHolds(data, k + 2);
    ValueHolds(data, k + 4);
  }

  lemma QuatHolds(data: seq<Byte>, k: nat)
    requires k + 16 <= |data|
    ensures var q := QuatAt(data, k);
            && Holds32(q.w, data, k) && Holds32(q.x, data, k + 4)
            && Holds32(q.y, data, k + 8) && Holds32(q.z, data, k + 12)
  {
    hide Holds16, Holds32, Value16, Value32;
    ValueHolds(data, k);
    ValueHolds(data, k + 4);
    ValueHolds(data, k + 8);
    ValueHolds(data, k + 12);
  }

  /** Where a reader finds the fields of any packet, made by the encoder or not. */
  lemma FieldsAt(mask: Mask, data: seq<Byte>)
    requires FieldBytes(mask) <= |data|
    ensures var s := Decode(mask, data);
            s.Sample? ==>
            && (Has(mask, 0x014) ==>
                  Holds32(s.quat.w, data, 0) && Holds32(s.quat.x, data, 4)
                  && Holds32(s.quat.y, data, 8) && Holds32(s.quat.z, data, 12))
            && (Has(mask, 0x040) ==>
                  var a := if Has(mask, 0x014) then 16 else 0;
                  Holds16(s.accel.x, data, a) && Holds16(s.accel.y, data, a + 2) && Holds16(s.accel.z, data, a + 4))
            && (Has(mask, 0x180) ==>
                  var g := (if Has(mask, 0x014) then 16 else 0) + (if Has(mask, 0x040) then 6 else 0);
                  Holds16(s.gyro.x, data, g) && Holds16(s.gyro.y, data, g + 2) && Holds16(s.gyro.z, data, g + 4))
  {
    hide Has, Normal, Holds16, Holds32, VectorAt, QuatAt;
    if Has(mask, 0x014) {
      QuatHolds(data, 0);
    }
    var a := if Has(mask, 0x014) then 16 else 0;
    if Has(mask, 0x040) {
      VectorHolds(data, a);
    }
    if Has(mask, 0x180) {
      VectorHolds(data, a + if Has(mask, 0x040) then 6 else 0);
    }
  }

  /** The driver's state and the caller's arrays. */
  class Driver {
    var featureMask: Mask
    var packetLength: Byte

    constructor ()
      ensures featureMask == 0 && packetLength == 0
    {
      featureMask, packetLength := 0, 0;
    }

    /** The bookkeeping of `dmp_enable_feature`; each call replaces what the one before enabled. */
    method EnableFeature(mask: Mask)
      modifies this
      ensures featureMask == mask | 0x008
      ensures packetLength == PacketLength(mask)
      ensures packetLength as nat == FieldBytes(featureMask) + GestureBytes(featureMask) <= 32
    {
      hide Has, FieldBytes, GestureBytes, PacketLength;
      featureMask := mask | FEATURE_PEDOMETER;
      assert featureMask == mask | 0x008;
      LengthMatchesFields(mask);
      LengthIs(mask);
      packetLength := 0;
      if Has(mask, FEATURE_RAW_ACCEL) {
        packetLength := packetLength + 6;
      }
      if Has(mask, FEATURE_ANY_GYRO) {
        packetLength := packetLength + 6;
      }
      if Has(mask, FEATURE_QUAT) {
        packetLength := packetLength + 16;
      }
      if Has(mask, FEATURE_GESTURE) {
        packetLength := packetLength + 4;
      }
    }

    /** The parsing of `dmp_read_fifo`, once a packet has been fetched. */
    method ParsePacket(data: seq<Byte>) returns (s: Sample)
      requires FieldBytes(featureMask) <= |data|
      ensures s == Decode(featureMask, data)
    {
      hide Normal, VectorAt, QuatAt, Has;
      var ii := 0;
      var sensors: Mask := 0;
      var quat, accel, gyro := NO_QUAT, NO_VECTOR, NO_VECTOR;
      if Has(featureMask, FEATURE_QUAT) {
        quat := QuatAt(data, 0);
        ii := ii + 16;
        if !Normal(quat) {
          return Corrupt;
        }
        sensors := SENSOR_QUAT;
      }
      if Has(featureMask, FEATURE_RAW_ACCEL) {
        accel := VectorAt(data, ii);
        ii := ii + 6;
        sensors := sensors | SENSOR_ACCEL;
      }
      if Has(featureMask, FEATURE_ANY_GYRO) {
        gyro := VectorAt(data, ii);
        ii := ii + 6;
        sensors := sensors | SENSOR_GYRO;
      }
      s := Sample(quat, accel, gyro, sensors, ii);
    }
  }
}
