/** The two outbound records, HIL_GPS (id 113, 36 payload bytes) and
    HIL_SENSOR (id 107, 64 payload bytes), as OnUpdate and ImuCallback fill
    them, and their wire payloads: the packed C structs, fields in MAVLink
    wire order, each little-endian. Values the plugin computes in floating
    point from the simulator's state (positions, velocities, accelerations,
    rotated vectors) enter as given; the constant and integer fields are
    stated exactly. */
module Messages {
  import opened Bytes

  newtype uint8 = x: int | 0 <= x < 0x100
  newtype uint16 = x: int | 0 <= x < 0x1_0000
  newtype int16 = x: int | -0x8000 <= x < 0x8000
  newtype int32 = x: int | -0x8000_0000 <= x < 0x8000_0000
  newtype uint32 = x: int | 0 <= x < 0x1_0000_0000
  newtype uint64 = x: int | 0 <= x < 0x1_0000_0000_0000_0000

  /** The bit pattern of an IEEE 754 single-precision float, read as an
      unsigned 32-bit integer. */
  newtype float32 = x: int | 0 <= x < 0x1_0000_0000

  /** +0.0f */
  const FLOAT_ZERO: float32 := 0

  const HIL_GPS_LEN: nat := 36
  const HIL_SENSOR_LEN: nat := 64

  const GPS_FIX_TYPE_3D: uint8 := 3
  const GPS_EPH: uint16 := 100
  const GPS_EPV: uint16 := 100
  const GPS_SATELLITES_VISIBLE: uint8 := 10
  /** Bits 0 .. 11 set: every sensor field is reported as updated. */
  const SENSOR_FIELDS_UPDATED: uint32 := 4095

  datatype HilGps = HilGps(
    timeUsec: uint64, lat: int32, lon: int32, alt: int32,
    eph: uint16, epv: uint16, vel: uint16, vn: int16, ve: int16, vd: int16, cog: uint16,
    fixType: uint8, satellitesVisible: uint8)

  datatype HilSensor = HilSensor(
    timeUsec: uint64,
    xacc: float32, yacc: float32, zacc: float32,
    xgyro: float32, ygyro: float32, zgyro: float32,
    xmag: float32, ymag: float32, zmag: float32,
    absPressure: float32, diffPressure: float32, pressureAlt: float32, temperature: float32,
    fieldsUpdated: uint32)

  /** The results of the plugin's float-to-integer conversions of position
      and velocity (latitude and longitude in 1e-7 degrees, altitude in mm,
      speeds in cm/s, course in centidegrees). */
  datatype GpsKinematics = GpsKinematics(
    lat: int32, lon: int32, alt: int32, vel: uint16, vn: int16, ve: int16, vd: int16, cog: uint16)

  /** The floats ImuCallback copies from the IMU message, the rotated
      magnetic field, the differential pressure and the altitude. */
  datatype SensorReadings = SensorReadings(
    xacc: float32, yacc: float32, zacc: float32,
    xgyro: float32, ygyro: float32, zgyro: float32,
    xmag: float32, ymag: float32, zmag: float32,
    diffPressure: float32, pressureAlt: float32)

  /** The HIL_GPS record OnUpdate fills. */
  function GpsRecord(timeUsec: uint64, k: GpsKinematics): (m: HilGps)
    ensures m.fixType == 3 && m.eph == 100 && m.epv == 100 && m.satellitesVisible == 10
    ensures m.timeUsec == timeUsec
    ensures m.lat == k.lat && m.lon == k.lon && m.alt == k.alt && m.vel == k.vel
    ensures m.vn == k.vn && m.ve == k.ve && m.vd == k.vd && m.cog == k.cog
  {
    HilGps(timeUsec, k.lat, k.lon, k.alt, GPS_EPH, GPS_EPV, k.vel, k.vn, k.ve, k.vd, k.cog,
           GPS_FIX_TYPE_3D, GPS_SATELLITES_VISIBLE)
  }

  /** The HIL_SENSOR record ImuCallback fills. */
  function SensorRecord(timeUsec: uint64, r: SensorReadings): (m: HilSensor)
    ensures m.absPressure == FLOAT_ZERO && m.temperature == FLOAT_ZERO && m.fieldsUpdated == 4095
    ensures m.timeUsec == timeUsec
    ensures m.xacc == r.xacc && m.yacc == r.yacc && m.zacc == r.zacc
    ensures m.xgyro == r.xgyro && m.ygyro == r.ygyro && m.zgyro == r.zgyro
    ensures m.xmag == r.xmag && m.ymag == r.ymag && m.zmag == r.zmag
    ensures m.diffPressure == r.diffPressure && m.pressureAlt == r.pressureAlt
  {
    HilSensor(timeUsec, r.xacc, r.yacc, r.zacc, r.xgyro, r.ygyro, r.zgyro, r.xmag, r.ymag, r.zmag,
              FLOAT_ZERO, r.diffPressure, r.pressureAlt, FLOAT_ZERO, SENSOR_FIELDS_UPDATED)
  }

  // Simulation time and time_usec. Time is a count of nanoseconds since the
  // start of the simulation; Gazebo's common::Time keeps it as whole
  // seconds plus nsec, the nanoseconds into the current second.

  const NSEC_PER_SEC: nat := 1_000_000_000
  const TWO_32: int := 0x1_0000_0000
  const TWO_64: int := 0x1_0000_0000_0000_0000

  /** Microseconds since the start of the simulation, as a uint64 holds them. */
  function TimeUsec(now: nat): (t: uint64)
    ensures now < 1000 * TWO_64 ==> t as int * 1000 <= now < t as int * 1000 + 1000
  {
    ((now / 1000) % TWO_64) as uint64
  }

  /** The corrected timestamp never runs backwards. */
  lemma TimeUsecMonotone(a: nat, b: nat)
    requires a <= b < 1000 * TWO_64
    ensures TimeUsec(a) <= TimeUsec(b)
  {
  }

  /** Two's complement wrap-around of an int product to 32 bits. */
  function Wrap32(x: int): (r: int32)
    ensures (r as int - x) % TWO_32 == 0
  {
    var low := x % TWO_32;
    if low >= 0x8000_0000 then (low - TWO_32) as int32 else low as int32
  }

  /** Conversion of an int to the uint64 time_usec field: modulo 2^64. */
  function Int32ToUint64(x: int32): (u: uint64)
    ensures x >= 0 ==> u as int == x as int
    ensures x < 0 ==> u as int == x as int + TWO_64
  {
    if x < 0 then (x as int + TWO_64) as uint64 else x as uint64
  }

  /** time_usec as OnUpdate and ImuCallback compute it: the nsec part of the
      simulation time multiplied by 1000 in int arithmetic, then stored in
      the uint64 field. */
  function TimeUsecAsWritten(now: nat): (t: uint64)
    ensures now % NSEC_PER_SEC * 1000 < 0x8000_0000 ==> t as int == now % NSEC_PER_SEC * 1000
  {
    Int32ToUint64(Wrap32(now % NSEC_PER_SEC * 1000))
  }

  /** One second of simulation time after 1 ms, the as-written timestamp has
      gone back from 10^9 to 0, while the corrected one goes from 1000 to 10^6. */
  lemma TimeUsecAsWrittenRunsBackwards()
    ensures TimeUsecAsWritten(1_000_000) == 1_000_000_000
    ensures TimeUsecAsWritten(1_000_000_000) == 0
    ensures TimeUsec(1_000_000) == 1000 && TimeUsec(1_000_000_000) == 1_000_000
  {
  }

  /** At 3 ms the int product 3 * 10^9 overflows, and its conversion to
      uint64 gives a timestamp of about 1.8 * 10^19. */
  lemma TimeUsecAsWrittenOverflows()
    ensures TimeUsecAsWritten(3_000_000) == 18446744072414584320
    ensures TimeUsec(3_000_000) == 3000
  {
    assert Wrap32(3_000_000_000) == -1294967296;
  }

  // Two's complement storage of the signed fields.

  function Unsigned16(x: int16): (u: nat)
    ensures u < 0x1_0000
    ensures x >= 0 <==> u < 0x8000
  {
    if x < 0 then x as int + 0x1_0000 else x as int
  }

  function Signed16(u: nat): (x: int16)
    requires u < 0x1_0000
    ensures x as int % 0x1_0000 == u
  {
    if u >= 0x8000 then (u - 0x1_0000) as int16 else u as int16
  }

  function Unsigned32(x: int32): (u: nat)
    ensures u < TWO_32
    ensures x >= 0 <==> u < 0x8000_0000
  {
    if x < 0 then x as int + TWO_32 else x as int
  }

  function Signed32(u: nat): (x: int32)
    requires u < TWO_32
    ensures x as int % TWO_32 == u
  {
    if u >= 0x8000_0000 then (u - TWO_32) as int32 else u as int32
  }

  lemma Signed16Unsigned16(x: int16)
    ensures Signed16(Unsigned16(x)) == x
  {
  }

  lemma Signed32Unsigned32(x: int32)
    ensures Signed32(Unsigned32(x)) == x
  {
  }

  // The payloads are built from groups of at most five adjacent fields,
  // and each layout is stated first group by group, then field by field.

  /** lat, lon, alt. */
  function GpsPosition(lat: int32, lon: int32, alt: int32): (p: seq<byte>)
    ensures |p| == 12
  {
    LittleEndian(Unsigned32(lat), 4) + LittleEndian(Unsigned32(lon), 4) + LittleEndian(Unsigned32(alt), 4)
  }

  /** eph, epv, vel. */
  function GpsAccuracy(eph: uint16, epv: uint16, vel: uint16): (p: seq<byte>)
    ensures |p| == 6
  {
    LittleEndian(eph as nat, 2) + LittleEndian(epv as nat, 2) + LittleEndian(vel as nat, 2)
  }

  /** vn, ve, vd, cog. */
  function GpsVelocity(vn: int16, ve: int16, vd: int16, cog: uint16): (p: seq<byte>)
    ensures |p| == 8
  {
    LittleEndian(Unsigned16(vn), 2) + LittleEndian(Unsigned16(ve), 2) + LittleEndian(Unsigned16(vd), 2)
    + LittleEndian(cog as nat, 2)
  }

  /** fix_type, satellites_visible. */
  function GpsStatus(fixType: uint8, satellitesVisible: uint8): (p: seq<byte>)
    ensures |p| == 2
  {
    LittleEndian(fixType as nat, 1) + LittleEndian(satellitesVisible as nat, 1)
  }

  /** The 36 payload bytes memcpy reads from a mavlink_hil_gps_t: in wire
      order time_usec, lat, lon, alt, eph, epv, vel, vn, ve, vd, cog,
      fix_type, satellites_visible, each little-endian. */
  function EncodeGps(m: HilGps): (p: seq<byte>)
    ensures |p| == HIL_GPS_LEN
  {
    LittleEndian(m.timeUsec as nat, 8)
    + GpsPosition(m.lat, m.lon, m.alt)
    + GpsAccuracy(m.eph, m.epv, m.vel)
    + GpsVelocity(m.vn, m.ve, m.vd, m.cog)
    + GpsStatus(m.fixType, m.satellitesVisible)
  }

  /** Three consecutive float fields, x then y then z. */
  function Vector3(x: float32, y: float32, z: float32): (p: seq<byte>)
    ensures |p| == 12
  {
    LittleEndian(x as nat, 4) + LittleEndian(y as nat, 4) + LittleEndian(z as nat, 4)
  }

  /** abs_pressure, diff_pressure, pressure_alt, temperature, fields_updated. */
  function SensorTail(absPressure: float32, diffPressure: float32, pressureAlt: float32,
                      temperature: float32, fieldsUpdated: uint32): (p: seq<byte>)
    ensures |p| == 20
  {
    LittleEndian(absPressure as nat, 4) + LittleEndian(diffPressure as nat, 4)
    + LittleEndian(pressureAlt as nat, 4) + LittleEndian(temperature as nat, 4)
    + LittleEndian(fieldsUpdated as nat, 4)
  }

  /** The 64 payload bytes memcpy reads from a mavlink_hil_sensor_t: in wire
      order time_usec, then xacc .. zmag, abs_pressure, diff_pressure,
      pressure_alt and temperature as floats, then fields_updated. */
  function EncodeSensor(m: HilSensor): (p: seq<byte>)
    ensures |p| == HIL_SENSOR_LEN
  {
    LittleEndian(m.timeUsec as nat, 8)
    + Vector3(m.xacc, m.yacc, m.zacc) + Vector3(m.xgyro, m.ygyro, m.zgyro) + Vector3(m.xmag, m.ymag, m.zmag)
    + SensorTail(m.absPressure, m.diffPressure, m.pressureAlt, m.temperature, m.fieldsUpdated)
  }

  /** Reads a HIL_GPS payload the way a receiver's decoder does. */
  function DecodeGps(p: seq<byte>): HilGps
    requires |p| == HIL_GPS_LEN
  {
    Pow256Values();
    HilGps(FromLittleEndian(p[0..8]) as uint64,
           Signed32(FromLittleEndian(p[8..12])), Signed32(FromLittleEndian(p[12..16])),
           Signed32(FromLittleEndian(p[16..20])),
           FromLittleEndian(p[20..22]) as uint16, FromLittleEndian(p[22..24]) as uint16,
           FromLittleEndian(p[24..26]) as uint16,
           Signed16(FromLittleEndian(p[26..28])), Signed16(FromLittleEndian(p[28..30])),
           Signed16(FromLittleEndian(p[30..32])),
           FromLittleEndian(p[32..34]) as uint16,
           FromLittleEndian(p[34..35]) as uint8, FromLittleEndian(p[35..36]) as uint8)
  }

  /** Reads a 4-byte float field of a payload. */
  function Float32At(p: seq<byte>, offset: nat): float32
    requires offset + 4 <= |p|
  {
    Pow256Values();
    FromLittleEndian(p[offset..offset + 4]) as float32
  }

  /** Reads a HIL_SENSOR payload the way a receiver's decoder does. */
  function DecodeSensor(p: seq<byte>): HilSensor
    requires |p| == HIL_SENSOR_LEN
  {
    Pow256Values();
    HilSensor(FromLittleEndian(p[0..8]) as uint64,
              Float32At(p, 8), Float32At(p, 12), Float32At(p, 16),
              Float32At(p, 20), Float32At(p, 24), Float32At(p, 28),
              Float32At(p, 32), Float32At(p, 36), Float32At(p, 40),
              Float32At(p, 44), Float32At(p, 48), Float32At(p, 52), Float32At(p, 56),
              FromLittleEndian(p[60..64]) as uint32)
  }

  lemma GpsGroups(m: HilGps)
    ensures var p := EncodeGps(m);
      && p[0..8] == LittleEndian(m.timeUsec as nat, 8)
      && p[8..20] == GpsPosition(m.lat, m.lon, m.alt)
      && p[20..26] == GpsAccuracy(m.eph, m.epv, m.vel)
      && p[26..34] == GpsVelocity(m.vn, m.ve, m.vd, m.cog)
      && p[34..36] == GpsStatus(m.fixType, m.satellitesVisible)
  {
  }

  lemma GpsPositionLayout(lat: int32, lon: int32, alt: int32)
    ensures var p := GpsPosition(lat, lon, alt);
      p[0..4] == LittleEndian(Unsigned32(lat), 4) && p[4..8] == LittleEndian(Unsigned32(lon), 4)
      && p[8..12] == LittleEndian(Unsigned32(alt), 4)
  {
  }

  lemma GpsAccuracyLayout(eph: uint16, epv: uint16, vel: uint16)
    ensures var p := GpsAccuracy(eph, epv, vel);
      p[0..2] == LittleEndian(eph as nat, 2) && p[2..4] == LittleEndian(epv as nat, 2)
      && p[4..6] == LittleEndian(vel as nat, 2)
  {
  }

  lemma GpsVelocityLayout(vn: int16, ve: int16, vd: int16, cog: uint16)
    ensures var p := GpsVelocity(vn, ve, vd, cog);
      p[0..2] == LittleEndian(Unsigned16(vn), 2) && p[2..4] == LittleEndian(Unsigned16(ve), 2)
      && p[4..6] == LittleEndian(Unsigned16(vd), 2) && p[6..8] == LittleEndian(cog as nat, 2)
  {
  }

  lemma GpsStatusLayout(fixType: uint8, satellitesVisible: uint8)
    ensures var p := GpsStatus(fixType, satellitesVisible);
      p[0..1] == LittleEndian(fixType as nat, 1) && p[1..2] == LittleEndian(satellitesVisible as nat, 1)
  {
  }

  lemma SensorGroups(m: HilSensor)
    ensures var p := EncodeSensor(m);
      && p[0..8] == LittleEndian(m.timeUsec as nat, 8)
      && p[8..20] == Vector3(m.xacc, m.yacc, m.zacc)
      && p[20..32] == Vector3(m.xgyro, m.ygyro, m.zgyro)
      && p[32..44] == Vector3(m.xmag, m.ymag, m.zmag)
      && p[44..64] == SensorTail(m.absPressure, m.diffPressure, m.pressureAlt, m.temperature, m.fieldsUpdated)
  {
  }

  lemma Vector3Layout(x: float32, y: float32, z: float32)
    ensures var p := Vector3(x, y, z);
      p[0..4] == LittleEndian(x as nat, 4) && p[4..8] == LittleEndian(y as nat, 4) && p[8..12] == LittleEndian(z as nat, 4)
  {
  }

  lemma SensorTailLayout(absPressure: float32, diffPressure: float32, pressureAlt: float32,
                         temperature: float32, fieldsUpdated: uint32)
    ensures var p := SensorTail(absPressure, diffPressure, pressureAlt, temperature, fieldsUpdated);
      && p[0..4] == LittleEndian(absPressure as nat, 4) && p[4..8] == LittleEndian(diffPressure as nat, 4)
      && p[8..12] == LittleEndian(pressureAlt as nat, 4) && p[12..16] == LittleEndian(temperature as nat, 4)
      && p[16..20] == LittleEndian(fieldsUpdated as nat, 4)
  {
  }

  /** Where each field of a HIL_GPS payload lies. */
  lemma GpsLayout(m: HilGps)
    ensures var p := EncodeGps(m);
      && p[0..8] == LittleEndian(m.timeUsec as nat, 8)
      && p[8..12] == LittleEndian(Unsigned32(m.lat), 4)
      && p[12..16] == LittleEndian(Unsigned32(m.lon), 4)
      && p[16..20] == LittleEndian(Unsigned32(m.alt), 4)
      && p[20..22] == LittleEndian(m.eph as nat, 2)
      && p[22..24] == LittleEndian(m.epv as nat, 2)
      && p[24..26] == LittleEndian(m.vel as nat, 2)
      && p[26..28] == LittleEndian(Unsigned16(m.vn), 2)
      && p[28..30] == LittleEndian(Unsigned16(m.ve), 2)
      && p[30..32] == LittleEndian(Unsigned16(m.vd), 2)
      && p[32..34] == LittleEndian(m.cog as nat, 2)
      && p[34..35] == LittleEndian(m.fixType as nat, 1)
      && p[35..36] == LittleEndian(m.satellitesVisible as nat, 1)
  {
    var p := EncodeGps(m);
    GpsGroups(m);
    GpsPositionLayout(m.lat, m.lon, m.alt);
    SliceOfSlice(p, 8, 20, 0, 4);
    SliceOfSlice(p, 8, 20, 4, 8);
    SliceOfSlice(p, 8, 20, 8, 12);
    GpsAccuracyLayout(m.eph, m.epv, m.vel);
    SliceOfSlice(p, 20, 26, 0, 2);
    SliceOfSlice(p, 20, 26, 2, 4);
    SliceOfSlice(p, 20, 26, 4, 6);
    GpsVelocityLayout(m.vn, m.ve, m.vd, m.cog);
    SliceOfSlice(p, 26, 34, 0, 2);
    SliceOfSlice(p, 26, 34, 2, 4);
    SliceOfSlice(p, 26, 34, 4, 6);
    SliceOfSlice(p, 26, 34, 6, 8);
    GpsStatusLayout(m.fixType, m.satellitesVisible);
    SliceOfSlice(p, 34, 36, 0, 1);
    SliceOfSlice(p, 34, 36, 1, 2);
  }

  /** Where each field of a HIL_SENSOR payload lies. */
  lemma SensorLayout(m: HilSensor)
    ensures var p := EncodeSensor(m);
      && p[0..8] == LittleEndian(m.timeUsec as nat, 8)
      && p[8..12] == LittleEndian(m.xacc as nat, 4)
      && p[12..16] == LittleEndian(m.yacc as nat, 4)
      && p[16..20] == LittleEndian(m.zacc as nat, 4)
      && p[20..24] == LittleEndian(m.xgyro as nat, 4)
      && p[24..28] == LittleEndian(m.ygyro as nat, 4)
      && p[28..32] == LittleEndian(m.zgyro as nat, 4)
      && p[32..36] == LittleEndian(m.xmag as nat, 4)
      && p[36..40] == LittleEndian(m.ymag as nat, 4)
      && p[40..44] == LittleEndian(m.zmag as nat, 4)
      && p[44..48] == LittleEndian(m.absPressure as nat, 4)
      && p[48..52] == LittleEndian(m.diffPressure as nat, 4)
      && p[52..56] == LittleEndian(m.pressureAlt as nat, 4)
      && p[56..60] == LittleEndian(m.temperature as nat, 4)
      && p[60..64] == LittleEndian(m.fieldsUpdated as nat, 4)
  {
    var p := EncodeSensor(m);
    SensorGroups(m);
    Vector3Layout(m.xacc, m.yacc, m.zacc);
    SliceOfSlice(p, 8, 20, 0, 4);
    SliceOfSlice(p, 8, 20, 4, 8);
    SliceOfSlice(p, 8, 20, 8, 12);
    Vector3Layout(m.xgyro, m.ygyro, m.zgyro);
    SliceOfSlice(p, 20, 32, 0, 4);
    SliceOfSlice(p, 20, 32, 4, 8);
    SliceOfSlice(p, 20, 32, 8, 12);
    Vector3Layout(m.xmag, m.ymag, m.zmag);
    SliceOfSlice(p, 32, 44, 0, 4);
    SliceOfSlice(p, 32, 44, 4, 8);
    SliceOfSlice(p, 32, 44, 8, 12);
    SensorTailLayout(m.absPressure, m.diffPressure, m.pressureAlt, m.temperature, m.fieldsUpdated);
    SliceOfSlice(p, 44, 64, 0, 4);
    SliceOfSlice(p, 44, 64, 4, 8);
    SliceOfSlice(p, 44, 64, 8, 12);
    SliceOfSlice(p, 44, 64, 12, 16);
    SliceOfSlice(p, 44, 64, 16, 20);
  }

  /** A receiver reads back every field of the HIL_GPS record. */
  lemma GpsRoundTrip(m: HilGps)
    ensures DecodeGps(EncodeGps(m)) == m
  {
    GpsLayout(m);
    Pow256Values();
    FromLittleEndianInverse(m.timeUsec as nat, 8);
    FromLittleEndianInverse(Unsigned32(m.lat), 4);
    FromLittleEndianInverse(Unsigned32(m.lon), 4);
    FromLittleEndianInverse(Unsigned32(m.alt), 4);
    FromLittleEndianInverse(m.eph as nat, 2);
    FromLittleEndianInverse(m.epv as nat, 2);
    FromLittleEndianInverse(m.vel as nat, 2);
    FromLittleEndianInverse(Unsigned16(m.vn), 2);
    FromLittleEndianInverse(Unsigned16(m.ve), 2);
    FromLittleEndianInverse(Unsigned16(m.vd), 2);
    FromLittleEndianInverse(m.cog as nat, 2);
    FromLittleEndianInverse(m.fixType as nat, 1);
    FromLittleEndianInverse(m.satellitesVisible as nat, 1);
    Signed32Unsigned32(m.lat);
    Signed32Unsigned32(m.lon);
    Signed32Unsigned32(m.alt);
    Signed16Unsigned16(m.vn);
    Signed16Unsigned16(m.ve);
    Signed16Unsigned16(m.vd);
  }

  /** A receiver reads back every field of the HIL_SENSOR record. */
  lemma SensorRoundTrip(m: HilSensor)
    ensures DecodeSensor(EncodeSensor(m)) == m
  {
    SensorLayout(m);
    Pow256Values();
    FromLittleEndianInverse(m.timeUsec as nat, 8);
    FromLittleEndianInverse(m.xacc as nat, 4);
    FromLittleEndianInverse(m.yacc as nat, 4);
    FromLittleEndianInverse(m.zacc as nat, 4);
    FromLittleEndianInverse(m.xgyro as nat, 4);
    FromLittleEndianInverse(m.ygyro as nat, 4);
    FromLittleEndianInverse(m.zgyro as nat, 4);
    FromLittleEndianInverse(m.xmag as nat, 4);
    FromLittleEndianInverse(m.ymag as nat, 4);
    FromLittleEndianInverse(m.zmag as nat, 4);
    FromLittleEndianInverse(m.absPressure as nat, 4);
    FromLittleEndianInverse(m.diffPressure as nat, 4);
    FromLittleEndianInverse(m.pressureAlt as nat, 4);
    FromLittleEndianInverse(m.temperature as nat, 4);
    FromLittleEndianInverse(m.fieldsUpdated as nat, 4);
  }

  // The stores of the constant field values.

  lemma StoreIn1(x: nat)
    requires x < 0x100
    ensures LittleEndian(x, 1) == [x as byte]
  {
  }

  lemma {:induction false} StoreZero(n: nat)
    ensures LittleEndian(0, n) == seq(n, _ => 0)
  {
    if n > 0 {
      StoreZero(n - 1);
    }
  }

  lemma LowByte100()
    ensures (100 % 0x100) as byte == 100
  {
  }

  lemma LowByte4095()
    ensures (4095 % 0x100) as byte == 0xFF
  {
  }

  lemma LowByte15()
    ensures (15 % 0x100) as byte == 0x0F
  {
  }

  lemma Store100In2()
    ensures LittleEndian(100, 2) == [100, 0]
  {
    LowByte100();
    assert LittleEndian(100, 2) == [(100 % 0x100) as byte] + LittleEndian(0, 1);
    StoreZero(1);
  }

  lemma Store4095In4()
    ensures LittleEndian(4095, 4) == [0xFF, 0x0F, 0, 0]
  {
    LowByte4095();
    LowByte15();
    assert LittleEndian(4095, 4) == [(4095 % 0x100) as byte] + LittleEndian(15, 3);
    assert LittleEndian(15, 3) == [(15 % 0x100) as byte] + LittleEndian(0, 2);
    StoreZero(2);
  }

  lemma GpsFixedAccuracy(vel: uint16)
    ensures GpsAccuracy(100, 100, vel)[0..4] == [100, 0, 100, 0]
  {
    GpsAccuracyLayout(100, 100, vel);
    Store100In2();
    var g := GpsAccuracy(100, 100, vel);
    assert g[0..4] == g[0..2] + g[2..4];
  }

  lemma GpsFixedStatus()
    ensures GpsStatus(3, 10) == [3, 10]
  {
    StoreIn1(3);
    StoreIn1(10);
  }

  /** On the wire, a HIL_GPS payload from OnUpdate carries eph = epv = 100
      at bytes 20 .. 23, fix_type 3 at byte 34 and 10 visible satellites
      at byte 35, whatever the simulator state. */
  lemma GpsConstantBytes(timeUsec: uint64, k: GpsKinematics)
    ensures var p := EncodeGps(GpsRecord(timeUsec, k));
      p[20..24] == [100, 0, 100, 0] && p[34..36] == [3, 10]
  {
    var m := GpsRecord(timeUsec, k);
    var p := EncodeGps(m);
    GpsGroups(m);
    GpsFixedAccuracy(k.vel);
    GpsFixedStatus();
    SliceOfSlice(p, 20, 26, 0, 4);
  }

  lemma SensorFixedTail(diffPressure: float32, pressureAlt: float32)
    ensures var t := SensorTail(0, diffPressure, pressureAlt, 0, 4095);
      t[0..4] == [0, 0, 0, 0] && t[12..20] == [0, 0, 0, 0, 0xFF, 0x0F, 0, 0]
  {
    var t := SensorTail(0, diffPressure, pressureAlt, 0, 4095);
    SensorTailLayout(0, diffPressure, pressureAlt, 0, 4095);
    StoreZero(4);
    Store4095In4();
    assert t[12..20] == t[12..16] + t[16..20];
  }

  /** On the wire, a HIL_SENSOR payload from ImuCallback carries a zero
      abs_pressure at bytes 44 .. 47, a zero temperature at bytes 56 .. 59
      and fields_updated = 4095 at bytes 60 .. 63. */
  lemma SensorConstantBytes(timeUsec: uint64, r: SensorReadings)
    ensures var p := EncodeSensor(SensorRecord(timeUsec, r));
      p[44..48] == [0, 0, 0, 0] && p[56..64] == [0, 0, 0, 0, 0xFF, 0x0F, 0, 0]
  {
    var m := SensorRecord(timeUsec, r);
    var p := EncodeSensor(m);
    SensorGroups(m);
    SensorFixedTail(r.diffPressure, r.pressureAlt);
    SliceOfSlice(p, 44, 64, 0, 4);
    SliceOfSlice(p, 44, 64, 12, 20);
  }
}
