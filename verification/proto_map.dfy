/**
 * The generated map-config messages (`map.proto`): `Vector3`, `Map`,
 * `MapPath`, `MapPathPoint`, `MapWave` and `MapWaveUnit`, with the size
 * computation, the writer and the field-by-field reader of each.
 *
 * Floats are carried as their 32-bit patterns.  The writer omits a float
 * that compares equal to zero, which includes -0.0, so the reader gives back
 * +0.0 for it: the round trips below are stated against `Canon…`, which maps
 * both zeros to +0.0 and leaves everything else alone.
 */
module ProtoMap {
  import opened Wrappers
  import opened ProtoWire

  /** An IEEE-754 binary32 value as its bit pattern. */
  type F32 = u32

  const NEG_ZERO: F32 := 0x8000_0000

  /** `f == 0f32`: true for +0.0 and -0.0. */
  predicate IsZero(f: F32) { f == 0 || f == NEG_ZERO }

  function Canon(f: F32): F32 { if IsZero(f) then 0 else f }

  const TAG_VECTOR3_X: nat := 13
  const TAG_VECTOR3_Y: nat := 21
  const TAG_VECTOR3_Z: nat := 29
  const TAG_MAP_PATHS: nat := 10
  const TAG_PATH_POINTS: nat := 10
  const TAG_POINT_POS: nat := 10
  const TAG_POINT_REACH_RANGE: nat := 21
  const TAG_WAVE_START_TIME: nat := 13
  const TAG_WAVE_UNITS: nat := 18
  const TAG_UNIT_NAME: nat := 10
  const TAG_UNIT_COUNT: nat := 16
  const TAG_UNIT_PATH_INDEX: nat := 24

  /** Every tag of the schema is `(field << 3) | wire_type`. */
  lemma SchemaTags()
    ensures TAG_VECTOR3_X == Tag(1, WIRE_FIXED32)
    ensures TAG_VECTOR3_Y == Tag(2, WIRE_FIXED32)
    ensures TAG_VECTOR3_Z == Tag(3, WIRE_FIXED32)
    ensures TAG_MAP_PATHS == TAG_PATH_POINTS == TAG_POINT_POS == Tag(1, WIRE_LEN)
    ensures TAG_POINT_REACH_RANGE == Tag(2, WIRE_FIXED32)
    ensures TAG_WAVE_START_TIME == Tag(1, WIRE_FIXED32)
    ensures TAG_WAVE_UNITS == Tag(2, WIRE_LEN)
    ensures TAG_UNIT_NAME == Tag(1, WIRE_LEN)
    ensures TAG_UNIT_COUNT == Tag(2, WIRE_VARINT)
    ensures TAG_UNIT_PATH_INDEX == Tag(3, WIRE_VARINT)
  {
  }

  datatype Vector3 = Vector3(x: F32, y: F32, z: F32)
  datatype MapPathPoint = MapPathPoint(pos: Option<Vector3>, reachRange: F32)
  datatype MapPath = MapPath(points: seq<MapPathPoint>)
  datatype Map = Map(paths: seq<MapPath>)
  /** `unitName` is the UTF-8 bytes of the string. */
  datatype MapWaveUnit = MapWaveUnit(unitName: seq<byte>, uintCount: u32, pathIndex: u32)
  datatype MapWave = MapWave(startTime: F32, units: seq<MapWaveUnit>)

  const DEFAULT_VECTOR3 := Vector3(0, 0, 0)
  const DEFAULT_POINT := MapPathPoint(None, 0)
  const DEFAULT_UNIT := MapWaveUnit([], 0, 0)
  const DEFAULT_WAVE := MapWave(0, [])

  // ------------------------------------------------------------ canonical forms

  function CanonVector3(v: Vector3): Vector3
  {
    Vector3(Canon(v.x), Canon(v.y), Canon(v.z))
  }

  function CanonPoint(p: MapPathPoint): MapPathPoint
  {
    MapPathPoint(if p.pos.Some? then Some(CanonVector3(p.pos.value)) else None,
                 Canon(p.reachRange))
  }

  function CanonPoints(ps: seq<MapPathPoint>): (r: seq<MapPathPoint>)
    ensures |r| == |ps|
  {
    if |ps| == 0 then [] else [CanonPoint(ps[0])] + CanonPoints(ps[1..])
  }

  function CanonPath(m: MapPath): MapPath { MapPath(CanonPoints(m.points)) }

  function CanonPaths(ps: seq<MapPath>): (r: seq<MapPath>)
    ensures |r| == |ps|
  {
    if |ps| == 0 then [] else [CanonPath(ps[0])] + CanonPaths(ps[1..])
  }

  function CanonMap(m: Map): Map { Map(CanonPaths(m.paths)) }

  function CanonWave(w: MapWave): MapWave { MapWave(Canon(w.startTime), w.units) }

  // ------------------------------------------------------------ get_size

  function FloatSize(f: F32): nat { if IsZero(f) then 0 else 1 + 4 }

  function VarintSize(v: u32): nat { if v == 0 then 0 else 1 + SizeofVarint(v) }

  function Vector3Size(v: Vector3): nat
  {
    FloatSize(v.x) + FloatSize(v.y) + FloatSize(v.z)
  }

  function PointSize(p: MapPathPoint): nat
  {
    (match p.pos
     case None => 0
     case Some(m) => 1 + SizeofLen(Vector3Size(m)))
    + FloatSize(p.reachRange)
  }

  function PointsSize(ps: seq<MapPathPoint>): nat
  {
    if |ps| == 0 then 0 else 1 + SizeofLen(PointSize(ps[0])) + PointsSize(ps[1..])
  }

  function PathSize(m: MapPath): nat { PointsSize(m.points) }

  function PathsSize(ps: seq<MapPath>): nat
  {
    if |ps| == 0 then 0 else 1 + SizeofLen(PathSize(ps[0])) + PathsSize(ps[1..])
  }

  function MapSize(m: Map): nat { PathsSize(m.paths) }

  function UnitSize(u: MapWaveUnit): nat
  {
    (if |u.unitName| == 0 then 0 else 1 + SizeofLen(|u.unitName|))
    + VarintSize(u.uintCount)
    + VarintSize(u.pathIndex)
  }

  function UnitsSize(us: seq<MapWaveUnit>): nat
  {
    if |us| == 0 then 0 else 1 + SizeofLen(UnitSize(us[0])) + UnitsSize(us[1..])
  }

  function WaveSize(w: MapWave): nat { FloatSize(w.startTime) + UnitsSize(w.units) }

  // ------------------------------------------------------------ write_message

  function FloatField(tag: nat, f: F32): seq<byte>
  {
    if IsZero(f) then [] else FixedField(tag, f)
  }

  function UintField(tag: nat, v: u32): seq<byte>
  {
    if v == 0 then [] else VarintField(tag, v)
  }

  /** Coordinates in field order; a zero coordinate is not written. */
  function EncodeVector3(v: Vector3): (r: seq<byte>)
    ensures r == [] <==> IsZero(v.x) && IsZero(v.y) && IsZero(v.z)
  {
    FloatField(TAG_VECTOR3_X, v.x) + FloatField(TAG_VECTOR3_Y, v.y) + FloatField(TAG_VECTOR3_Z, v.z)
  }

  /** A present `pos` is written even when it is the zero vector. */
  function EncodePoint(p: MapPathPoint): (r: seq<byte>)
    ensures r == [] <==> p.pos.None? && IsZero(p.reachRange)
  {
    (match p.pos
     case None => []
     case Some(m) => LenField(TAG_POINT_POS, Vector3Size(m), EncodeVector3(m)))
    + FloatField(TAG_POINT_REACH_RANGE, p.reachRange)
  }

  function EncodePoints(ps: seq<MapPathPoint>): (r: seq<byte>)
    ensures r == [] <==> ps == []
  {
    if |ps| == 0 then []
    else LenField(TAG_PATH_POINTS, PointSize(ps[0]), EncodePoint(ps[0])) + EncodePoints(ps[1..])
  }

  function EncodePath(m: MapPath): seq<byte> { EncodePoints(m.points) }

  function EncodePaths(ps: seq<MapPath>): (r: seq<byte>)
    ensures r == [] <==> ps == []
  {
    if |ps| == 0 then []
    else LenField(TAG_MAP_PATHS, PathSize(ps[0]), EncodePath(ps[0])) + EncodePaths(ps[1..])
  }

  function EncodeMap(m: Map): seq<byte> { EncodePaths(m.paths) }

  function EncodeUnit(u: MapWaveUnit): (r: seq<byte>)
    ensures r == [] <==> u == DEFAULT_UNIT
  {
    (if |u.unitName| == 0 then [] else LenField(TAG_UNIT_NAME, |u.unitName|, u.unitName))
    + UintField(TAG_UNIT_COUNT, u.uintCount)
    + UintField(TAG_UNIT_PATH_INDEX, u.pathIndex)
  }

  function EncodeUnits(us: seq<MapWaveUnit>): (r: seq<byte>)
    ensures r == [] <==> us == []
  {
    if |us| == 0 then []
    else LenField(TAG_WAVE_UNITS, UnitSize(us[0]), EncodeUnit(us[0])) + EncodeUnits(us[1..])
  }

  function EncodeWave(w: MapWave): (r: seq<byte>)
    ensures r == [] <==> IsZero(w.startTime) && w.units == []
  {
    FloatField(TAG_WAVE_START_TIME, w.startTime) + EncodeUnits(w.units)
  }

  // ------------------------------------------------------------ size == written length

  lemma FloatFieldSize(tag: nat, f: F32)
    requires tag < 128
    ensures |FloatField(tag, f)| == FloatSize(f)
  {
  }

  lemma UintFieldSize(tag: nat, v: u32)
    requires tag < 128
    ensures |UintField(tag, v)| == VarintSize(v)
  {
    if v != 0 {
      SizeofVarintIsEncodedLength(v);
    }
  }

  lemma LenFieldSize(tag: nat, payload: seq<byte>)
    requires tag < 128 && |payload| < U64_LIMIT
    ensures |LenField(tag, |payload|, payload)| == 1 + SizeofLen(|payload|)
  {
    SizeofVarintIsEncodedLength(|payload|);
  }

  /** `Vector3::get_size` is 5 bytes per non-zero coordinate and matches the writer. */
  lemma Vector3SizeMatchesEncoding(v: Vector3)
    ensures Vector3Size(v) == |EncodeVector3(v)|
    ensures Vector3Size(v) % 5 == 0 && Vector3Size(v) <= 15
    ensures Vector3Size(v) == 0 <==> IsZero(v.x) && IsZero(v.y) && IsZero(v.z)
  {
  }

  lemma PointSizeMatchesEncoding(p: MapPathPoint)
    ensures PointSize(p) == |EncodePoint(p)|
  {
    if p.pos.Some? {
      Vector3SizeMatchesEncoding(p.pos.value);
      LenFieldSize(TAG_POINT_POS, EncodeVector3(p.pos.value));
    }
  }

  lemma {:induction false} PointsSizeMatchesEncoding(ps: seq<MapPathPoint>)
    requires PointsSize(ps) < U64_LIMIT
    ensures PointsSize(ps) == |EncodePoints(ps)|
    decreases |ps|
  {
    if |ps| > 0 {
      PointSizeMatchesEncoding(ps[0]);
      LenFieldSize(TAG_PATH_POINTS, EncodePoint(ps[0]));
      PointsSizeMatchesEncoding(ps[1..]);
    }
  }

  /** `Map::get_size` equals the number of bytes `Map::write_message` emits. */
  lemma {:induction false} MapSizeMatchesEncoding(m: Map)
    requires MapSize(m) < U64_LIMIT
    ensures MapSize(m) == |EncodeMap(m)|
  {
    PathsSizeMatchesEncoding(m.paths);
  }

  lemma {:induction false} PathsSizeMatchesEncoding(ps: seq<MapPath>)
    requires PathsSize(ps) < U64_LIMIT
    ensures PathsSize(ps) == |EncodePaths(ps)|
    decreases |ps|
  {
    if |ps| > 0 {
      PointsSizeMatchesEncoding(ps[0].points);
      LenFieldSize(TAG_MAP_PATHS, EncodePath(ps[0]));
      PathsSizeMatchesEncoding(ps[1..]);
    }
  }

  lemma UnitSizeMatchesEncoding(u: MapWaveUnit)
    requires |u.unitName| < U64_LIMIT
    ensures UnitSize(u) == |EncodeUnit(u)|
  {
    if |u.unitName| > 0 {
      LenFieldSize(TAG_UNIT_NAME, u.unitName);
    }
    UintFieldSize(TAG_UNIT_COUNT, u.uintCount);
    UintFieldSize(TAG_UNIT_PATH_INDEX, u.pathIndex);
  }

  lemma {:induction false} UnitsSizeMatchesEncoding(us: seq<MapWaveUnit>)
    requires UnitsSize(us) < U64_LIMIT
    ensures UnitsSize(us) == |EncodeUnits(us)|
    decreases |us|
  {
    if |us| > 0 {
      UnitSizeMatchesEncoding(us[0]);
      LenFieldSize(TAG_WAVE_UNITS, EncodeUnit(us[0]));
      UnitsSizeMatchesEncoding(us[1..]);
    }
  }

  /** `MapWave::get_size` equals the number of bytes `MapWave::write_message` emits. */
  lemma WaveSizeMatchesEncoding(w: MapWave)
    requires WaveSize(w) < U64_LIMIT
    ensures WaveSize(w) == |EncodeWave(w)|
  {
    UnitsSizeMatchesEncoding(w.units);
  }

  // ------------------------------------------------------------ from_reader

  /** The reader loop of `Vector3::from_reader`, continuing from `acc`. */
  function DecodeVector3Fields(s: seq<byte>, acc: Vector3): Result<Vector3>
    decreases |s|
  {
    if |s| == 0 then Ok(acc)
    else
      var t :- ReadVarint32(s);
      var (tag, rest) := t;
      if tag == TAG_VECTOR3_X then
        var f :- ReadFixed32(rest);
        DecodeVector3Fields(f.1, acc.(x := f.0))
      else if tag == TAG_VECTOR3_Y then
        var f :- ReadFixed32(rest);
        DecodeVector3Fields(f.1, acc.(y := f.0))
      else if tag == TAG_VECTOR3_Z then
        var f :- ReadFixed32(rest);
        DecodeVector3Fields(f.1, acc.(z := f.0))
      else
        var rest2 :- SkipUnknown(rest, tag);
        DecodeVector3Fields(rest2, acc)
  }

  function DecodeVector3(s: seq<byte>): Result<Vector3>
  {
    DecodeVector3Fields(s, DEFAULT_VECTOR3)
  }

  function DecodePointFields(s: seq<byte>, acc: MapPathPoint): Result<MapPathPoint>
    decreases |s|
  {
    if |s| == 0 then Ok(acc)
    else
      var t :- ReadVarint32(s);
      var (tag, rest) := t;
      if tag == TAG_POINT_POS then
        var p :- ReadLen(rest);
        var v :- DecodeVector3(p.0);
        DecodePointFields(p.1, acc.(pos := Some(v)))
      else if tag == TAG_POINT_REACH_RANGE then
        var f :- ReadFixed32(rest);
        DecodePointFields(f.1, acc.(reachRange := f.0))
      else
        var rest2 :- SkipUnknown(rest, tag);
        DecodePointFields(rest2, acc)
  }

  function DecodePoint(s: seq<byte>): Result<MapPathPoint>
  {
    DecodePointFields(s, DEFAULT_POINT)
  }

  function DecodePathFields(s: seq<byte>, acc: MapPath): Result<MapPath>
    decreases |s|
  {
    if |s| == 0 then Ok(acc)
    else
      var t :- ReadVarint32(s);
      var (tag, rest) := t;
      if tag == TAG_PATH_POINTS then
        var p :- ReadLen(rest);
        var point :- DecodePoint(p.0);
        DecodePathFields(p.1, acc.(points := acc.points + [point]))
      else
        var rest2 :- SkipUnknown(rest, tag);
        DecodePathFields(rest2, acc)
  }

  function DecodePath(s: seq<byte>): Result<MapPath>
  {
    DecodePathFields(s, MapPath([]))
  }

  function DecodeMapFields(s: seq<byte>, acc: Map): Result<Map>
    decreases |s|
  {
    if |s| == 0 then Ok(acc)
    else
      var t :- ReadVarint32(s);
      var (tag, rest) := t;
      if tag == TAG_MAP_PATHS then
        var p :- ReadLen(rest);
        var path :- DecodePath(p.0);
        DecodeMapFields(p.1, acc.(paths := acc.paths + [path]))
      else
        var rest2 :- SkipUnknown(rest, tag);
        DecodeMapFields(rest2, acc)
  }

  function DecodeMap(s: seq<byte>): Result<Map>
  {
    DecodeMapFields(s, Map([]))
  }

  function DecodeUnitFields(s: seq<byte>, acc: MapWaveUnit): Result<MapWaveUnit>
    decreases |s|
  {
    if |s| == 0 then Ok(acc)
    else
      var t :- ReadVarint32(s);
      var (tag, rest) := t;
      if tag == TAG_UNIT_NAME then
        var p :- ReadString(rest);
        DecodeUnitFields(p.1, acc.(unitName := p.0))
      else if tag == TAG_UNIT_COUNT then
        var v :- ReadVarint32(rest);
        DecodeUnitFields(v.1, acc.(uintCount := v.0))
      else if tag == TAG_UNIT_PATH_INDEX then
        var v :- ReadVarint32(rest);
        DecodeUnitFields(v.1, acc.(pathIndex := v.0))
      else
        var rest2 :- SkipUnknown(rest, tag);
        DecodeUnitFields(rest2, acc)
  }

  function DecodeUnit(s: seq<byte>): Result<MapWaveUnit>
  {
    DecodeUnitFields(s, DEFAULT_UNIT)
  }

  function DecodeWaveFields(s: seq<byte>, acc: MapWave): Result<MapWave>
    decreases |s|
  {
    if |s| == 0 then Ok(acc)
    else
      var t :- ReadVarint32(s);
      var (tag, rest) := t;
      if tag == TAG_WAVE_START_TIME then
        var f :- ReadFixed32(rest);
        DecodeWaveFields(f.1, acc.(startTime := f.0))
      else if tag == TAG_WAVE_UNITS then
        var p :- ReadLen(rest);
        var unit :- DecodeUnit(p.0);
        DecodeWaveFields(p.1, acc.(units := acc.units + [unit]))
      else
        var rest2 :- SkipUnknown(rest, tag);
        DecodeWaveFields(rest2, acc)
  }

  function DecodeWave(s: seq<byte>): Result<MapWave>
  {
    DecodeWaveFields(s, DEFAULT_WAVE)
  }
}
