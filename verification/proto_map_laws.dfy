/**
 * Laws of the map-config codec: every message read back from the bytes its
 * writer produced is the original (up to the sign of a zero float), a
 * singular field written twice keeps the later value, repeated fields
 * append in encounter order, unknown fields are skipped and reader errors
 * propagate out of nested messages.
 */
module ProtoMapLaws {
  import opened Wrappers
  import opened ProtoWire
  import opened ProtoMap

  /** The message the reader holds after the fields of `v` are read on top of `acc`. */
  function OverlayVector3(acc: Vector3, v: Vector3): Vector3
  {
    Vector3(if IsZero(v.x) then acc.x else v.x,
            if IsZero(v.y) then acc.y else v.y,
            if IsZero(v.z) then acc.z else v.z)
  }

  /** A present `pos` replaces the earlier one as a whole; it is not merged. */
  function OverlayPoint(acc: MapPathPoint, p: MapPathPoint): MapPathPoint
  {
    MapPathPoint(if p.pos.Some? then Some(CanonVector3(p.pos.value)) else acc.pos,
                 if IsZero(p.reachRange) then acc.reachRange else p.reachRange)
  }

  function OverlayUnit(acc: MapWaveUnit, u: MapWaveUnit): MapWaveUnit
  {
    MapWaveUnit(if |u.unitName| == 0 then acc.unitName else u.unitName,
                if u.uintCount == 0 then acc.uintCount else u.uintCount,
                if u.pathIndex == 0 then acc.pathIndex else u.pathIndex)
  }

  predicate NamesValid(us: seq<MapWaveUnit>)
  {
    forall u :: u in us ==> Utf8Valid(u.unitName)
  }

  // ------------------------------------------------------------ reading one field

  lemma ReadFixedField(tag: nat, f: F32, rest: seq<byte>)
    requires tag < 128
    ensures ReadVarint32(FixedField(tag, f) + rest) == Ok((tag, EncodeFixed32(f) + rest))
    ensures ReadFixed32(EncodeFixed32(f) + rest) == Ok((f, rest))
  {
    assert FixedField(tag, f) + rest == EncodeVarint(tag) + (EncodeFixed32(f) + rest);
    ReadEncodedVarint32(tag, EncodeFixed32(f) + rest);
    ReadEncodedFixed32(f, rest);
  }

  lemma ReadVarintField(tag: nat, v: nat, rest: seq<byte>)
    requires tag < U32_LIMIT && v < U64_LIMIT
    ensures ReadVarint32(VarintField(tag, v) + rest) == Ok((tag, EncodeVarint(v) + rest))
    ensures ReadVarint(EncodeVarint(v) + rest) == Ok((v, rest))
    ensures v < U32_LIMIT ==> ReadVarint32(EncodeVarint(v) + rest) == Ok((v, rest))
  {
    assert VarintField(tag, v) + rest == EncodeVarint(tag) + (EncodeVarint(v) + rest);
    ReadEncodedVarint32(tag, EncodeVarint(v) + rest);
    ReadEncodedVarint(v, rest);
    if v < U32_LIMIT {
      ReadEncodedVarint32(v, rest);
    }
  }

  /** A length-delimited field splits into its tag varint and the rest. */
  lemma LenFieldSplit(tag: nat, payload: seq<byte>, rest: seq<byte>)
    ensures LenField(tag, |payload|, payload) + rest ==
            EncodeVarint(tag) + (EncodeVarint(|payload|) + payload + rest)
  {
  }

  lemma Assoc<T>(a: seq<T>, b: seq<T>, c: seq<T>)
    ensures (a + b) + c == a + (b + c)
  {
  }

  lemma AppendHead<T>(a: seq<T>, xs: seq<T>)
    requires |xs| > 0
    ensures (a + [xs[0]]) + xs[1..] == a + xs
  {
    assert xs == [xs[0]] + xs[1..];
  }

  lemma ReadLenField(tag: nat, payload: seq<byte>, rest: seq<byte>)
    requires tag < U32_LIMIT && |payload| < U32_LIMIT
    ensures ReadVarint32(LenField(tag, |payload|, payload) + rest) ==
            Ok((tag, EncodeVarint(|payload|) + payload + rest))
    ensures ReadLen(EncodeVarint(|payload|) + payload + rest) == Ok((payload, rest))
  {
    var body := EncodeVarint(|payload|) + payload + rest;
    LenFieldSplit(tag, payload, rest);
    ReadEncodedVarint32(tag, body);
    ReadEncodedLen(payload, rest);
  }

  // ------------------------------------------------------------ whole messages

  /** The top-level reader starts from the default message and stops at the end of the bytes. */
  lemma PathWhole(s: seq<byte>, c: seq<MapPathPoint>)
    requires DecodePathFields(s + [], MapPath([])) == DecodePathFields([], MapPath([] + c))
    ensures DecodePath(s) == Ok(MapPath(c))
  {
    assert s + [] == s;
    assert [] + c == c;
  }

  lemma MapWhole(s: seq<byte>, c: seq<MapPath>)
    requires DecodeMapFields(s + [], Map([])) == DecodeMapFields([], Map([] + c))
    ensures DecodeMap(s) == Ok(Map(c))
  {
    assert s + [] == s;
    assert [] + c == c;
  }

  lemma MapConcatWhole(sa: seq<byte>, sb: seq<byte>, ca: seq<MapPath>, cb: seq<MapPath>)
    requires DecodeMapFields(sa + sb, Map([])) == DecodeMapFields(sb, Map([] + ca))
    requires DecodeMapFields(sb + [], Map(ca)) == DecodeMapFields([], Map(ca + cb))
    ensures DecodeMap(sa + sb) == Ok(Map(ca + cb))
  {
    assert sb + [] == sb;
    assert [] + ca == ca;
  }

  // ------------------------------------------------------------ one reader step

  lemma Vector3FloatStep(s: seq<byte>, tag: nat, rest: seq<byte>, f: F32, rest2: seq<byte>, acc: Vector3)
    requires ReadVarint32(s) == Ok((tag, rest)) && ReadFixed32(rest) == Ok((f, rest2))
    requires tag in {TAG_VECTOR3_X, TAG_VECTOR3_Y, TAG_VECTOR3_Z}
    ensures DecodeVector3Fields(s, acc) ==
      DecodeVector3Fields(rest2,
        if tag == TAG_VECTOR3_X then acc.(x := f)
        else if tag == TAG_VECTOR3_Y then acc.(y := f)
        else acc.(z := f))
  {
  }

  lemma Vector3UnknownStep(s: seq<byte>, tag: nat, rest: seq<byte>, rest2: seq<byte>, acc: Vector3)
    requires ReadVarint32(s) == Ok((tag, rest)) && SkipUnknown(rest, tag) == Ok(rest2)
    requires tag !in {TAG_VECTOR3_X, TAG_VECTOR3_Y, TAG_VECTOR3_Z}
    ensures DecodeVector3Fields(s, acc) == DecodeVector3Fields(rest2, acc)
  {
  }

  lemma PointPosStep(s: seq<byte>, rest: seq<byte>, payload: seq<byte>, tail: seq<byte>, v: Vector3, acc: MapPathPoint)
    requires ReadVarint32(s) == Ok((TAG_POINT_POS, rest)) && ReadLen(rest) == Ok((payload, tail))
    requires DecodeVector3(payload) == Ok(v)
    ensures DecodePointFields(s, acc) == DecodePointFields(tail, acc.(pos := Some(v)))
  {
  }

  lemma PointReachStep(s: seq<byte>, rest: seq<byte>, f: F32, rest2: seq<byte>, acc: MapPathPoint)
    requires ReadVarint32(s) == Ok((TAG_POINT_REACH_RANGE, rest)) && ReadFixed32(rest) == Ok((f, rest2))
    ensures DecodePointFields(s, acc) == DecodePointFields(rest2, acc.(reachRange := f))
  {
  }

  lemma PathPointStep(s: seq<byte>, rest: seq<byte>, payload: seq<byte>, tail: seq<byte>, p: MapPathPoint, acc: MapPath)
    requires ReadVarint32(s) == Ok((TAG_PATH_POINTS, rest)) && ReadLen(rest) == Ok((payload, tail))
    requires DecodePoint(payload) == Ok(p)
    ensures DecodePathFields(s, acc) == DecodePathFields(tail, acc.(points := acc.points + [p]))
  {
  }

  lemma MapPathStep(s: seq<byte>, rest: seq<byte>, payload: seq<byte>, tail: seq<byte>, acc: Map)
    requires ReadVarint32(s) == Ok((TAG_MAP_PATHS, rest)) && ReadLen(rest) == Ok((payload, tail))
    ensures DecodeMapFields(s, acc) ==
      if DecodePath(payload).Ok?
      then DecodeMapFields(tail, acc.(paths := acc.paths + [DecodePath(payload).value]))
      else Err(DecodePath(payload).error)
  {
  }

  lemma MapUnknownStep(s: seq<byte>, tag: nat, rest: seq<byte>, rest2: seq<byte>, acc: Map)
    requires ReadVarint32(s) == Ok((tag, rest)) && SkipUnknown(rest, tag) == Ok(rest2)
    requires tag != TAG_MAP_PATHS
    ensures DecodeMapFields(s, acc) == DecodeMapFields(rest2, acc)
  {
  }

  lemma UnitNameStep(s: seq<byte>, rest: seq<byte>, payload: seq<byte>, tail: seq<byte>, acc: MapWaveUnit)
    requires ReadVarint32(s) == Ok((TAG_UNIT_NAME, rest)) && ReadLen(rest) == Ok((payload, tail))
    ensures DecodeUnitFields(s, acc) ==
      if Utf8Valid(payload) then DecodeUnitFields(tail, acc.(unitName := payload)) else Err(InvalidUtf8)
  {
  }

  lemma UnitUintStep(s: seq<byte>, tag: nat, rest: seq<byte>, v: u32, rest2: seq<byte>, acc: MapWaveUnit)
    requires ReadVarint32(s) == Ok((tag, rest)) && ReadVarint32(rest) == Ok((v, rest2))
    requires tag in {TAG_UNIT_COUNT, TAG_UNIT_PATH_INDEX}
    ensures DecodeUnitFields(s, acc) ==
      DecodeUnitFields(rest2, if tag == TAG_UNIT_COUNT then acc.(uintCount := v) else acc.(pathIndex := v))
  {
  }

  lemma WaveStartStep(s: seq<byte>, rest: seq<byte>, f: F32, rest2: seq<byte>, acc: MapWave)
    requires ReadVarint32(s) == Ok((TAG_WAVE_START_TIME, rest)) && ReadFixed32(rest) == Ok((f, rest2))
    ensures DecodeWaveFields(s, acc) == DecodeWaveFields(rest2, acc.(startTime := f))
  {
  }

  lemma WaveUnitStep(s: seq<byte>, rest: seq<byte>, payload: seq<byte>, tail: seq<byte>, u: MapWaveUnit, acc: MapWave)
    requires ReadVarint32(s) == Ok((TAG_WAVE_UNITS, rest)) && ReadLen(rest) == Ok((payload, tail))
    requires DecodeUnit(payload) == Ok(u)
    ensures DecodeWaveFields(s, acc) == DecodeWaveFields(tail, acc.(units := acc.units + [u]))
  {
  }

  // ------------------------------------------------------------ Vector3

  lemma Vector3FloatField(tag: nat, f: F32, rest: seq<byte>, acc: Vector3)
    requires tag in {TAG_VECTOR3_X, TAG_VECTOR3_Y, TAG_VECTOR3_Z}
    ensures DecodeVector3Fields(FloatField(tag, f) + rest, acc) ==
      DecodeVector3Fields(rest,
        if IsZero(f) then acc
        else if tag == TAG_VECTOR3_X then acc.(x := f)
        else if tag == TAG_VECTOR3_Y then acc.(y := f)
        else acc.(z := f))
  {
    if IsZero(f) {
      assert FloatField(tag, f) + rest == rest;
    } else {
      ReadFixedField(tag, f, rest);
      Vector3FloatStep(FloatField(tag, f) + rest, tag, EncodeFixed32(f) + rest, f, rest, acc);
    }
  }

  lemma Vector3Fields(v: Vector3, rest: seq<byte>, acc: Vector3)
    ensures DecodeVector3Fields(EncodeVector3(v) + rest, acc) ==
            DecodeVector3Fields(rest, OverlayVector3(acc, v))
  {
    var fx := FloatField(TAG_VECTOR3_X, v.x);
    var fy := FloatField(TAG_VECTOR3_Y, v.y);
    var fz := FloatField(TAG_VECTOR3_Z, v.z);
    assert EncodeVector3(v) + rest == fx + (fy + (fz + rest));
    Vector3FloatField(TAG_VECTOR3_X, v.x, fy + (fz + rest), acc);
    var a1 := if IsZero(v.x) then acc else acc.(x := v.x);
    Vector3FloatField(TAG_VECTOR3_Y, v.y, fz + rest, a1);
    var a2 := if IsZero(v.y) then a1 else a1.(y := v.y);
    Vector3FloatField(TAG_VECTOR3_Z, v.z, rest, a2);
  }

  /** Reading back what `Vector3::write_message` wrote gives the vector, with -0.0 read as +0.0. */
  lemma Vector3RoundTrip(v: Vector3)
    ensures DecodeVector3(EncodeVector3(v)) == Ok(CanonVector3(v))
  {
    Vector3Fields(v, [], DEFAULT_VECTOR3);
    assert EncodeVector3(v) + [] == EncodeVector3(v);
  }

  /** A coordinate seen twice keeps the later (written) value. */
  lemma Vector3LastValueWins(a: Vector3, b: Vector3)
    ensures DecodeVector3(EncodeVector3(a) + EncodeVector3(b)) ==
            Ok(OverlayVector3(CanonVector3(a), b))
  {
    Vector3Fields(a, EncodeVector3(b), DEFAULT_VECTOR3);
    Vector3Fields(b, [], OverlayVector3(DEFAULT_VECTOR3, a));
    assert EncodeVector3(b) + [] == EncodeVector3(b);
  }

  /** Any length-delimited field is unknown to `Vector3` and is skipped without effect. */
  lemma Vector3SkipsUnknownField(field: nat, payload: seq<byte>, rest: seq<byte>, acc: Vector3)
    requires Tag(field, WIRE_LEN) < U32_LIMIT && |payload| < U32_LIMIT
    ensures DecodeVector3Fields(LenField(Tag(field, WIRE_LEN), |payload|, payload) + rest, acc) ==
            DecodeVector3Fields(rest, acc)
  {
    var tag := Tag(field, WIRE_LEN);
    var body := EncodeVarint(|payload|) + payload + rest;
    ReadLenField(tag, payload, rest);
    assert SkipUnknown(body, tag) == Ok(rest);
    Vector3UnknownStep(LenField(tag, |payload|, payload) + rest, tag, body, rest, acc);
  }

  /** A coordinate tag followed by fewer than four bytes is a reader error. */
  lemma Vector3TruncatedFloat(tag: nat, tail: seq<byte>, acc: Vector3)
    requires tag in {TAG_VECTOR3_X, TAG_VECTOR3_Y, TAG_VECTOR3_Z} && |tail| < 4
    ensures DecodeVector3Fields([tag] + tail, acc) == Err(UnexpectedEndOfBuffer)
  {
    assert [tag] + tail == EncodeVarint(tag) + tail;
    ReadEncodedVarint32(tag, tail);
  }

  // ------------------------------------------------------------ MapPathPoint

  lemma PointFields(p: MapPathPoint, rest: seq<byte>, acc: MapPathPoint)
    ensures DecodePointFields(EncodePoint(p) + rest, acc) ==
            DecodePointFields(rest, OverlayPoint(acc, p))
  {
    var posBytes := match p.pos
      case None => []
      case Some(m) => LenField(TAG_POINT_POS, Vector3Size(m), EncodeVector3(m));
    var rr := FloatField(TAG_POINT_REACH_RANGE, p.reachRange);
    assert EncodePoint(p) + rest == posBytes + (rr + rest);
    var a1 := acc;
    if p.pos.Some? {
      var m := p.pos.value;
      var e := EncodeVector3(m);
      Vector3SizeMatchesEncoding(m);
      ReadLenField(TAG_POINT_POS, e, rr + rest);
      Vector3RoundTrip(m);
      PointPosStep(posBytes + (rr + rest), EncodeVarint(|e|) + e + (rr + rest), e, rr + rest, CanonVector3(m), acc);
      a1 := acc.(pos := Some(CanonVector3(m)));
    } else {
      assert posBytes + (rr + rest) == rr + rest;
    }
    assert DecodePointFields(posBytes + (rr + rest), acc) == DecodePointFields(rr + rest, a1);
    if !IsZero(p.reachRange) {
      ReadFixedField(TAG_POINT_REACH_RANGE, p.reachRange, rest);
      PointReachStep(rr + rest, EncodeFixed32(p.reachRange) + rest, p.reachRange, rest, a1);
    } else {
      assert rr + rest == rest;
    }
  }

  lemma PointRoundTrip(p: MapPathPoint)
    ensures DecodePoint(EncodePoint(p)) == Ok(CanonPoint(p))
  {
    PointFields(p, [], DEFAULT_POINT);
    assert EncodePoint(p) + [] == EncodePoint(p);
  }

  /** A second `pos` replaces the first as a whole (the generated reader does not merge). */
  lemma PointLastPosWins(a: MapPathPoint, b: MapPathPoint)
    requires b.pos.Some?
    ensures DecodePoint(EncodePoint(a) + EncodePoint(b)) ==
            Ok(MapPathPoint(Some(CanonVector3(b.pos.value)),
                            if IsZero(b.reachRange) then Canon(a.reachRange) else b.reachRange))
  {
    PointFields(a, EncodePoint(b), DEFAULT_POINT);
    PointFields(b, [], OverlayPoint(DEFAULT_POINT, a));
    assert EncodePoint(b) + [] == EncodePoint(b);
  }

  // ------------------------------------------------------------ MapPath

  lemma EncodePointsHead(ps: seq<MapPathPoint>, rest: seq<byte>)
    requires |ps| > 0
    ensures EncodePoints(ps) + rest ==
            LenField(TAG_PATH_POINTS, PointSize(ps[0]), EncodePoint(ps[0])) + (EncodePoints(ps[1..]) + rest)
  {
    Assoc(LenField(TAG_PATH_POINTS, PointSize(ps[0]), EncodePoint(ps[0])), EncodePoints(ps[1..]), rest);
  }

  /** The first point of a `points` run reads back as its canonical form. */
  lemma PathPointHead(ps: seq<MapPathPoint>, rest: seq<byte>, acc: MapPath)
    requires |ps| > 0 && PointsSize(ps) < U32_LIMIT
    ensures DecodePathFields(EncodePoints(ps) + rest, acc) ==
            DecodePathFields(EncodePoints(ps[1..]) + rest, MapPath(acc.points + [CanonPoint(ps[0])]))
    ensures PointsSize(ps[1..]) < U32_LIMIT
  {
    var e := EncodePoint(ps[0]);
    var tail := EncodePoints(ps[1..]) + rest;
    PointSizeMatchesEncoding(ps[0]);
    EncodePointsHead(ps, rest);
    ReadLenField(TAG_PATH_POINTS, e, tail);
    PointRoundTrip(ps[0]);
    PathPointStep(EncodePoints(ps) + rest, EncodeVarint(|e|) + e + tail, e, tail, CanonPoint(ps[0]), acc);
  }

  lemma {:induction false} PathFields(ps: seq<MapPathPoint>, rest: seq<byte>, acc: MapPath)
    requires PointsSize(ps) < U32_LIMIT
    ensures DecodePathFields(EncodePoints(ps) + rest, acc) ==
            DecodePathFields(rest, MapPath(acc.points + CanonPoints(ps)))
    decreases |ps|
  {
    if |ps| == 0 {
      assert EncodePoints(ps) + rest == rest;
      assert acc.points + CanonPoints(ps) == acc.points;
    } else {
      PathPointHead(ps, rest, acc);
      var acc1 := MapPath(acc.points + [CanonPoint(ps[0])]);
      PathFields(ps[1..], rest, acc1);
      assert CanonPoints(ps) == [CanonPoint(ps[0])] + CanonPoints(ps[1..]);
      AppendHead(acc.points, CanonPoints(ps));
    }
  }

  lemma PathRoundTrip(m: MapPath)
    requires PathSize(m) < U32_LIMIT
    ensures DecodePath(EncodePath(m)) == Ok(CanonPath(m))
  {
    PathFields(m.points, [], MapPath([]));
    PathWhole(EncodePoints(m.points), CanonPoints(m.points));
  }

  // ------------------------------------------------------------ Map

  lemma EncodePathsHead(ps: seq<MapPath>, rest: seq<byte>)
    requires |ps| > 0
    ensures EncodePaths(ps) + rest ==
            LenField(TAG_MAP_PATHS, PathSize(ps[0]), EncodePath(ps[0])) + (EncodePaths(ps[1..]) + rest)
  {
    Assoc(LenField(TAG_MAP_PATHS, PathSize(ps[0]), EncodePath(ps[0])), EncodePaths(ps[1..]), rest);
  }

  /** The first path of a `paths` run reads back as its canonical form. */
  lemma MapPathHead(ps: seq<MapPath>, rest: seq<byte>, acc: Map)
    requires |ps| > 0 && PathsSize(ps) < U32_LIMIT
    ensures DecodeMapFields(EncodePaths(ps) + rest, acc) ==
            DecodeMapFields(EncodePaths(ps[1..]) + rest, Map(acc.paths + [CanonPath(ps[0])]))
    ensures PathsSize(ps[1..]) < U32_LIMIT
  {
    var e := EncodePath(ps[0]);
    var tail := EncodePaths(ps[1..]) + rest;
    PointsSizeMatchesEncoding(ps[0].points);
    EncodePathsHead(ps, rest);
    ReadLenField(TAG_MAP_PATHS, e, tail);
    PathRoundTrip(ps[0]);
    MapPathStep(EncodePaths(ps) + rest, EncodeVarint(|e|) + e + tail, e, tail, acc);
  }

  lemma {:induction false} MapFields(ps: seq<MapPath>, rest: seq<byte>, acc: Map)
    requires PathsSize(ps) < U32_LIMIT
    ensures DecodeMapFields(EncodePaths(ps) + rest, acc) ==
            DecodeMapFields(rest, Map(acc.paths + CanonPaths(ps)))
    decreases |ps|
  {
    if |ps| == 0 {
      assert EncodePaths(ps) + rest == rest;
      assert acc.paths + CanonPaths(ps) == acc.paths;
    } else {
      MapPathHead(ps, rest, acc);
      var acc1 := Map(acc.paths + [CanonPath(ps[0])]);
      MapFields(ps[1..], rest, acc1);
      assert CanonPaths(ps) == [CanonPath(ps[0])] + CanonPaths(ps[1..]);
      AppendHead(acc.paths, CanonPaths(ps));
    }
  }

  /** Reading back what `Map::write_message` wrote gives the map, paths in order. */
  lemma MapRoundTrip(m: Map)
    requires MapSize(m) < U32_LIMIT
    ensures DecodeMap(EncodeMap(m)) == Ok(CanonMap(m))
  {
    MapFields(m.paths, [], Map([]));
    MapWhole(EncodePaths(m.paths), CanonPaths(m.paths));
  }

  /** Repeated fields are written in vector order. */
  lemma {:induction false} EncodePathsConcat(a: seq<MapPath>, b: seq<MapPath>)
    ensures EncodePaths(a + b) == EncodePaths(a) + EncodePaths(b)
    ensures PathsSize(a + b) == PathsSize(a) + PathsSize(b)
    decreases |a|
  {
    if |a| == 0 {
      assert a + b == b;
    } else {
      assert (a + b)[0] == a[0];
      assert (a + b)[1..] == a[1..] + b;
      EncodePathsConcat(a[1..], b);
    }
  }

  /** Two encoded maps read as one map whose paths are appended in encounter order. */
  lemma MapConcatAppendsPaths(a: Map, b: Map)
    requires MapSize(a) + MapSize(b) < U32_LIMIT
    ensures DecodeMap(EncodeMap(a) + EncodeMap(b)) == Ok(Map(CanonPaths(a.paths) + CanonPaths(b.paths)))
  {
    MapFields(a.paths, EncodePaths(b.paths), Map([]));
    MapFields(b.paths, [], Map(CanonPaths(a.paths)));
    MapConcatWhole(EncodePaths(a.paths), EncodePaths(b.paths), CanonPaths(a.paths), CanonPaths(b.paths));
  }

  /** Any varint field is unknown to `Map` and is skipped without effect. */
  lemma MapSkipsUnknownField(field: nat, v: nat, rest: seq<byte>, acc: Map)
    requires Tag(field, WIRE_VARINT) < U32_LIMIT && v < U64_LIMIT
    ensures DecodeMapFields(VarintField(Tag(field, WIRE_VARINT), v) + rest, acc) ==
            DecodeMapFields(rest, acc)
  {
    var tag := Tag(field, WIRE_VARINT);
    ReadVarintField(tag, v, rest);
    assert SkipUnknown(EncodeVarint(v) + rest, tag) == Ok(rest);
    MapUnknownStep(VarintField(tag, v) + rest, tag, EncodeVarint(v) + rest, rest, acc);
  }

  /** A path that fails to read makes the whole map fail with the same error. */
  lemma MapPathErrorPropagates(payload: seq<byte>, rest: seq<byte>, acc: Map)
    requires |payload| < U32_LIMIT && DecodePath(payload).Err?
    ensures DecodeMapFields(LenField(TAG_MAP_PATHS, |payload|, payload) + rest, acc) ==
            Err(DecodePath(payload).error)
  {
    ReadLenField(TAG_MAP_PATHS, payload, rest);
    MapPathStep(LenField(TAG_MAP_PATHS, |payload|, payload) + rest,
                EncodeVarint(|payload|) + payload + rest, payload, rest, acc);
  }

  // ------------------------------------------------------------ MapWaveUnit

  lemma UnitUintField(tag: nat, v: u32, rest: seq<byte>, acc: MapWaveUnit)
    requires tag in {TAG_UNIT_COUNT, TAG_UNIT_PATH_INDEX}
    ensures DecodeUnitFields(UintField(tag, v) + rest, acc) ==
      DecodeUnitFields(rest,
        if v == 0 then acc
        else if tag == TAG_UNIT_COUNT then acc.(uintCount := v)
        else acc.(pathIndex := v))
  {
    if v == 0 {
      assert UintField(tag, v) + rest == rest;
    } else {
      ReadVarintField(tag, v, rest);
      UnitUintStep(UintField(tag, v) + rest, tag, EncodeVarint(v) + rest, v, rest, acc);
    }
  }

  lemma UnitFields(u: MapWaveUnit, rest: seq<byte>, acc: MapWaveUnit)
    requires Utf8Valid(u.unitName) && |u.unitName| < U32_LIMIT
    ensures DecodeUnitFields(EncodeUnit(u) + rest, acc) ==
            DecodeUnitFields(rest, OverlayUnit(acc, u))
  {
    var nameBytes := if |u.unitName| == 0 then [] else LenField(TAG_UNIT_NAME, |u.unitName|, u.unitName);
    var fc := UintField(TAG_UNIT_COUNT, u.uintCount);
    var fp := UintField(TAG_UNIT_PATH_INDEX, u.pathIndex);
    var tail := fc + (fp + rest);
    assert EncodeUnit(u) + rest == nameBytes + tail;
    var a1 := acc;
    if |u.unitName| > 0 {
      ReadLenField(TAG_UNIT_NAME, u.unitName, tail);
      UnitNameStep(nameBytes + tail, EncodeVarint(|u.unitName|) + u.unitName + tail, u.unitName, tail, acc);
      a1 := acc.(unitName := u.unitName);
    } else {
      assert nameBytes + tail == tail;
    }
    UnitUintField(TAG_UNIT_COUNT, u.uintCount, fp + rest, a1);
    var a2 := if u.uintCount == 0 then a1 else a1.(uintCount := u.uintCount);
    UnitUintField(TAG_UNIT_PATH_INDEX, u.pathIndex, rest, a2);
  }

  /** A unit whose name is valid UTF-8 reads back unchanged. */
  lemma UnitRoundTrip(u: MapWaveUnit)
    requires Utf8Valid(u.unitName) && |u.unitName| < U32_LIMIT
    ensures DecodeUnit(EncodeUnit(u)) == Ok(u)
  {
    UnitFields(u, [], DEFAULT_UNIT);
    assert EncodeUnit(u) + [] == EncodeUnit(u);
  }

  /** A name field that is not UTF-8 makes the unit fail to read. */
  lemma UnitRejectsInvalidName(name: seq<byte>, rest: seq<byte>, acc: MapWaveUnit)
    requires !Utf8Valid(name) && |name| < U32_LIMIT
    ensures DecodeUnitFields(LenField(TAG_UNIT_NAME, |name|, name) + rest, acc) == Err(InvalidUtf8)
  {
    ReadLenField(TAG_UNIT_NAME, name, rest);
    UnitNameStep(LenField(TAG_UNIT_NAME, |name|, name) + rest, EncodeVarint(|name|) + name + rest, name, rest, acc);
  }

  // ------------------------------------------------------------ MapWave

  lemma EncodeUnitsHead(us: seq<MapWaveUnit>, rest: seq<byte>)
    requires |us| > 0
    ensures EncodeUnits(us) + rest ==
            LenField(TAG_WAVE_UNITS, UnitSize(us[0]), EncodeUnit(us[0])) + (EncodeUnits(us[1..]) + rest)
  {
    Assoc(LenField(TAG_WAVE_UNITS, UnitSize(us[0]), EncodeUnit(us[0])), EncodeUnits(us[1..]), rest);
  }

  /** The first unit of a `units` run reads back as itself. */
  lemma WaveUnitHead(us: seq<MapWaveUnit>, rest: seq<byte>, acc: MapWave)
    requires |us| > 0 && UnitsSize(us) < U32_LIMIT && Utf8Valid(us[0].unitName)
    ensures DecodeWaveFields(EncodeUnits(us) + rest, acc) ==
            DecodeWaveFields(EncodeUnits(us[1..]) + rest, acc.(units := acc.units + [us[0]]))
    ensures UnitsSize(us[1..]) < U32_LIMIT
  {
    var u := us[0];
    var e := EncodeUnit(u);
    var tail := EncodeUnits(us[1..]) + rest;
    assert |u.unitName| <= UnitSize(u);
    UnitSizeMatchesEncoding(u);
    EncodeUnitsHead(us, rest);
    ReadLenField(TAG_WAVE_UNITS, e, tail);
    UnitRoundTrip(u);
    WaveUnitStep(EncodeUnits(us) + rest, EncodeVarint(|e|) + e + tail, e, tail, u, acc);
  }

  lemma NamesValidTail(us: seq<MapWaveUnit>)
    requires |us| > 0 && NamesValid(us)
    ensures Utf8Valid(us[0].unitName) && NamesValid(us[1..])
  {
    assert us[0] in us;
    forall x | x in us[1..] ensures Utf8Valid(x.unitName) {
      assert x in us;
    }
  }

  lemma {:induction false} WaveUnitsFields(us: seq<MapWaveUnit>, rest: seq<byte>, acc: MapWave)
    requires UnitsSize(us) < U32_LIMIT && NamesValid(us)
    ensures DecodeWaveFields(EncodeUnits(us) + rest, acc) ==
            DecodeWaveFields(rest, acc.(units := acc.units + us))
    decreases |us|
  {
    if |us| == 0 {
      assert EncodeUnits(us) + rest == rest;
      assert acc.units + us == acc.units;
    } else {
      NamesValidTail(us);
      WaveUnitHead(us, rest, acc);
      var acc1 := acc.(units := acc.units + [us[0]]);
      WaveUnitsFields(us[1..], rest, acc1);
      AppendHead(acc.units, us);
    }
  }

  /** Reading back what `MapWave::write_message` wrote gives the wave, units in order. */
  lemma WaveRoundTrip(w: MapWave)
    requires WaveSize(w) < U32_LIMIT && NamesValid(w.units)
    ensures DecodeWave(EncodeWave(w)) == Ok(CanonWave(w))
  {
    var tail := EncodeUnits(w.units) + [];
    var a1 := if IsZero(w.startTime) then DEFAULT_WAVE else DEFAULT_WAVE.(startTime := w.startTime);
    if IsZero(w.startTime) {
      assert EncodeWave(w) == tail;
    } else {
      assert EncodeWave(w) == FixedField(TAG_WAVE_START_TIME, w.startTime) + tail;
      ReadFixedField(TAG_WAVE_START_TIME, w.startTime, tail);
      WaveStartStep(EncodeWave(w), EncodeFixed32(w.startTime) + tail, w.startTime, tail, DEFAULT_WAVE);
    }
    WaveUnitsFields(w.units, [], a1);
    assert a1.units + w.units == w.units;
  }
}
