/**
 * Protocol Buffers binary wire format (Google's "Encoding" document) as used
 * by the generated map-config codec: base-128 varints, little-endian fixed32,
 * length-delimited payloads, tags `(field << 3) | wire_type`, and skipping of
 * unknown fields.  The reader is modelled on a byte sequence: every read
 * returns the decoded value together with the unread suffix.
 */
module ProtoWire {

  type byte = x: int | 0 <= x < 256
  type u32 = x: int | 0 <= x < 0x1_0000_0000

  const U32_LIMIT: nat := 0x1_0000_0000
  const U64_LIMIT: nat := 0x1_0000_0000_0000_0000

  const WIRE_VARINT: nat := 0
  const WIRE_FIXED64: nat := 1
  const WIRE_LEN: nat := 2
  const WIRE_START_GROUP: nat := 3
  const WIRE_END_GROUP: nat := 4
  const WIRE_FIXED32: nat := 5

  /** Longest varint the reader accepts (a 64-bit value). */
  const MAX_VARINT_BYTES: nat := 10

  datatype DecodeError =
    | UnexpectedEndOfBuffer
    | VarintOverflow
    | DeprecatedGroup
    | UnknownWireType(wireType: nat)
    | InvalidUtf8

  datatype Result<+T> = Ok(value: T) | Err(error: DecodeError) {
    predicate IsFailure() { Err? }
    function PropagateFailure<U>(): Result<U>
      requires Err?
    {
      Err(error)
    }
    function Extract(): T
      requires Ok?
    {
      value
    }
  }

  // ---------------------------------------------------------------- tags

  function Tag(field: nat, wireType: nat): (t: nat)
    requires wireType < 8
    ensures t % 8 == wireType && t / 8 == field
  {
    field * 8 + wireType
  }

  function WireTypeOf(tag: nat): nat { tag % 8 }

  // ---------------------------------------------------------------- varints

  /** Base-128 little-endian groups; every byte but the last has bit 7 set. */
  function EncodeVarint(n: nat): (r: seq<byte>)
    ensures 1 <= |r|
    decreases n
  {
    if n < 128 then [n] else [n % 128 + 128] + EncodeVarint(n / 128)
  }

  /** The writer's size table for a 64-bit varint. */
  function SizeofVarint(n: nat): nat
  {
    if n <= 0x7F then 1
    else if n <= 0x3FFF then 2
    else if n <= 0x1F_FFFF then 3
    else if n <= 0xFFF_FFFF then 4
    else if n <= 0x7_FFFF_FFFF then 5
    else if n <= 0x3FF_FFFF_FFFF then 6
    else if n <= 0x1_FFFF_FFFF_FFFF then 7
    else if n <= 0xFF_FFFF_FFFF_FFFF then 8
    else if n <= 0x7FFF_FFFF_FFFF_FFFF then 9
    else 10
  }

  /** Size of a length prefix followed by `n` payload bytes. */
  function SizeofLen(n: nat): nat { SizeofVarint(n) + n }

  lemma {:induction false} SizeofVarintIsEncodedLength(n: nat)
    requires n < U64_LIMIT
    ensures |EncodeVarint(n)| == SizeofVarint(n)
    ensures SizeofVarint(n) <= MAX_VARINT_BYTES
    decreases n
  {
    if n >= 128 {
      SizeofVarintIsEncodedLength(n / 128);
    }
  }

  /**
   * Reads one varint; `consumed` bytes of it have already been read.  The
   * tenth byte must end the varint.
   */
  function ReadVarintFrom(s: seq<byte>, consumed: nat): (r: Result<(nat, seq<byte>)>)
    requires consumed < MAX_VARINT_BYTES
    ensures r.Ok? ==> |r.value.1| < |s|
    decreases MAX_VARINT_BYTES - consumed
  {
    if |s| == 0 then Err(UnexpectedEndOfBuffer)
    else if s[0] < 128 then Ok((s[0], s[1..]))
    else if consumed == MAX_VARINT_BYTES - 1 then Err(VarintOverflow)
    else
      var high :- ReadVarintFrom(s[1..], consumed + 1);
      Ok((s[0] - 128 + 128 * high.0, high.1))
  }

  function ReadVarint(s: seq<byte>): (r: Result<(nat, seq<byte>)>)
    ensures r.Ok? ==> |r.value.1| < |s|
  {
    ReadVarintFrom(s, 0)
  }

  /** A varint truncated to its low 32 bits (tags, lengths, uint32 fields). */
  function ReadVarint32(s: seq<byte>): (r: Result<(u32, seq<byte>)>)
    ensures r.Ok? ==> |r.value.1| < |s|
  {
    var v :- ReadVarint(s);
    Ok((v.0 % U32_LIMIT, v.1))
  }

  lemma {:induction false} ReadVarintFromEncoded(n: nat, rest: seq<byte>, consumed: nat)
    requires consumed + |EncodeVarint(n)| <= MAX_VARINT_BYTES
    ensures ReadVarintFrom(EncodeVarint(n) + rest, consumed) == Ok((n, rest))
    decreases n
  {
    var s := EncodeVarint(n) + rest;
    if n >= 128 {
      assert s[1..] == EncodeVarint(n / 128) + rest;
      ReadVarintFromEncoded(n / 128, rest, consumed + 1);
    } else {
      assert s[1..] == rest;
    }
  }

  /** Varint round trip for every value a 64-bit varint can carry. */
  lemma ReadEncodedVarint(n: nat, rest: seq<byte>)
    requires n < U64_LIMIT
    ensures ReadVarint(EncodeVarint(n) + rest) == Ok((n, rest))
  {
    SizeofVarintIsEncodedLength(n);
    ReadVarintFromEncoded(n, rest, 0);
  }

  lemma ReadEncodedVarint32(n: nat, rest: seq<byte>)
    requires n < U32_LIMIT
    ensures ReadVarint32(EncodeVarint(n) + rest) == Ok((n, rest))
  {
    ReadEncodedVarint(n, rest);
    assert n % U32_LIMIT == n;
  }

  // ---------------------------------------------------------------- fixed32

  /** Little-endian four-byte encoding of a 32-bit pattern. */
  function EncodeFixed32(v: u32): (r: seq<byte>)
    ensures |r| == 4
  {
    var q1 := v / 256;
    var q2 := q1 / 256;
    [v % 256, q1 % 256, q2 % 256, q2 / 256]
  }

  function ReadFixed32(s: seq<byte>): (r: Result<(u32, seq<byte>)>)
    ensures r.Ok? <==> |s| >= 4
    ensures r.Ok? ==> r.value.1 == s[4..]
  {
    if |s| < 4 then Err(UnexpectedEndOfBuffer)
    else
      var b0: int, b1: int, b2: int, b3: int := s[0], s[1], s[2], s[3];
      Ok((b0 + 256 * (b1 + 256 * (b2 + 256 * b3)), s[4..]))
  }

  lemma ReadEncodedFixed32(v: u32, rest: seq<byte>)
    ensures ReadFixed32(EncodeFixed32(v) + rest) == Ok((v, rest))
  {
    var s := EncodeFixed32(v) + rest;
    assert s[4..] == rest;
  }

  // ---------------------------------------------------------------- payloads

  /** Reads a length prefix and splits off that many payload bytes. */
  function ReadLen(s: seq<byte>): (r: Result<(seq<byte>, seq<byte>)>)
    ensures r.Ok? ==> |r.value.0| + |r.value.1| < |s|
  {
    var n :- ReadVarint32(s);
    var (len, rest) := n;
    if len > |rest| then Err(UnexpectedEndOfBuffer)
    else Ok((rest[..len], rest[len..]))
  }

  /** A length prefix that fits in what follows splits it at that length. */
  lemma ReadLenStep(s: seq<byte>, len: nat, r: seq<byte>)
    requires ReadVarint32(s) == Ok((len, r)) && len <= |r|
    ensures ReadLen(s) == Ok((r[..len], r[len..]))
  {
  }

  /** A prefix that claims more bytes than remain is a truncation error. */
  lemma ReadLenTruncated(s: seq<byte>, len: nat, r: seq<byte>)
    requires ReadVarint32(s) == Ok((len, r)) && len > |r|
    ensures ReadLen(s) == Err(UnexpectedEndOfBuffer)
  {
  }

  /** Splitting `payload + rest` at the payload's length gives back both parts. */
  lemma SplitAtPayload(prefix: seq<byte>, payload: seq<byte>, rest: seq<byte>)
    ensures prefix + payload + rest == prefix + (payload + rest)
    ensures (payload + rest)[..|payload|] == payload
    ensures (payload + rest)[|payload|..] == rest
  {
  }

  lemma ReadEncodedLen(payload: seq<byte>, rest: seq<byte>)
    requires |payload| < U32_LIMIT
    ensures ReadLen(EncodeVarint(|payload|) + payload + rest) == Ok((payload, rest))
  {
    var r := payload + rest;
    SplitAtPayload(EncodeVarint(|payload|), payload, rest);
    ReadEncodedVarint32(|payload|, r);
    ReadLenStep(EncodeVarint(|payload|) + r, |payload|, r);
  }

  predicate IsContinuation(b: byte) { 0x80 <= b <= 0xBF }

  /** Well-formed UTF-8 (Table 3-7 of the Unicode Standard). */
  predicate Utf8Valid(s: seq<byte>)
    decreases |s|
  {
    if |s| == 0 then true
    else if s[0] <= 0x7F then Utf8Valid(s[1..])
    else if 0xC2 <= s[0] <= 0xDF then
      |s| >= 2 && IsContinuation(s[1]) && Utf8Valid(s[2..])
    else if 0xE0 <= s[0] <= 0xEF then
      |s| >= 3 && IsContinuation(s[2])
      && (if s[0] == 0xE0 then 0xA0 <= s[1] <= 0xBF
          else if s[0] == 0xED then 0x80 <= s[1] <= 0x9F
          else IsContinuation(s[1]))
      && Utf8Valid(s[3..])
    else if 0xF0 <= s[0] <= 0xF4 then
      |s| >= 4 && IsContinuation(s[2]) && IsContinuation(s[3])
      && (if s[0] == 0xF0 then 0x90 <= s[1] <= 0xBF
          else if s[0] == 0xF4 then 0x80 <= s[1] <= 0x8F
          else IsContinuation(s[1]))
      && Utf8Valid(s[4..])
    else false
  }

  /** A length-delimited string; invalid UTF-8 is an error. */
  function ReadString(s: seq<byte>): (r: Result<(seq<byte>, seq<byte>)>)
    ensures r.Ok? ==> Utf8Valid(r.value.0) && |r.value.1| < |s|
    ensures r.Ok? <==> ReadLen(s).Ok? && Utf8Valid(ReadLen(s).value.0)
  {
    var p :- ReadLen(s);
    if Utf8Valid(p.0) then Ok(p) else Err(InvalidUtf8)
  }

  /**
   * Skips the payload of a field whose tag the message does not know, by the
   * tag's wire type; group wire types and 6/7 are errors.
   */
  function SkipUnknown(s: seq<byte>, tag: nat): (r: Result<seq<byte>>)
    ensures r.Ok? ==> |r.value| < |s|
    ensures WireTypeOf(tag) in {WIRE_START_GROUP, WIRE_END_GROUP} ==> r == Err(DeprecatedGroup)
    ensures WireTypeOf(tag) in {6, 7} ==> r == Err(UnknownWireType(WireTypeOf(tag)))
  {
    var wt := WireTypeOf(tag);
    if wt == WIRE_VARINT then
      var v :- ReadVarint(s);
      Ok(v.1)
    else if wt == WIRE_FIXED64 then
      if |s| < 8 then Err(UnexpectedEndOfBuffer) else Ok(s[8..])
    else if wt == WIRE_LEN then
      var p :- ReadLen(s);
      Ok(p.1)
    else if wt == WIRE_FIXED32 then
      if |s| < 4 then Err(UnexpectedEndOfBuffer) else Ok(s[4..])
    else if wt == WIRE_START_GROUP || wt == WIRE_END_GROUP then Err(DeprecatedGroup)
    else Err(UnknownWireType(wt))
  }

  // ---------------------------------------------------------------- writers

  /** `write_with_tag(tag, write_float(f))`. */
  function FixedField(tag: nat, f: u32): (r: seq<byte>)
    ensures tag < 128 ==> |r| == 5 && r[0] == tag
  {
    EncodeVarint(tag) + EncodeFixed32(f)
  }

  /** `write_with_tag(tag, write_uint32(v))`. */
  function VarintField(tag: nat, v: nat): seq<byte>
  {
    EncodeVarint(tag) + EncodeVarint(v)
  }

  /**
   * `write_with_tag(tag, write_message(m))` or `write_string`: the prefix is
   * the length the writer is told (`declared`), followed by the payload.
   */
  function LenField(tag: nat, declared: nat, payload: seq<byte>): seq<byte>
  {
    EncodeVarint(tag) + EncodeVarint(declared) + payload
  }
}
