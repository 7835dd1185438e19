/**
 * NAL unit records and the one-byte NAL header of ITU-T H.264 (section 7.3.1,
 * semantics in section 7.4.1, codes in Table 7-1).
 *
 * The header is split into forbidden_zero_bit (bit 7), nal_ref_idc (bits 6-5)
 * and nal_unit_type (bits 4-0). Types 1-5 are collapsed into one `Slice`
 * class, 7 is `Sps`, 8 is `Pps`, every other code is kept as `Other(code)`.
 */
module NalTypes {
  import opened Wrappers

  /** The counting key of a unit. */
  datatype NalUnitType = Slice | Sps | Pps | Other(code: bv8)

  /** A classified unit; `payload` holds the bytes after the header. */
  datatype NalUnit =
    | Slice(payload: seq<bv8>)
    | Sps(payload: seq<bv8>)
    | Pps(payload: seq<bv8>)
    | Other(code: bv8, payload: seq<bv8>)

  /** `NalUnit::to_type`: the counting key of a unit. */
  function ToType(u: NalUnit): (t: NalUnitType)
    ensures t.Slice? <==> u.Slice?
    ensures t.Sps? <==> u.Sps?
    ensures t.Pps? <==> u.Pps?
    ensures t.Other? <==> u.Other?
    ensures t.Other? ==> t.code == u.code
  {
    match u
    case Slice(_) => NalUnitType.Slice
    case Sps(_) => NalUnitType.Sps
    case Pps(_) => NalUnitType.Pps
    case Other(c, _) => NalUnitType.Other(c)
  }

  // ---------------------------------------------------------------------------
  // Header fields

  /** forbidden_zero_bit: the top bit of the header. */
  function ForbiddenZeroBit(header: bv8): (f: bv8)
    ensures f <= 1
    ensures f == 1 <==> header >= 0x80
  {
    (header & 0x80) >> 7
  }

  /** nal_ref_idc: bits 6-5 of the header. The source computes and discards it. */
  function NalRefIdc(header: bv8): (r: bv8)
    ensures r <= 3
  {
    (header & 0x60) >> 5
  }

  /** nal_unit_type: bits 4-0 of the header. */
  function NalUnitTypeCode(header: bv8): (t: bv8)
    ensures t <= 31
    ensures header < 32 ==> t == header
  {
    header & 0x1F
  }

  /** The inverse of the field split: a header byte from its three fields. */
  function HeaderByte(forbidden: bv8, refIdc: bv8, code: bv8): (h: bv8)
    requires forbidden <= 1 && refIdc <= 3 && code <= 31
    ensures ForbiddenZeroBit(h) == forbidden
    ensures NalRefIdc(h) == refIdc
    ensures NalUnitTypeCode(h) == code
  {
    (forbidden << 7) | (refIdc << 5) | code
  }

  /** The three fields determine the header byte: the split loses nothing. */
  lemma HeaderSplitRoundTrip(header: bv8)
    ensures HeaderByte(ForbiddenZeroBit(header), NalRefIdc(header), NalUnitTypeCode(header)) == header
  {
  }

  // ---------------------------------------------------------------------------
  // Classification

  /** True of the codes Table 7-1 assigns to a slice (non-IDR, partitions A-C, IDR). */
  predicate IsSliceCode(code: bv8)
  {
    1 <= code <= 5
  }

  /**
   * The keys a classification can produce: an `Other` key never carries a
   * slice, SPS or PPS code and always fits in five bits.
   */
  predicate WellFormedType(t: NalUnitType)
  {
    t.Other? ==> t.code <= 31 && !IsSliceCode(t.code) && t.code != 7 && t.code != 8
  }

  /** The `match nal_unit_type` shared by `NalUnitParser::parse` and the free `parse`. */
  function Classify(code: bv8, payload: seq<bv8>): (u: NalUnit)
    requires code <= 31
    ensures u.payload == payload
    ensures WellFormedType(ToType(u))
    ensures ToType(u) == NalUnitType.Slice <==> IsSliceCode(code)
    ensures ToType(u) == NalUnitType.Sps <==> code == 7
    ensures ToType(u) == NalUnitType.Pps <==> code == 8
    ensures ToType(u).Other? ==> ToType(u).code == code
  {
    if IsSliceCode(code) then NalUnit.Slice(payload)
    else if code == 7 then NalUnit.Sps(payload)
    else if code == 8 then NalUnit.Pps(payload)
    else NalUnit.Other(code, payload)
  }

  /**
   * Header validation and classification of one unit given its header byte
   * and payload: `None` exactly when forbidden_zero_bit is set. nal_ref_idc
   * plays no part.
   */
  function DecodeUnit(header: bv8, payload: seq<bv8>): (r: Option<NalUnit>)
    ensures r.None? <==> header >= 0x80
    ensures r.Some? ==> r.value == Classify(NalUnitTypeCode(header), payload)
  {
    if ForbiddenZeroBit(header) == 1 then None
    else Some(Classify(NalUnitTypeCode(header), payload))
  }

  /** `NalUnitParser::parse`: the first byte is the header, the rest the payload. */
  function ParseUnit(bytes: seq<bv8>): (r: Option<NalUnit>)
    requires |bytes| >= 1
    ensures r.None? <==> ForbiddenZeroBit(bytes[0]) == 1
    ensures r.Some? ==> r.value.payload == bytes[1..]
    ensures r.Some? ==> WellFormedType(ToType(r.value))
    ensures r.Some? ==> TypeCode(ToType(r.value), NalUnitTypeCode(bytes[0])) == NalUnitTypeCode(bytes[0])
    ensures r.Some? ==> r.value == Classify(NalUnitTypeCode(bytes[0]), bytes[1..])
  {
    DecodeUnit(bytes[0], bytes[1..])
  }

  /**
   * The nal_unit_type code a key stands for; a `Slice` key stands for five
   * codes, so the caller names the one it means.
   */
  function TypeCode(t: NalUnitType, sliceCode: bv8): bv8
  {
    match t
    case Slice => sliceCode
    case Sps => 7
    case Pps => 8
    case Other(c) => c
  }

  /**
   * Encoding a well-formed unit behind a header with forbidden_zero_bit clear
   * and any nal_ref_idc, then parsing it, gives the unit back.
   */
  lemma ParseUnitRoundTrip(u: NalUnit, refIdc: bv8, sliceCode: bv8)
    requires refIdc <= 3 && IsSliceCode(sliceCode)
    requires WellFormedType(ToType(u))
    ensures ParseUnit([HeaderByte(0, refIdc, TypeCode(ToType(u), sliceCode))] + u.payload) == Some(u)
  {
    var bytes := [HeaderByte(0, refIdc, TypeCode(ToType(u), sliceCode))] + u.payload;
    assert bytes[1..] == u.payload;
  }

  /**
   * Conversely, every unit `ParseUnit` returns comes from such an encoding:
   * its header byte is recovered from the unit, the discarded nal_ref_idc and
   * (for slices, which only codes 1-5 give) the slice code.
   */
  lemma ParseUnitRecoversHeader(bytes: seq<bv8>, u: NalUnit)
    requires |bytes| >= 1 && ParseUnit(bytes) == Some(u)
    ensures WellFormedType(ToType(u))
    ensures ToType(u).Slice? ==> IsSliceCode(NalUnitTypeCode(bytes[0]))
    ensures bytes == [HeaderByte(0, NalRefIdc(bytes[0]), TypeCode(ToType(u), NalUnitTypeCode(bytes[0])))] + u.payload
  {
    HeaderSplitRoundTrip(bytes[0]);
    assert bytes == [bytes[0]] + bytes[1..];
  }
}
