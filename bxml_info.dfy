/** The `additional_data_component_info` of an ARIB data component
    descriptor for the BML data-carousel profiles: the entry-point block of
    ARIB STD-B24 volume 2 part 2 section 9.3 and the
    `additional_arib_carousel_info` of ARIB STD-B24 volume 3 part 3
    appendix C.1. Bytes past the end of the buffer read as 0. */
module AribBxml {
  import opened Common

  datatype EntryPointInfo = EntryPointInfo(
    autoStartFlag: bool,
    documentResolution: nat,
    useXML: bool,
    defaultVersionFlag: bool,
    independentFlag: bool,
    styleForTVFlag: bool,
    bmlMajorVersion: nat,
    bmlMinorVersion: nat,
    bxmlMajorVersion: Option<nat>,
    bxmlMinorVersion: Option<nat>)

  datatype CarouselInfo = CarouselInfo(
    dataEventId: nat,
    eventSectionFlag: bool,
    ondemandRetrievalFlag: bool,
    fileStorableFlag: bool,
    startPriority: nat)

  datatype BxmlInfo = BxmlInfo(
    transmissionFormat: nat,
    entryPointFlag: bool,
    entryPointInfo: Option<EntryPointInfo>,
    additionalAribCarouselInfo: Option<CarouselInfo>)

  /** Bit `k` (0 = least significant) of a byte. */
  function Bit(b: Byte, k: nat): bool
    requires k < 8
  {
    (b / Pow2(k)) % 2 == 1
  }

  function Pow2(k: nat): (p: nat)
    ensures p >= 1
  {
    if k == 0 then 1 else 2 * Pow2(k - 1)
  }

  /** A version field as the decoder builds it: `b[off] << 16 | b[off + 1]`.
      The two operands share no bit, so the OR is their sum. */
  function VersionField(s: Bytes, off: int): (v: nat)
    ensures v / 0x1_0000 == At(s, off) && v % 0x1_0000 == At(s, off + 1)
  {
    At(s, off) * 0x1_0000 + At(s, off + 1)
  }

  /** The 16-bit big-endian number the field holds in the broadcast
      (`bml_major_version` and the others of section 9.3 of ARIB STD-B24
      volume 2 part 2). */
  function BigEndian16(s: Bytes, off: int): (v: nat)
    ensures v < 0x1_0000
    ensures v / 256 == At(s, off) && v % 256 == At(s, off + 1)
  {
    At(s, off) * 256 + At(s, off + 1)
  }

  /** The version the decoder reads is the broadcast one exactly when the
      high byte is zero, as for the versions in use (1, 2 and 3); otherwise
      it is too large: 0x0100 reads as 0x10000. */
  lemma VersionFieldVsBigEndian(s: Bytes, off: int)
    ensures VersionField(s, off) == BigEndian16(s, off) <==> At(s, off) == 0
    ensures VersionField(s, off) >= BigEndian16(s, off)
    ensures VersionField([1, 0], 0) == 0x1_0000 && BigEndian16([1, 0], 0) == 0x100
  {
  }

  /** Writing a version as two bytes, high byte first, and reading it with
      the reference gives the version back. */
  lemma BigEndian16RoundTrip(version: nat, s: Bytes, off: nat)
    requires version < 0x1_0000 && off + 1 < |s|
    requires s[off] == version / 256 && s[off + 1] == version % 256
    ensures BigEndian16(s, off) == version
  {
  }

  /** Where `additional_arib_carousel_info` starts: after byte 0 alone, after
      the second flag byte, after the two BML version fields, or after the
      two BXML version fields as well. */
  function CarouselOffset(s: Bytes): nat {
    if !Bit(At(s, 0), 5) then 1
    else if Bit(At(s, 1), 6) then 2
    else if !Bit(At(s, 1), 7) then 6
    else 10
  }

  function DecodeCarouselInfo(s: Bytes, off: int): CarouselInfo {
    CarouselInfo(
      dataEventId := At(s, off) / 16,
      eventSectionFlag := Bit(At(s, off), 3),
      ondemandRetrievalFlag := Bit(At(s, off + 1), 7),
      fileStorableFlag := Bit(At(s, off + 1), 6),
      startPriority := if Bit(At(s, off + 1), 5) then 1 else 0)
  }

  /** decodeAdditionalAribBXMLInfo: a cursor `off` walks the buffer; the
      entry-point block is read only when entry_point_flag is set, and the
      carousel block only for transmission format 0. */
  function DecodeAdditionalAribBXMLInfo(s: Bytes): (r: BxmlInfo)
    ensures r.transmissionFormat == At(s, 0) / 64 && r.transmissionFormat < 4
    ensures r.entryPointFlag == Bit(At(s, 0), 5)
    ensures r.entryPointInfo.Some? <==> Bit(At(s, 0), 5)
    ensures r.additionalAribCarouselInfo.Some? <==> At(s, 0) / 64 == 0
    ensures r.additionalAribCarouselInfo.Some? ==>
              r.additionalAribCarouselInfo.value == DecodeCarouselInfo(s, CarouselOffset(s))
    ensures r.entryPointInfo.Some? ==>
              var e := r.entryPointInfo.value;
              && e.autoStartFlag == Bit(At(s, 0), 4)
              && e.documentResolution == At(s, 0) % 16
              && e.useXML == Bit(At(s, 1), 7)
              && e.defaultVersionFlag == Bit(At(s, 1), 6)
              && e.independentFlag == Bit(At(s, 1), 5)
              && e.styleForTVFlag == Bit(At(s, 1), 4)
              && (e.defaultVersionFlag ==>
                    e.bmlMajorVersion == 1 && e.bmlMinorVersion == 0
                    && e.bxmlMajorVersion.None? && e.bxmlMinorVersion.None?)
              && (!e.defaultVersionFlag ==>
                    e.bmlMajorVersion == VersionField(s, 2) && e.bmlMinorVersion == VersionField(s, 4)
                    && (e.bxmlMajorVersion.Some? <==> e.useXML) && (e.bxmlMinorVersion.Some? <==> e.useXML)
                    && (e.useXML ==> e.bxmlMajorVersion == Some(VersionField(s, 6))
                                     && e.bxmlMinorVersion == Some(VersionField(s, 8))))
  {
    var b0 := At(s, 0);
    var format := b0 / 64;
    var entry := Bit(b0, 5);
    var (epInfo, off) :=
      if entry then
        var b1 := At(s, 1);
        var useXml := Bit(b1, 7);
        var defaultVersion := Bit(b1, 6);
        var base := EntryPointInfo(Bit(b0, 4), b0 % 16, useXml, defaultVersion, Bit(b1, 5), Bit(b1, 4),
                                   1, 0, None, None);
        if defaultVersion then (Some(base), 2)
        else
          var withBml := base.(bmlMajorVersion := VersionField(s, 2), bmlMinorVersion := VersionField(s, 4));
          if useXml then
            (Some(withBml.(bxmlMajorVersion := Some(VersionField(s, 6)), bxmlMinorVersion := Some(VersionField(s, 8)))), 10)
          else (Some(withBml), 6)
      else (None, 1);
    var carousel := if format == 0 then Some(DecodeCarouselInfo(s, off)) else None;
    BxmlInfo(format, entry, epInfo, carousel)
  }
}
