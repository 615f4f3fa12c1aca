/** decodePES: the fixed part of a PES packet header (section 2.4.3.6 of
    ISO/IEC 13818-1) and its presentation time stamp. Reads that Node's
    `readUInt16BE` refuses past the end of the buffer are a thrown
    RangeError; plain indexing past the end reads as `undefined`. */
module Pes {
  import opened Common

  datatype PesMessage = PesMessage(streamId: Byte, pts: Option<nat>, data: Bytes)

  /** What a decoder function gives back: `null`, a thrown exception, or a value. */
  datatype Decoded<T> = Null | Throws | Value(v: T)

  predicate HasStartCode(pes: Bytes) {
    |pes| >= 3 && pes[0] == 0 && pes[1] == 0 && pes[2] == 1
  }

  /** The two PTS_DTS_flags bits of header byte 7. */
  function PtsDtsFlags(pes: Bytes): nat {
    At(pes, 7) / 64
  }

  /** The header fields are well formed: not a padding stream (0xBE) nor a
      private_stream_2 (0xBF), and the '10' marker bits lead byte 6. */
  predicate HeaderAccepted(pes: Bytes)
    requires |pes| >= 4
  {
    pes[3] != 0xBE && pes[3] != 0xBF && At(pes, 6) / 64 == 2
  }

  /** `pes.subarray(9 + PES_header_data_length)`. When byte 8 is missing the
      start offset is NaN, which `subarray` reads as 0. */
  function Payload(pes: Bytes): (data: Bytes)
    ensures |pes| <= 8 ==> data == pes
    ensures |pes| > 8 ==> data == pes[if 9 + pes[8] <= |pes| then 9 + pes[8] else |pes|..]
  {
    if |pes| <= 8 then pes
    else if 9 + pes[8] <= |pes| then pes[9 + pes[8]..]
    else []
  }

  /** The 33-bit PTS from bytes 9..13; the marker bits are not checked. */
  function Pts(pes: Bytes): (pts: nat)
    requires |pes| >= 14
    ensures pts < 0x2_0000_0000
  {
    var pts3230: nat := (pes[9] / 2) % 8;
    var pts2915 := U16(pes, 10) / 2;
    var pts1400 := U16(pes, 12) / 2;
    pts1400 + pts2915 * 0x8000 + pts3230 * 0x4000_0000
  }

  function DecodePES(pes: Bytes): (r: Decoded<PesMessage>)
    ensures r.Null? <==>
              || |pes| < 5 || !HasStartCode(pes)
              || (|pes| >= 6 && !HeaderAccepted(pes))
    ensures r.Throws? <==>
              && HasStartCode(pes)
              && (|pes| == 5 || (|pes| >= 6 && HeaderAccepted(pes) && PtsDtsFlags(pes) >= 2 && |pes| < 14))
    ensures r.Value? ==>
              && |pes| >= 6 && HasStartCode(pes) && HeaderAccepted(pes)
              && r.v.streamId == pes[3]
              && (r.v.pts.Some? <==> PtsDtsFlags(pes) >= 2)
              && (r.v.pts.Some? ==> r.v.pts.value == Pts(pes) && r.v.pts.value < 0x2_0000_0000)
              && r.v.data == Payload(pes)
  {
    if |pes| < 5 then Null
    else if pes[0] != 0 || pes[1] != 0 || pes[2] != 1 then Null
    else if |pes| < 6 then Throws
    else
      var streamId := pes[3];
      if streamId == 0xBE || streamId == 0xBF then Null
      else if At(pes, 6) / 64 != 2 then Null
      else
        var ptsDts := At(pes, 7) / 64;
        if ptsDts == 2 || ptsDts == 3 then
          if |pes| < 14 then Throws
          else Value(PesMessage(streamId, Some(Pts(pes)), Payload(pes)))
        else Value(PesMessage(streamId, None, Payload(pes)))
  }

  /** A PES packet as a multiplexer writes it: start code, stream id, the
      declared length, the '10' marker byte, PTS-only flags with a 5-byte
      PTS field carrying its marker bits, then the payload. */
  function EncodePES(streamId: Byte, declaredLength: nat, pts: Option<nat>, payload: Bytes): (pes: Bytes)
    requires declaredLength < 0x1_0000
    requires pts.Some? ==> pts.value < 0x2_0000_0000
  {
    var header := [0, 0, 1, streamId, declaredLength / 256, declaredLength % 256, 0x80];
    match pts
    case None => header + [0x00, 0] + payload
    case Some(t) =>
      var hi, mid, lo := t / 0x4000_0000, (t / 0x8000) % 0x8000, t % 0x8000;
      header + [0x80, 5, 0x20 + hi * 2 + 1, mid / 128, (mid % 128) * 2 + 1, lo / 128, (lo % 128) * 2 + 1] + payload
  }

  lemma PtsFieldRoundTrip(t: nat, pes: Bytes)
    requires t < 0x2_0000_0000 && |pes| >= 14
    requires pes[9] == 0x20 + (t / 0x4000_0000) * 2 + 1
    requires pes[10] == ((t / 0x8000) % 0x8000) / 128 && pes[11] == (((t / 0x8000) % 0x8000) % 128) * 2 + 1
    requires pes[12] == (t % 0x8000) / 128 && pes[13] == ((t % 0x8000) % 128) * 2 + 1
    ensures Pts(pes) == t
  {
    var hi, mid, lo := t / 0x4000_0000, (t / 0x8000) % 0x8000, t % 0x8000;
    assert (pes[9] / 2) % 8 == hi;
    assert U16(pes, 10) == 2 * mid + 1;
    assert U16(pes, 12) == 2 * lo + 1;
    assert t == lo + mid * 0x8000 + hi * 0x4000_0000;
  }

  /** Decoding what EncodePES wrote gives back the stream id, the PTS and
      the payload, for every stream id but the two the decoder rejects. */
  lemma {:induction false} DecodeEncodePES(streamId: Byte, declaredLength: nat, pts: Option<nat>, payload: Bytes)
    requires streamId != 0xBE && streamId != 0xBF
    requires declaredLength < 0x1_0000
    requires pts.Some? ==> pts.value < 0x2_0000_0000
    ensures DecodePES(EncodePES(streamId, declaredLength, pts, payload)) == Value(PesMessage(streamId, pts, payload))
  {
    var pes := EncodePES(streamId, declaredLength, pts, payload);
    match pts
    case None =>
      assert pes[9..] == payload;
    case Some(t) =>
      assert pes[14..] == payload;
      PtsFieldRoundTrip(t, pes);
  }
}
