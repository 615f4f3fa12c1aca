/** The descriptor loop of a DSM-CC stream-descriptor section (table id
    0x3D): a tag/length walk that stops at the first truncated descriptor,
    turning general event descriptors (tag 0x40) with time_mode 0 or 2 into
    events, in descriptor order. NPT reference descriptors (tag 0x17) are
    read and dropped, as are all other tags. */
module StreamEvents {
  import opened Common

  datatype EsEvent =
    | Immediate(groupId: nat, messageType: Byte, messageId: nat, privateData: Bytes)
    | NptScheduled(groupId: nat, messageType: Byte, messageId: nat, privateData: Bytes, npt: int)
  {
    /** The `timeMode` field of the message record. */
    function TimeMode(): nat {
      if Immediate? then 0 else 2
    }
  }

  /** One descriptor: its tag and exactly `descriptor_length` body bytes. */
  datatype Tlv = Tlv(tag: Byte, body: Bytes)

  /** The descriptors the walk reads: a tag/length pair is read while at
      least two bytes remain, and the walk stops when the body is cut short. */
  function Descriptors(s: Bytes): (ds: seq<Tlv>)
    decreases |s|
  {
    if |s| < 2 then []
    else
      var len := s[1];
      if 2 + len > |s| then []
      else [Tlv(s[0], s[2..2 + len])] + Descriptors(s[2 + len..])
  }

  /** The event a single descriptor yields. */
  function EventOf(t: Tlv): (es: seq<EsEvent>)
    ensures |es| <= 1
    ensures |es| == 1 <==> t.tag == 0x40 && |t.body| >= 11 && (t.body[2] == 0 || t.body[2] == 2)
    ensures |es| == 1 ==> es[0].TimeMode() == t.body[2]
  {
    if t.tag != 0x40 || |t.body| < 11 then []
    else
      var b := t.body;
      var groupId := U16(b, 0) % 0x1000;
      var timeMode := b[2];
      var messageType := b[8];
      var messageId := U16(b, 9);
      var privateData := b[11..];
      if timeMode == 0 then [Immediate(groupId, messageType, messageId, privateData)]
      else if timeMode == 2 then
        [NptScheduled(groupId, messageType, messageId, privateData, Npt(b))]
      else []
  }

  /** The fields of the event: the low 12 bits of bytes 0-1 as group id,
      byte 8 as type, bytes 9-10 as id, the bytes from 11 on as private data
      and, for time_mode 2, the ToInt32 of bytes 4-7 as NPT. */
  lemma EventFields(t: Tlv)
    requires |EventOf(t)| == 1
    ensures var e, b := EventOf(t)[0], t.body;
            && e.groupId == (b[0] as int % 16) * 256 + b[1]
            && e.messageType == b[8]
            && e.messageId == (b[9] as int) * 256 + b[10]
            && e.privateData == b[11..]
            && (e.NptScheduled? ==> e.npt == ToInt32(U32(b, 4)))
  {
    var b := t.body;
    var q, low := b[0] as int / 16, (b[0] as int % 16) * 256 + b[1];
    assert U16(b, 0) == 0x1000 * q + low;
    LowBits(q, low);
  }

  lemma LowBits(q: nat, low: nat)
    requires low < 0x1000
    ensures (0x1000 * q + low) % 0x1000 == low
  {
  }

  function EventsOf(ds: seq<Tlv>): (es: seq<EsEvent>)
  {
    if ds == [] then [] else EventOf(ds[0]) + EventsOf(ds[1..])
  }

  /** The events the section carries, in descriptor order. */
  function SectionEvents(s: Bytes): seq<EsEvent> {
    EventsOf(Descriptors(s))
  }

  /** The loop of the stream-event handler, with its cursor `i`. */
  method DecodeStreamDescriptors(s: Bytes) returns (events: seq<EsEvent>)
    ensures events == SectionEvents(s)
  {
    events := [];
    var i := 0;
    while i + 1 < |s|
      invariant 0 <= i <= |s|
      invariant events + SectionEvents(s[i..]) == SectionEvents(s)
      decreases |s| - i
    {
      ghost var start := i;
      var tag := s[i];
      i := i + 1;
      var len := s[i];
      i := i + 1;
      var end := if i + len <= |s| then i + len else |s|;
      var descriptor := s[i..end];
      i := i + len;
      if |descriptor| != len {
        SectionStops(events, s, start);
        break;
      }
      var found := EventOf(Tlv(tag, descriptor));
      SectionAdvance(events, found, s, start, tag, descriptor, i);
      events := events + found;
    }
    if i <= |s| {
      SectionEnds(events, s, i);
    }
  }

  /** One step of the walk from offset `j`. */
  lemma DescriptorAt(s: Bytes, j: nat)
    requires j + 1 < |s|
    ensures j + 2 + s[j + 1] > |s| ==> Descriptors(s[j..]) == []
    ensures j + 2 + s[j + 1] <= |s| ==>
              Descriptors(s[j..]) == [Tlv(s[j], s[j + 2..j + 2 + s[j + 1]])] + Descriptors(s[j + 2 + s[j + 1]..])
  {
    var len := s[j + 1];
    if j + 2 + len <= |s| {
      assert s[j..][2..2 + len] == s[j + 2..j + 2 + len];
      assert s[j..][2 + len..] == s[j + 2 + len..];
    }
  }

  /** The walk from `j` reads one whole descriptor, then goes on after it. */
  lemma SectionStep(events: seq<EsEvent>, s: Bytes, j: nat)
    requires j + 1 < |s| && j + 2 + s[j + 1] <= |s|
    ensures events + SectionEvents(s[j..])
         == (events + EventOf(Tlv(s[j], s[j + 2..j + 2 + s[j + 1]]))) + SectionEvents(s[j + 2 + s[j + 1]..])
  {
    DescriptorAt(s, j);
    EventsAfter(events, Tlv(s[j], s[j + 2..j + 2 + s[j + 1]]), Descriptors(s[j + 2 + s[j + 1]..]));
  }

  /** One whole descriptor read at `j`, ending at `next`, moves the
      handler's events forward by that descriptor's event. */
  lemma SectionAdvance(events: seq<EsEvent>, found: seq<EsEvent>, s: Bytes, j: nat, tag: Byte, body: Bytes, next: nat)
    requires j + 1 < |s| && next == j + 2 + s[j + 1] <= |s|
    requires tag == s[j] && body == s[j + 2..next] && found == EventOf(Tlv(tag, body))
    requires events + SectionEvents(s[j..]) == SectionEvents(s)
    ensures (events + found) + SectionEvents(s[next..]) == SectionEvents(s)
  {
    assert Tlv(tag, body) == Tlv(s[j], s[j + 2..j + 2 + s[j + 1]]);
    SectionStep(events, s, j);
  }

  /** The walk from `j` stops at a descriptor whose body is cut short. */
  lemma SectionStops(events: seq<EsEvent>, s: Bytes, j: nat)
    requires j + 1 < |s| && j + 2 + s[j + 1] > |s|
    ensures events + SectionEvents(s[j..]) == events
  {
    DescriptorAt(s, j);
    assert events + [] == events;
  }

  /** Fewer than two bytes left: the walk is over. */
  lemma SectionEnds(events: seq<EsEvent>, s: Bytes, j: nat)
    requires j <= |s| < j + 2
    ensures events + SectionEvents(s[j..]) == events
  {
    assert events + [] == events;
  }

  lemma EventsAfter(events: seq<EsEvent>, t: Tlv, rest: seq<Tlv>)
    ensures events + EventsOf([t] + rest) == (events + EventOf(t)) + EventsOf(rest)
  {
    assert ([t] + rest)[1..] == rest;
  }

  /** Writes descriptors back as tag, length, body. */
  function Serialize(ds: seq<Tlv>): Bytes
    requires forall k :: 0 <= k < |ds| ==> |ds[k].body| < 256
  {
    if ds == [] then [] else [ds[0].tag, |ds[0].body|] + ds[0].body + Serialize(ds[1..])
  }

  lemma DescriptorsCons(d: Tlv, rest: Bytes)
    requires |d.body| < 256
    ensures Descriptors([d.tag, |d.body|] + d.body + rest) == [d] + Descriptors(rest)
  {
    var n := |d.body|;
    var s := [d.tag, n] + d.body + rest;
    assert s[1] == n && s[0] == d.tag;
    assert s[2..2 + n] == d.body;
    assert s[2 + n..] == rest;
  }

  /** The walk reads back every descriptor that was written whole, and
      what follows them is walked on its own. */
  lemma {:induction false} DescriptorsOfSerialize(ds: seq<Tlv>, tail: Bytes)
    requires forall k :: 0 <= k < |ds| ==> |ds[k].body| < 256
    ensures Descriptors(Serialize(ds) + tail) == ds + Descriptors(tail)
  {
    if ds == [] {
      assert Serialize(ds) + tail == tail;
    } else {
      var d, tl := ds[0], ds[1..];
      var rest := SerializeCons(ds, tail);
      DescriptorsCons(d, rest);
      DescriptorsOfSerialize(tl, tail);
      ConsAppend(ds, Descriptors(tail));
    }
  }

  lemma ConsAppend<T>(xs: seq<T>, ys: seq<T>)
    requires xs != []
    ensures xs + ys == [xs[0]] + (xs[1..] + ys)
  {
    assert xs == [xs[0]] + xs[1..];
  }

  /** The first descriptor written, then the rest. */
  lemma SerializeCons(ds: seq<Tlv>, tail: Bytes) returns (rest: Bytes)
    requires ds != [] && forall k :: 0 <= k < |ds| ==> |ds[k].body| < 256
    ensures |ds[0].body| < 256
    ensures rest == Serialize(ds[1..]) + tail
    ensures Serialize(ds) + tail == [ds[0].tag, |ds[0].body|] + ds[0].body + rest
  {
    rest := Serialize(ds[1..]) + tail;
  }

  /** The walk stops at a truncated descriptor: nothing after whole
      descriptors is read when the next body is cut short. */
  lemma StopsAtTruncated(ds: seq<Tlv>, tag: Byte, len: Byte, partial: Bytes)
    requires forall k :: 0 <= k < |ds| ==> |ds[k].body| < 256
    requires |partial| < len
    ensures Descriptors(Serialize(ds) + ([tag, len] + partial)) == ds
  {
    DescriptorsOfSerialize(ds, [tag, len] + partial);
    assert ds + [] == ds;
  }

  lemma {:induction false} EventsOfAppend(a: seq<Tlv>, b: seq<Tlv>)
    ensures EventsOf(a + b) == EventsOf(a) + EventsOf(b)
  {
    if a == [] {
      assert a + b == b;
    } else {
      assert (a + b)[0] == a[0];
      assert (a + b)[1..] == a[1..] + b;
      EventsOfAppend(a[1..], b);
    }
  }

  /** Number of descriptors that yield an event. */
  function CountEventful(ds: seq<Tlv>): nat {
    if ds == [] then 0
    else (if ds[0].tag == 0x40 && |ds[0].body| >= 11 && (ds[0].body[2] == 0 || ds[0].body[2] == 2) then 1 else 0)
         + CountEventful(ds[1..])
  }

  /** One event per general event descriptor of time_mode 0 or 2, each
      carrying its descriptor's time mode. */
  lemma {:induction false} EventsCountAndModes(ds: seq<Tlv>)
    ensures |EventsOf(ds)| == CountEventful(ds)
    ensures forall k :: 0 <= k < |EventsOf(ds)| ==> EventsOf(ds)[k].TimeMode() in {0, 2}
  {
    if ds != [] {
      EventsCountAndModes(ds[1..]);
      var e := EventOf(ds[0]);
      assert EventsOf(ds) == e + EventsOf(ds[1..]);
      forall k | 0 <= k < |EventsOf(ds)| ensures EventsOf(ds)[k].TimeMode() in {0, 2} {
        if k < |e| {
          assert EventsOf(ds)[k] == e[0];
        } else {
          assert EventsOf(ds)[k] == EventsOf(ds[1..])[k - |e|];
        }
      }
    }
  }

  /** event_msg_NPT as the decoder reads it: `readUInt32BE(4) | ((b[3] & 1)
      * 0x100000000)`. The `|` passes both operands through ToInt32, which
      drops bit 32 of the 33-bit field and makes values from 2^31 on
      negative, where the NPT reference descriptor's fields use `+`. */
  function Npt(b: Bytes): (npt: int)
    requires |b| >= 8
    ensures npt == ToInt32(U32(b, 4))
  {
    var bit32 := (b[3] as int % 2) * 0x1_0000_0000;
    assert ToUint32(bit32) == 0 by {
      assert bit32 == 0 || bit32 == 0x1_0000_0000;
    }
    JsOr(U32(b, 4), bit32)
  }

  /** A general event descriptor body carrying `e`: the 12-bit group id
      under four reserved bits, the time mode, five bytes of time (zero for
      an immediate event; for an NPT event seven reserved bits set, bit 32
      clear and the low 32 bits), the message type and id, and the private
      data. */
  function EncodeEvent(e: EsEvent): (b: Bytes)
    requires e.groupId < 0x1000 && e.messageId < 0x1_0000
    requires e.NptScheduled? ==> 0 <= e.npt < 0x8000_0000
    ensures |b| == 11 + |e.privateData|
  {
    EventHeader(e) + e.privateData
  }

  /** The eleven bytes before the private data. */
  function EventHeader(e: EsEvent): (h: Bytes)
    requires e.groupId < 0x1000 && e.messageId < 0x1_0000
    requires e.NptScheduled? ==> 0 <= e.npt < 0x8000_0000
    ensures |h| == 11
  {
    var g, m := e.groupId, e.messageId;
    var n := if e.NptScheduled? then e.npt else 0;
    var reserved: Byte := if e.NptScheduled? then 0xFE else 0;
    [(g / 256) as Byte, (g % 256) as Byte, e.TimeMode() as Byte,
     reserved, (n / 0x100_0000) as Byte, (n / 0x1_0000 % 256) as Byte, (n / 0x100 % 256) as Byte, (n % 256) as Byte,
     e.messageType, (m / 256) as Byte, (m % 256) as Byte]
  }

  /** Every event whose NPT is below 2^31 is read back whole from its
      descriptor; from 2^31 on the NPT read differs (`NptDropsBit32`). */
  lemma EventOfEncode(e: EsEvent)
    requires e.groupId < 0x1000 && e.messageId < 0x1_0000
    requires e.NptScheduled? ==> 0 <= e.npt < 0x8000_0000
    ensures EventOf(Tlv(0x40, EncodeEvent(e))) == [e]
  {
    EncodedFields(e);
  }

  lemma EncodedFields(e: EsEvent)
    requires e.groupId < 0x1000 && e.messageId < 0x1_0000
    requires e.NptScheduled? ==> 0 <= e.npt < 0x8000_0000
    ensures var b := EncodeEvent(e);
            && b[2] == e.TimeMode() && U16(b, 0) % 0x1000 == e.groupId
            && b[8] == e.messageType && U16(b, 9) == e.messageId && b[11..] == e.privateData
            && (e.NptScheduled? ==> Npt(b) == e.npt)
  {
    var h, b := EventHeader(e), EncodeEvent(e);
    HeaderFields(e);
    assert forall i :: 0 <= i < 11 ==> b[i] == h[i];
    assert b[11..] == e.privateData;
    if e.NptScheduled? {
      EncodedNpt(e.npt, b);
    }
  }

  lemma HeaderFields(e: EsEvent)
    requires e.groupId < 0x1000 && e.messageId < 0x1_0000
    requires e.NptScheduled? ==> 0 <= e.npt < 0x8000_0000
    ensures var h := EventHeader(e);
            && h[2] == e.TimeMode() && U16(h, 0) == e.groupId && h[8] == e.messageType && U16(h, 9) == e.messageId
            && (e.NptScheduled? ==>
                  && h[3] == 0xFE && h[4] == e.npt / 0x100_0000 && h[5] == e.npt / 0x1_0000 % 256
                  && h[6] == e.npt / 0x100 % 256 && h[7] == e.npt % 256)
  {
  }

  lemma EncodedNpt(npt: int, b: Bytes)
    requires 0 <= npt < 0x8000_0000 && |b| >= 8
    requires b[3] == 0xFE && b[4] == npt / 0x100_0000 && b[5] == npt / 0x1_0000 % 256
    requires b[6] == npt / 0x100 % 256 && b[7] == npt % 256
    ensures Npt(b) == npt
  {
    NptRoundTrip(npt, b);
    NptDropsBit32(b);
  }

  /** The 33-bit event_msg_NPT the field holds: bit 32 is the low bit of
      byte 3, the low 32 bits are bytes 4 to 7. */
  function Npt33(b: Bytes): (npt: nat)
    requires |b| >= 8
    ensures npt < 0x2_0000_0000
    ensures npt / 0x1_0000_0000 == b[3] % 2 && npt % 0x1_0000_0000 == U32(b, 4)
  {
    (b[3] as int % 2) * 0x1_0000_0000 + U32(b, 4)
  }

  /** The NPT the decoder reads is the 33-bit field exactly when the field
      is below 2^31; the largest NPT reads as -1. */
  lemma NptDropsBit32(b: Bytes)
    requires |b| >= 8
    ensures Npt(b) == Npt33(b) <==> Npt33(b) < 0x8000_0000
    ensures Npt([0, 0, 2, 1, 0xFF, 0xFF, 0xFF, 0xFF]) == -1
    ensures Npt33([0, 0, 2, 1, 0xFF, 0xFF, 0xFF, 0xFF]) == 0x1_FFFF_FFFF
  {
    Bit32Dropped(U32(b, 4), b[3] as int % 2);
    LargestNpt();
  }

  lemma Bit32Dropped(low: int, bit32: int)
    requires 0 <= low < 0x1_0000_0000 && 0 <= bit32 <= 1
    ensures ToInt32(low) == bit32 * 0x1_0000_0000 + low <==> bit32 * 0x1_0000_0000 + low < 0x8000_0000
  {
    assert ToUint32(low) == low;
  }

  lemma LargestNpt()
    ensures Npt([0, 0, 2, 1, 0xFF, 0xFF, 0xFF, 0xFF]) == -1
    ensures Npt33([0, 0, 2, 1, 0xFF, 0xFF, 0xFF, 0xFF]) == 0x1_FFFF_FFFF
  {
    var top: Bytes := [0, 0, 2, 1, 0xFF, 0xFF, 0xFF, 0xFF];
    assert U16(top, 4) == 0xFFFF && U16(top, 6) == 0xFFFF;
    assert U32(top, 4) == 0xFFFF_FFFF;
    assert ToInt32(0xFFFF_FFFF) == -1 by {
      assert ToUint32(0xFFFF_FFFF) == 0xFFFF_FFFF;
    }
    assert top[3] as int % 2 == 1;
  }

  /** An NPT written as a broadcaster writes it (bit 32 in byte 3 under
      reserved ones, the low 32 bits in bytes 4 to 7) is the field value. */
  lemma NptRoundTrip(npt: nat, b: Bytes)
    requires npt < 0x2_0000_0000 && |b| >= 8
    requires b[3] == 0xFE + npt / 0x1_0000_0000
    requires b[4] == (npt / 0x100_0000) % 256 && b[5] == (npt / 0x1_0000) % 256
    requires b[6] == (npt / 0x100) % 256 && b[7] == npt % 256
    ensures Npt33(b) == npt
  {
    // The quotients by successive powers of 256, each from the previous one.
    var q1 := npt / 0x100;
    var q2 := q1 / 0x100;
    var q3 := q2 / 0x100;
    var q4 := q3 / 0x100;
    assert npt / 0x1_0000 == q2;
    assert npt / 0x100_0000 == q3;
    assert npt / 0x1_0000_0000 == q4;
    assert b[3] % 2 == q4;
    assert U16(b, 6) == npt - 0x1_0000 * q2;
    assert U16(b, 4) == q2 - 0x1_0000 * q4;
    assert U32(b, 4) == npt - 0x1_0000_0000 * q4;
  }
}
