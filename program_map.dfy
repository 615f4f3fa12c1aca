/** The program association and program map tables as the decoder reads
    them (section 2.4.4 of ISO/IEC 13818-1): which program to follow, which
    PIDs carry data carousels (stream type 0x0D) under which component tag,
    and which PIDs carry private PES (stream type 0x06). */
module ProgramMap {
  import opened Common
  import opened AribBxml

  /** A PAT entry; `programMapPid` is absent for the network PID entry. */
  datatype Program = Program(programNumber: nat, programMapPid: Option<nat>)

  datatype ComponentPMT = ComponentPMT(componentId: nat, pid: nat, bxmlInfo: Option<BxmlInfo>)

  /** The ES_info descriptors the decoder looks at: the stream identifier
      descriptor (tag 0x52) and the data component descriptor (tag 0xFD),
      whose `data_component_id` the parser reads as a single byte. */
  datatype EsDescriptor =
    | StreamIdentifier(componentTag: nat)
    | DataComponent(descriptorLength: nat, dataComponentId: Byte, additionalInfo: Bytes)
    | OtherDescriptor(tag: Byte)

  datatype PmtStream = PmtStream(streamType: nat, elementaryPid: nat, esInfo: seq<EsDescriptor>)

  /** The PAT as a map from program map PID to program number; a PID listed
      twice keeps its later program. */
  function PatTable(programs: seq<Program>): (t: map<nat, nat>)
    ensures t.Keys == set k | 0 <= k < |programs| && programs[k].programMapPid.Some? :: programs[k].programMapPid.value
  {
    if programs == [] then map[]
    else
      var init, last := programs[..|programs| - 1], programs[|programs| - 1];
      assert programs == init + [last];
      var t := PatTable(init);
      if last.programMapPid.Some? then t[last.programMapPid.value := last.programNumber] else t
  }

  /** The smallest program number among the programs with a map PID. */
  function SmallestProgram(programs: seq<Program>): (n: Option<nat>)
    ensures n.None? <==> forall k :: 0 <= k < |programs| ==> programs[k].programMapPid.None?
    ensures n.Some? ==>
              && (exists k :: 0 <= k < |programs| && programs[k].programMapPid.Some? && programs[k].programNumber == n.value)
              && (forall k :: 0 <= k < |programs| && programs[k].programMapPid.Some? ==> n.value <= programs[k].programNumber)
  {
    if programs == [] then None
    else
      var init, last := programs[..|programs| - 1], programs[|programs| - 1];
      assert forall k :: 0 <= k < |init| ==> init[k] == programs[k];
      var n := SmallestProgram(init);
      if last.programMapPid.None? then n
      else if n.None? || last.programNumber < n.value then Some(last.programNumber)
      else n
  }

  /** The program loop of the PAT handler. */
  method DecodePat(programs: seq<Program>) returns (pat: map<nat, nat>, programNumber: Option<nat>)
    ensures pat == PatTable(programs) && programNumber == SmallestProgram(programs)
  {
    pat := map[];
    programNumber := None;
    var i := 0;
    while i < |programs|
      invariant 0 <= i <= |programs|
      invariant pat == PatTable(programs[..i]) && programNumber == SmallestProgram(programs[..i])
    {
      var program := programs[i];
      assert programs[..i + 1][..i] == programs[..i];
      if program.programMapPid.Some? {
        programNumber := if programNumber.None? || program.programNumber < programNumber.value
                         then Some(program.programNumber) else programNumber;
        pat := pat[program.programMapPid.value := program.programNumber];
      }
      i := i + 1;
    }
    assert programs[..i] == programs;
  }

  /** Each PID of the PAT table maps to the program number of the last
      program listed with that PID. */
  lemma {:induction false} PatTableLastWins(programs: seq<Program>)
    ensures forall k :: 0 <= k < |programs| && programs[k].programMapPid.Some?
                        && (forall k' :: k < k' < |programs| ==> programs[k'].programMapPid != programs[k].programMapPid) ==>
              PatTable(programs)[programs[k].programMapPid.value] == programs[k].programNumber
  {
    if programs != [] {
      var init, last := programs[..|programs| - 1], programs[|programs| - 1];
      assert forall k :: 0 <= k < |init| ==> init[k] == programs[k];
      PatTableLastWins(init);
    }
  }

  /** The program whose PMT is followed: the configured service id, or else
      the smallest program number of the PAT. */
  function WantedProgram(serviceId: Option<nat>, programNumber: Option<nat>): Option<nat> {
    if serviceId.Some? then serviceId else programNumber
  }

  /** A PMT is read when the PAT lists fewer than two programs, or when its
      PID maps to the wanted program. */
  predicate PmtSelected(pidToProgramNumber: map<nat, nat>, pid: nat, serviceId: Option<nat>, programNumber: Option<nat>) {
    |pidToProgramNumber| < 2
    || (pid in pidToProgramNumber && Some(pidToProgramNumber[pid]) == WantedProgram(serviceId, programNumber))
  }

  /** The data component ids of table J-1 of ARIB STD-B10 part 2 whose
      additional info is decoded: terrestrial (0x0C, 0x0D), BS (0x07) and
      CS (0x0B). */
  predicate AllowedDataComponent(id: nat) {
    id == 0x0C || id == 0x0D || id == 0x07 || id == 0x0B
  }

  /** The data component id and additional info of a data component
      descriptor. When the additional info is exactly one byte shorter than
      the descriptor, the parser read only the high byte of the 16-bit id:
      its low byte is then taken from the info, which loses that byte. */
  function DataComponentFields(d: EsDescriptor): (r: (nat, Bytes))
    requires d.DataComponent?
    ensures |d.additionalInfo| + 1 == d.descriptorLength ==>
              r.0 / 256 == d.dataComponentId && r.0 % 256 == At(d.additionalInfo, 0)
              && r.1 == (if d.additionalInfo == [] then [] else d.additionalInfo[1..])
    ensures |d.additionalInfo| + 1 != d.descriptorLength ==> r == (d.dataComponentId, d.additionalInfo)
  {
    var info := d.additionalInfo;
    if |info| + 1 == d.descriptorLength then
      // `id << 8 | info[0]`: the operands share no bit
      (d.dataComponentId * 256 + At(info, 0), if info == [] then [] else info[1..])
    else (d.dataComponentId, info)
  }

  /** What the heuristic is for: a descriptor carrying the 16-bit id `x`
      and the info `info`, read by a parser that takes one byte for the id
      (so the id's low byte lands at the head of the info), gives back `x`
      and `info`. */
  lemma {:induction false} MisreadIdRecovered(x: nat, info: Bytes)
    requires x < 0x1_0000
    ensures DataComponentFields(DataComponent(|info| + 2, (x / 256) as Byte, [(x % 256) as Byte] + info)) == (x, info)
  {
    var misread := [(x % 256) as Byte] + info;
    assert At(misread, 0) == x % 256;
    assert misread[1..] == info;
  }

  /** A descriptor read with its id whole, the info filling the rest of
      its body, is taken as it is. */
  lemma WholeIdKept(x: Byte, info: Bytes)
    ensures DataComponentFields(DataComponent(|info| + 2, x, info)) == (x as nat, info)
  {
  }

  /** The component tag of the last stream identifier descriptor. */
  function ComponentTag(es: seq<EsDescriptor>): (c: Option<nat>)
    ensures c.None? <==> forall k :: 0 <= k < |es| ==> !es[k].StreamIdentifier?
    ensures c.Some? ==> exists k :: 0 <= k < |es| && es[k].StreamIdentifier? && es[k].componentTag == c.value
                                    && forall k' :: k < k' < |es| ==> !es[k'].StreamIdentifier?
  {
    if es == [] then None
    else
      var init, last := es[..|es| - 1], es[|es| - 1];
      assert forall k :: 0 <= k < |init| ==> init[k] == es[k];
      if last.StreamIdentifier? then Some(last.componentTag)
      else
        var c := ComponentTag(init);
        assert c.Some? ==> exists k :: 0 <= k < |es| && es[k].StreamIdentifier? && es[k].componentTag == c.value
                                       && forall k' :: k < k' < |es| ==> !es[k'].StreamIdentifier? by {
          if c.Some? {
            var k :| 0 <= k < |init| && init[k].StreamIdentifier? && init[k].componentTag == c.value
                     && forall k' :: k < k' < |init| ==> !init[k'].StreamIdentifier?;
            assert forall k' :: k < k' < |es| ==> !es[k'].StreamIdentifier?;
          }
        }
        c
  }

  /** A data component descriptor whose id is on the allow-list. */
  predicate DecodesBxml(d: EsDescriptor) {
    d.DataComponent? && AllowedDataComponent(DataComponentFields(d).0)
  }

  /** The index of the last allowed data component descriptor, or -1. */
  function LastBxmlIndex(es: seq<EsDescriptor>): (k: int)
    ensures -1 <= k < |es|
    ensures k >= 0 ==> DecodesBxml(es[k])
    ensures forall k' :: k < k' < |es| ==> !DecodesBxml(es[k'])
  {
    if es == [] then -1
    else if DecodesBxml(es[|es| - 1]) then |es| - 1
    else
      var init := es[..|es| - 1];
      assert forall k' :: 0 <= k' < |init| ==> init[k'] == es[k'];
      LastBxmlIndex(init)
  }

  /** The BXML info of the last allowed data component descriptor. */
  function BxmlOf(es: seq<EsDescriptor>): (b: Option<BxmlInfo>)
    ensures b.None? <==> forall k :: 0 <= k < |es| ==> !DecodesBxml(es[k])
    ensures b.Some? ==> exists k :: 0 <= k < |es| && DecodesBxml(es[k])
                                    && b.value == DecodeAdditionalAribBXMLInfo(DataComponentFields(es[k]).1)
                                    && forall k' :: k < k' < |es| ==> !DecodesBxml(es[k'])
  {
    var k := LastBxmlIndex(es);
    if k < 0 then None else Some(DecodeAdditionalAribBXMLInfo(DataComponentFields(es[k]).1))
  }

  /** The ES_info loop of one stream. */
  method ScanEsInfo(es: seq<EsDescriptor>) returns (componentId: Option<nat>, bxmlInfo: Option<BxmlInfo>)
    ensures componentId == ComponentTag(es) && bxmlInfo == BxmlOf(es)
  {
    componentId, bxmlInfo := None, None;
    var i := 0;
    while i < |es|
      invariant 0 <= i <= |es|
      invariant componentId == ComponentTag(es[..i]) && bxmlInfo == BxmlOf(es[..i])
    {
      EsInfoStep(es, i);
      var d := es[i];
      if d.StreamIdentifier? {
        componentId := Some(d.componentTag);
      } else if d.DataComponent? {
        var info := d.additionalInfo;
        var id: nat := d.dataComponentId;
        if |info| + 1 == d.descriptorLength {
          id := id * 256 + At(info, 0);
          info := if info == [] then [] else info[1..];
        }
        if AllowedDataComponent(id) {
          bxmlInfo := Some(DecodeAdditionalAribBXMLInfo(info));
        }
      }
      i := i + 1;
    }
    assert es[..i] == es;
  }

  lemma EsInfoStep(es: seq<EsDescriptor>, i: nat)
    requires i < |es|
    ensures ComponentTag(es[..i + 1]) == if es[i].StreamIdentifier? then Some(es[i].componentTag) else ComponentTag(es[..i])
    ensures BxmlOf(es[..i + 1]) == if DecodesBxml(es[i]) then Some(DecodeAdditionalAribBXMLInfo(DataComponentFields(es[i]).1))
                                   else BxmlOf(es[..i])
  {
    assert es[..i + 1][..i] == es[..i];
  }

  /** The component a stream announces: a data carousel stream with a
      stream identifier descriptor. */
  function StreamComponent(s: PmtStream): (c: Option<ComponentPMT>)
    ensures c.Some? <==> s.streamType == 0x0D && ComponentTag(s.esInfo).Some?
    ensures c.Some? ==> c.value.pid == s.elementaryPid && c.value.componentId == ComponentTag(s.esInfo).value
                        && c.value.bxmlInfo == BxmlOf(s.esInfo)
  {
    if s.streamType != 0x0D then None
    else match ComponentTag(s.esInfo)
      case None => None
      case Some(c) => Some(ComponentPMT(c, s.elementaryPid, BxmlOf(s.esInfo)))
  }

  /** What the stream loop of a PMT builds: components by PID, components
      by component id in insertion order, and the private PES PIDs. */
  datatype PmtTables = PmtTables(pidToComponent: map<nat, ComponentPMT>, componentToPid: JsMap<nat, ComponentPMT>, privatePes: set<nat>)

  function Tables(streams: seq<PmtStream>, parsePES: bool): (t: PmtTables)
    ensures t.componentToPid.Valid()
  {
    if streams == [] then PmtTables(map[], EmptyJsMap(), {})
    else
      var init, s := streams[..|streams| - 1], streams[|streams| - 1];
      var t := Tables(init, parsePES);
      var pes := if parsePES && s.streamType == 0x06 then t.privatePes + {s.elementaryPid} else t.privatePes;
      match StreamComponent(s)
      case None => t.(privatePes := pes)
      case Some(c) => PmtTables(t.pidToComponent[c.pid := c], t.componentToPid.Set(c.componentId, c), pes)
  }

  lemma TablesStep(streams: seq<PmtStream>, i: nat, parsePES: bool)
    requires i < |streams|
    ensures var t, s := Tables(streams[..i], parsePES), streams[i];
            var pes := if parsePES && s.streamType == 0x06 then t.privatePes + {s.elementaryPid} else t.privatePes;
            Tables(streams[..i + 1], parsePES)
              == match StreamComponent(s)
                 case None => t.(privatePes := pes)
                 case Some(c) => PmtTables(t.pidToComponent[c.pid := c], t.componentToPid.Set(c.componentId, c), pes)
  {
    assert streams[..i + 1][..i] == streams[..i];
  }

  /** The stream loop of the PMT handler. */
  method DecodePmt(streams: seq<PmtStream>, parsePES: bool) returns (t: PmtTables)
    ensures t == Tables(streams, parsePES)
  {
    var ptc: map<nat, ComponentPMT> := map[];
    var ctp: JsMap<nat, ComponentPMT> := EmptyJsMap();
    var privatePes: set<nat> := {};
    var i := 0;
    while i < |streams|
      invariant 0 <= i <= |streams|
      invariant PmtTables(ptc, ctp, privatePes) == Tables(streams[..i], parsePES)
    {
      TablesStep(streams, i, parsePES);
      var stream := streams[i];
      if parsePES && stream.streamType == 0x06 {
        privatePes := privatePes + {stream.elementaryPid};
      }
      if stream.streamType != 0x0D {
        i := i + 1;
        continue;
      }
      var componentId, bxmlInfo := ScanEsInfo(stream.esInfo);
      if componentId.None? {
        i := i + 1;
        continue;
      }
      var component := ComponentPMT(componentId.value, stream.elementaryPid, bxmlInfo);
      ptc := ptc[stream.elementaryPid := component];
      ctp := ctp.Set(component.componentId, component);
      i := i + 1;
    }
    assert streams[..i] == streams;
    t := PmtTables(ptc, ctp, privatePes);
  }

  /** The PIDs of the streams that announce a component. */
  function AnnouncedPids(streams: seq<PmtStream>): set<nat> {
    set k | 0 <= k < |streams| && StreamComponent(streams[k]).Some? :: streams[k].elementaryPid
  }

  /** The component ids the streams announce. */
  function AnnouncedComponents(streams: seq<PmtStream>): set<nat> {
    set k | 0 <= k < |streams| && StreamComponent(streams[k]).Some? :: StreamComponent(streams[k]).value.componentId
  }

  /** The PIDs of the stream type 0x06 streams. */
  function PrivatePesPids(streams: seq<PmtStream>): set<nat> {
    set k | 0 <= k < |streams| && streams[k].streamType == 0x06 :: streams[k].elementaryPid
  }

  lemma AnnouncedPidsSnoc(streams: seq<PmtStream>)
    requires streams != []
    ensures var init, s := streams[..|streams| - 1], streams[|streams| - 1];
            AnnouncedPids(streams) == AnnouncedPids(init) + (if StreamComponent(s).Some? then {s.elementaryPid} else {})
  {
    var n := |streams| - 1;
    var init, s := streams[..n], streams[n];
    forall x | x in AnnouncedPids(streams) ensures x in AnnouncedPids(init) + (if StreamComponent(s).Some? then {s.elementaryPid} else {}) {
      var k :| 0 <= k < |streams| && StreamComponent(streams[k]).Some? && streams[k].elementaryPid == x;
      if k < n {
        assert init[k] == streams[k];
      }
    }
    forall x | x in AnnouncedPids(init) ensures x in AnnouncedPids(streams) {
      var k :| 0 <= k < |init| && StreamComponent(init[k]).Some? && init[k].elementaryPid == x;
      assert streams[k] == init[k];
    }
    if StreamComponent(s).Some? {
      assert StreamComponent(streams[n]).Some? && streams[n].elementaryPid == s.elementaryPid;
    }
  }

  lemma AnnouncedComponentsSnoc(streams: seq<PmtStream>)
    requires streams != []
    ensures var init, s := streams[..|streams| - 1], streams[|streams| - 1];
            AnnouncedComponents(streams) == AnnouncedComponents(init) + (if StreamComponent(s).Some? then {StreamComponent(s).value.componentId} else {})
  {
    var n := |streams| - 1;
    var init, s := streams[..n], streams[n];
    forall x | x in AnnouncedComponents(streams) ensures x in AnnouncedComponents(init) + (if StreamComponent(s).Some? then {StreamComponent(s).value.componentId} else {}) {
      var k :| 0 <= k < |streams| && StreamComponent(streams[k]).Some? && StreamComponent(streams[k]).value.componentId == x;
      if k < n {
        assert init[k] == streams[k];
      }
    }
    forall x | x in AnnouncedComponents(init) ensures x in AnnouncedComponents(streams) {
      var k :| 0 <= k < |init| && StreamComponent(init[k]).Some? && StreamComponent(init[k]).value.componentId == x;
      assert streams[k] == init[k];
    }
    if StreamComponent(s).Some? {
      assert StreamComponent(streams[n]).Some? && StreamComponent(streams[n]).value.componentId == StreamComponent(s).value.componentId;
    }
  }

  lemma PrivatePesPidsSnoc(streams: seq<PmtStream>)
    requires streams != []
    ensures var init, s := streams[..|streams| - 1], streams[|streams| - 1];
            PrivatePesPids(streams) == PrivatePesPids(init) + (if s.streamType == 0x06 then {s.elementaryPid} else {})
  {
    var n := |streams| - 1;
    var init, s := streams[..n], streams[n];
    forall x | x in PrivatePesPids(streams) ensures x in PrivatePesPids(init) + (if s.streamType == 0x06 then {s.elementaryPid} else {}) {
      var k :| 0 <= k < |streams| && streams[k].streamType == 0x06 && streams[k].elementaryPid == x;
      if k < n {
        assert init[k] == streams[k];
      }
    }
    forall x | x in PrivatePesPids(init) ensures x in PrivatePesPids(streams) {
      var k :| 0 <= k < |init| && init[k].streamType == 0x06 && init[k].elementaryPid == x;
      assert streams[k] == init[k];
    }
    if s.streamType == 0x06 {
      assert streams[n].streamType == 0x06 && streams[n].elementaryPid == s.elementaryPid;
    }
  }

  /** The PMT tables hold exactly the data carousel streams that carry a
      component tag, each under its own PID. */
  lemma {:induction false} TablesByPid(streams: seq<PmtStream>, parsePES: bool)
    ensures Tables(streams, parsePES).pidToComponent.Keys ==
              set k | 0 <= k < |streams| && StreamComponent(streams[k]).Some? :: streams[k].elementaryPid
    ensures forall pid :: pid in Tables(streams, parsePES).pidToComponent ==>
              Tables(streams, parsePES).pidToComponent[pid].pid == pid
  {
    if streams != [] {
      TablesByPid(streams[..|streams| - 1], parsePES);
      TablesStep(streams, |streams| - 1, parsePES);
      AnnouncedPidsSnoc(streams);
    }
  }

  /** The component ids of the PMT tables are those of the data carousel
      streams that carry a component tag, each mapped to its own component. */
  lemma {:induction false} TablesByComponent(streams: seq<PmtStream>, parsePES: bool)
    ensures Tables(streams, parsePES).componentToPid.values.Keys ==
              set k | 0 <= k < |streams| && StreamComponent(streams[k]).Some? :: StreamComponent(streams[k]).value.componentId
    ensures forall c :: c in Tables(streams, parsePES).componentToPid.values ==>
              Tables(streams, parsePES).componentToPid.values[c].componentId == c
  {
    if streams != [] {
      TablesByComponent(streams[..|streams| - 1], parsePES);
      TablesStep(streams, |streams| - 1, parsePES);
      AnnouncedComponentsSnoc(streams);
    }
  }

  /** The private PES PIDs are the stream type 0x06 PIDs when PES parsing is
      on, and none otherwise. */
  lemma {:induction false} TablesPrivatePes(streams: seq<PmtStream>, parsePES: bool)
    ensures Tables(streams, parsePES).privatePes ==
              if parsePES then set k | 0 <= k < |streams| && streams[k].streamType == 0x06 :: streams[k].elementaryPid else {}
  {
    if streams != [] {
      TablesPrivatePes(streams[..|streams| - 1], parsePES);
      TablesStep(streams, |streams| - 1, parsePES);
      PrivatePesPidsSnoc(streams);
    }
  }

  /** Stream `s` announces a component on PID `pid`. */
  predicate AnnouncesPid(s: PmtStream, pid: nat) {
    s.streamType == 0x0D && ComponentTag(s.esInfo).Some? && s.elementaryPid == pid
  }

  /** Stream `s` announces the component id `c`. */
  predicate AnnouncesComponent(s: PmtStream, c: nat) {
    s.streamType == 0x0D && ComponentTag(s.esInfo) == Some(c)
  }

  /** The index of the last stream announcing a component on `pid`, or -1. */
  function LastWithPid(streams: seq<PmtStream>, pid: nat): (k: int)
    ensures -1 <= k < |streams|
    ensures k >= 0 ==> AnnouncesPid(streams[k], pid)
    ensures forall j :: k < j < |streams| ==> !AnnouncesPid(streams[j], pid)
  {
    if streams == [] then -1
    else if AnnouncesPid(streams[|streams| - 1], pid) then |streams| - 1
    else LastWithPid(streams[..|streams| - 1], pid)
  }

  /** The index of the last stream announcing component `c`, or -1. */
  function LastWithComponent(streams: seq<PmtStream>, c: nat): (k: int)
    ensures -1 <= k < |streams|
    ensures k >= 0 ==> AnnouncesComponent(streams[k], c)
    ensures forall j :: k < j < |streams| ==> !AnnouncesComponent(streams[j], c)
  {
    if streams == [] then -1
    else if AnnouncesComponent(streams[|streams| - 1], c) then |streams| - 1
    else LastWithComponent(streams[..|streams| - 1], c)
  }

  /** The index of the first stream announcing component `c`, or -1. */
  function FirstWithComponent(streams: seq<PmtStream>, c: nat): (k: int)
    ensures -1 <= k < |streams|
    ensures k >= 0 ==> AnnouncesComponent(streams[k], c)
  {
    if streams == [] then -1
    else
      var first := FirstWithComponent(streams[..|streams| - 1], c);
      if first >= 0 then first
      else if AnnouncesComponent(streams[|streams| - 1], c) then |streams| - 1
      else -1
  }

  /** No stream before the first one found announces the id, and none at
      all when none is found. */
  lemma {:induction false} FirstIsFirst(streams: seq<PmtStream>, c: nat)
    ensures var k := FirstWithComponent(streams, c);
            forall j :: 0 <= j < |streams| && (k < 0 || j < k) ==> !AnnouncesComponent(streams[j], c)
  {
    if streams != [] {
      var init := streams[..|streams| - 1];
      FirstIsFirst(init, c);
      assert forall j :: 0 <= j < |init| ==> init[j] == streams[j];
    }
  }

  /** Under each PID the tables hold the component of the last stream
      announcing one on that PID, its BXML info included. */
  lemma {:induction false} TablesPidValues(streams: seq<PmtStream>, parsePES: bool, pid: nat)
    ensures pid in Tables(streams, parsePES).pidToComponent <==> LastWithPid(streams, pid) >= 0
    ensures pid in Tables(streams, parsePES).pidToComponent ==>
              Tables(streams, parsePES).pidToComponent[pid] == StreamComponent(streams[LastWithPid(streams, pid)]).value
  {
    if streams != [] {
      TablesPidValues(streams[..|streams| - 1], parsePES, pid);
      TablesStep(streams, |streams| - 1, parsePES);
    }
  }

  /** Under each component id the tables hold the component of the last
      stream announcing it, with that stream's PID. */
  lemma {:induction false} TablesComponentValues(streams: seq<PmtStream>, parsePES: bool, c: nat)
    ensures c in Tables(streams, parsePES).componentToPid.values <==> LastWithComponent(streams, c) >= 0
    ensures c in Tables(streams, parsePES).componentToPid.values ==>
              Tables(streams, parsePES).componentToPid.values[c] == StreamComponent(streams[LastWithComponent(streams, c)]).value
  {
    if streams != [] {
      TablesComponentValues(streams[..|streams| - 1], parsePES, c);
      TablesStep(streams, |streams| - 1, parsePES);
    }
  }

  /** The component ids are kept in the order in which they were first
      announced, which is the order of the `pmt` message's list. */
  lemma {:induction false} TablesComponentOrder(streams: seq<PmtStream>, parsePES: bool)
    ensures var keys := Tables(streams, parsePES).componentToPid.keys;
            && (forall i :: 0 <= i < |keys| ==> FirstWithComponent(streams, keys[i]) >= 0)
            && (forall i, j :: 0 <= i < j < |keys| ==> FirstWithComponent(streams, keys[i]) < FirstWithComponent(streams, keys[j]))
  {
    if streams != [] {
      var n := |streams| - 1;
      TablesComponentOrder(streams[..n], parsePES);
      TablesKeysStep(streams, parsePES);
      var keys0 := Tables(streams[..n], parsePES).componentToPid.keys;
      FirstKept(streams, keys0);
      if Tables(streams, parsePES).componentToPid.keys != keys0 {
        var c := StreamComponent(streams[n]).value.componentId;
        FirstAppended(streams, keys0, keys0 + [c], c);
      }
    }
  }

  /** Ids already announced keep their first stream when a stream is added. */
  lemma FirstKept(streams: seq<PmtStream>, keys0: seq<nat>)
    requires streams != []
    requires forall i :: 0 <= i < |keys0| ==> FirstWithComponent(streams[..|streams| - 1], keys0[i]) >= 0
    requires forall i, j :: 0 <= i < j < |keys0| ==>
               FirstWithComponent(streams[..|streams| - 1], keys0[i]) < FirstWithComponent(streams[..|streams| - 1], keys0[j])
    ensures forall i :: 0 <= i < |keys0| ==> 0 <= FirstWithComponent(streams, keys0[i]) < |streams| - 1
    ensures forall i, j :: 0 <= i < j < |keys0| ==> FirstWithComponent(streams, keys0[i]) < FirstWithComponent(streams, keys0[j])
  {
  }

  /** An id first announced by the last stream comes after all others. */
  lemma FirstAppended(streams: seq<PmtStream>, keys0: seq<nat>, keys: seq<nat>, c: nat)
    requires streams != []
    requires forall i :: 0 <= i < |keys0| ==> 0 <= FirstWithComponent(streams, keys0[i]) < |streams| - 1
    requires forall i, j :: 0 <= i < j < |keys0| ==> FirstWithComponent(streams, keys0[i]) < FirstWithComponent(streams, keys0[j])
    requires FirstWithComponent(streams, c) == |streams| - 1
    requires keys == keys0 + [c]
    ensures forall i :: 0 <= i < |keys| ==> FirstWithComponent(streams, keys[i]) >= 0
    ensures forall i, j :: 0 <= i < j < |keys| ==> FirstWithComponent(streams, keys[i]) < FirstWithComponent(streams, keys[j])
  {
  }

  /** A stream adds its component id at the end of the keys exactly when
      no earlier stream announced it. */
  lemma TablesKeysStep(streams: seq<PmtStream>, parsePES: bool)
    requires streams != []
    ensures var n := |streams| - 1;
            var keys0, keys := Tables(streams[..n], parsePES).componentToPid.keys, Tables(streams, parsePES).componentToPid.keys;
            || keys == keys0
            || (&& StreamComponent(streams[n]).Some?
                && var c := StreamComponent(streams[n]).value.componentId;
                   AnnouncesComponent(streams[n], c) && LastWithComponent(streams[..n], c) < 0 && keys == keys0 + [c])
  {
    var n := |streams| - 1;
    TablesStep(streams, n, parsePES);
    if StreamComponent(streams[n]).Some? {
      TablesComponentValues(streams[..n], parsePES, StreamComponent(streams[n]).value.componentId);
    }
  }

  /** The PMT handler's change test: a different number of component ids,
      or an old component id that is gone. */
  predicate ComponentsChanged(old_: JsMap<nat, ComponentPMT>, new_: JsMap<nat, ComponentPMT>) {
    old_.Size() != new_.Size() || exists k :: 0 <= k < |old_.keys| && old_.keys[k] !in new_.values
  }

  lemma {:induction false} DistinctKeysCount<K>(keys: seq<K>)
    requires forall i, j :: 0 <= i < j < |keys| ==> keys[i] != keys[j]
    ensures |set k | k in keys| == |keys|
  {
    if keys != [] {
      var init, last := keys[..|keys| - 1], keys[|keys| - 1];
      DistinctKeysCount(init);
      assert (set k | k in keys) == (set k | k in init) + {last} by {
        assert keys == init + [last];
      }
      assert forall i :: 0 <= i < |init| ==> init[i] == keys[i];
    }
  }

  lemma SubsetSameSize<K>(a: set<K>, b: set<K>)
    requires a <= b && |a| == |b|
    ensures a == b
  {
    var d := b - a;
    assert b == a + d;
    assert a * d == {};
    assert |b| == |a| + |d|;
  }

  /** The change test holds exactly when the sets of component ids differ. */
  lemma ComponentsChangedIffKeysDiffer(old_: JsMap<nat, ComponentPMT>, new_: JsMap<nat, ComponentPMT>)
    requires old_.Valid() && new_.Valid()
    ensures ComponentsChanged(old_, new_) <==> old_.values.Keys != new_.values.Keys
  {
    DistinctKeysCount(old_.keys);
    DistinctKeysCount(new_.keys);
    var a, b := old_.values.Keys, new_.values.Keys;
    assert |a| == old_.Size() && |b| == new_.Size();
    if !ComponentsChanged(old_, new_) {
      assert a <= b by {
        forall x | x in a ensures x in b {
          var i :| 0 <= i < |old_.keys| && old_.keys[i] == x;
        }
      }
      SubsetSameSize(a, b);
    } else if old_.Size() == new_.Size() {
      var i :| 0 <= i < |old_.keys| && old_.keys[i] !in new_.values;
      assert old_.keys[i] in a;
    }
  }
}
