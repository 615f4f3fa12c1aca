/** The state `decodeTS` keeps between the sections and packets the
    transport stream demultiplexer hands it, and its handlers for the PAT,
    the PMT, private PES packets and DSM-CC sections. Each handler is a
    method of `TsDecoder` proved against a function from the old state to
    the new state and outcome; the properties of the handlers are lemmas
    about those functions. Messages given to `send` are appended to `sent`. */
module Decoder {
  import opened Common
  import opened Pes
  import opened StreamEvents
  import opened Carousel
  import opened ProgramMap

  /** The messages the decoder sends (the `base64` text of file data is
      kept as the bytes it encodes). */
  datatype Message =
    | PmtMessage(components: seq<ComponentPMT>)
    | ModuleListUpdated(componentId: nat, modules: seq<nat>, dataEventId: nat, returnToEntryFlag: Option<bool>)
    | ModuleDownloaded(componentId: nat, moduleId: nat, files: seq<CachedFile>, version: nat, dataEventId: nat)
    | EsEventUpdated(componentId: nat, events: seq<EsEvent>, dataEventId: nat)
    | PesMessageSent(pes: PesMessage)

  /** How a handler ends: normally, or with an exception escaping it. */
  datatype Outcome = Handled | Threw

  /** The bytes gathered for one private PES PID and the length the PES
      header declares (the demultiplexer's per-PID buffer). */
  datatype PesBuffer = PesBuffer(data: Bytes, entireLength: int)

  datatype TsPacket = TsPacket(pid: nat, payloadUnitStart: bool, dataByte: Bytes)

  /** A DSM-CC section by table id: 0x3B, 0x3C, 0x3D or another. */
  datatype DsmccSection =
    | DiiSection(dii: Dii)
    | DdbSection(ddb: Ddb)
    | StreamDescriptorSection(tableIdExtension: nat, streamDescriptor: Bytes)
    | OtherSection(tableId: nat)

  datatype DecoderState = DecoderState(
    pidToComponent: map<nat, ComponentPMT>,
    componentToPid: JsMap<nat, ComponentPMT>,
    pidToProgramNumber: map<nat, nat>,
    programNumber: Option<nat>,
    privatePes: set<nat>,
    pesBuffers: map<nat, PesBuffer>,
    downloadComponents: map<nat, DownloadComponentInfo>,
    cachedComponents: map<nat, map<nat, CachedModule>>,
    sent: seq<Message>)

  datatype Step = Step(state: DecoderState, outcome: Outcome)

  /** What the handlers keep true: the component map is a well-formed
      insertion-ordered map, and every module being downloaded is stored
      under its own id with a block count equal to its filled slots. */
  ghost predicate StateValid(st: DecoderState) {
    && st.componentToPid.Valid()
    && forall c, id :: c in st.downloadComponents && id in st.downloadComponents[c].modules ==>
         && Consistent(st.downloadComponents[c].modules[id])
         && st.downloadComponents[c].modules[id].moduleId == id
  }

  function InitialState(): DecoderState {
    DecoderState(map[], EmptyJsMap(), map[], None, {}, map[], map[], map[], [])
  }

  // ---------------------------------------------------------------- PAT

  function AfterPat(st: DecoderState, programs: seq<Program>): DecoderState {
    st.(pidToProgramNumber := PatTable(programs), programNumber := SmallestProgram(programs))
  }

  // ---------------------------------------------------------------- PMT

  function AfterPmt(st: DecoderState, serviceId: Option<nat>, parsePES: bool, pid: nat, streams: seq<PmtStream>): DecoderState {
    if !PmtSelected(st.pidToProgramNumber, pid, serviceId, st.programNumber) then st
    else
      var t := Tables(streams, parsePES);
      var st1 := st.(pidToComponent := t.pidToComponent, privatePes := t.privatePes);
      if ComponentsChanged(st.componentToPid, t.componentToPid) then
        st1.(componentToPid := t.componentToPid, sent := st.sent + [PmtMessage(t.componentToPid.ValueList())])
      else st1
  }

  /** A PMT the PAT does not select changes nothing. */
  lemma PmtIgnored(st: DecoderState, serviceId: Option<nat>, parsePES: bool, pid: nat, streams: seq<PmtStream>)
    requires |st.pidToProgramNumber| >= 2
    requires pid !in st.pidToProgramNumber || Some(st.pidToProgramNumber[pid]) != WantedProgram(serviceId, st.programNumber)
    ensures AfterPmt(st, serviceId, parsePES, pid, streams) == st
  {
  }

  /** A selected PMT always replaces the PID map and the private PES PIDs;
      it replaces the component map and sends one `pmt` message listing the
      components in insertion order exactly when the set of component ids
      changes. */
  lemma PmtApplied(st: DecoderState, serviceId: Option<nat>, parsePES: bool, pid: nat, streams: seq<PmtStream>)
    requires StateValid(st)
    requires PmtSelected(st.pidToProgramNumber, pid, serviceId, st.programNumber)
    ensures var r := AfterPmt(st, serviceId, parsePES, pid, streams);
            var t := Tables(streams, parsePES);
            && r.pidToComponent == t.pidToComponent
            && r.privatePes == t.privatePes
            && (st.componentToPid.values.Keys != t.componentToPid.values.Keys ==>
                  r.componentToPid == t.componentToPid
                  && r.sent == st.sent + [PmtMessage(t.componentToPid.ValueList())])
            && (st.componentToPid.values.Keys == t.componentToPid.values.Keys ==>
                  r.componentToPid == st.componentToPid && r.sent == st.sent)
            && r.downloadComponents == st.downloadComponents && r.cachedComponents == st.cachedComponents
  {
    ComponentsChangedIffKeysDiffer(st.componentToPid, Tables(streams, parsePES).componentToPid);
  }

  // ---------------------------------------------------------------- PES

  /** The buffer of a PID the demultiplexer has not filled yet. */
  function BufferOf(buffers: map<nat, PesBuffer>, pid: nat): PesBuffer {
    if pid in buffers then buffers[pid] else PesBuffer([], 0)
  }

  /** A packet added to its PID's buffer. A packet that starts a payload
      unit restarts the buffer and sets the expected length from
      PES_packet_length, or to 0x7fffffff when bytes 4 and 5 are missing. */
  function Gather(b: PesBuffer, p: TsPacket): PesBuffer {
    if p.payloadUnitStart then
      PesBuffer(p.dataByte, if |p.dataByte| >= 6 then U16(p.dataByte, 4) + 6 else 0x7fff_ffff)
    else b.(data := b.data + p.dataByte)
  }

  function AfterPacket(st: DecoderState, p: TsPacket): Step {
    if p.pid !in st.privatePes then Step(st, Handled)
    else
      var b := Gather(BufferOf(st.pesBuffers, p.pid), p);
      if b.entireLength != |b.data| then Step(st.(pesBuffers := st.pesBuffers[p.pid := b]), Handled)
      else
        var st1 := st.(pesBuffers := st.pesBuffers[p.pid := PesBuffer([], b.entireLength)]);
        match DecodePES(b.data)
        case Null => Step(st1, Handled)
        case Throws => Step(st1, Threw)
        case Value(msg) => Step(st1.(sent := st.sent + [PesMessageSent(msg)]), Handled)
  }

  /** Packets of one PID in arrival order: the buffer and the messages sent. */
  function FeedPes(b: PesBuffer, ps: seq<TsPacket>): (PesBuffer, seq<Message>)
  {
    if ps == [] then (b, [])
    else
      var (b1, sent1) := FeedPes(b, ps[..|ps| - 1]);
      var g := Gather(b1, ps[|ps| - 1]);
      if g.entireLength != |g.data| then (g, sent1)
      else
        (PesBuffer([], g.entireLength),
         sent1 + match DecodePES(g.data) case Value(msg) => [PesMessageSent(msg)] case _ => [])
  }

  /** The handler's state after a run of packets, in arrival order. */
  function AfterPackets(st: DecoderState, ps: seq<TsPacket>): DecoderState
    decreases |ps|
  {
    if ps == [] then st else AfterPacket(AfterPackets(st, ps[..|ps| - 1]), ps[|ps| - 1]).state
  }

  /** On a private PES PID, a run of packets moves that PID's buffer and
      the messages sent exactly as `FeedPes` says, so the buffer lemmas
      below hold of the handler. */
  lemma {:induction false} PacketsFeed(st: DecoderState, pid: nat, ps: seq<TsPacket>)
    requires pid in st.privatePes
    requires forall k :: 0 <= k < |ps| ==> ps[k].pid == pid
    ensures var r := AfterPackets(st, ps);
            && r.privatePes == st.privatePes
            && BufferOf(r.pesBuffers, pid) == FeedPes(BufferOf(st.pesBuffers, pid), ps).0
            && r.sent == st.sent + FeedPes(BufferOf(st.pesBuffers, pid), ps).1
    decreases |ps|
  {
    if ps != [] {
      var init, p := ps[..|ps| - 1], ps[|ps| - 1];
      PacketsFeed(st, pid, init);
      var b0 := BufferOf(st.pesBuffers, pid);
      var prev := AfterPackets(st, init);
      assert AfterPackets(st, ps) == AfterPacket(prev, p).state;
      var g := Gather(FeedPes(b0, init).0, p);
      var out: seq<Message> := match DecodePES(g.data) case Value(msg) => [PesMessageSent(msg)] case _ => [];
      PacketStep(prev, pid, p, out);
      if g.entireLength != |g.data| {
        assert FeedPes(b0, ps) == (g, FeedPes(b0, init).1);
      } else {
        assert FeedPes(b0, ps) == (PesBuffer([], g.entireLength), FeedPes(b0, init).1 + out);
      }
    }
  }

  /** One packet on a private PES PID: the buffer gathers it, and a buffer
      that reaches its length is decoded and emptied. */
  lemma PacketStep(st: DecoderState, pid: nat, p: TsPacket, out: seq<Message>)
    requires pid in st.privatePes && p.pid == pid
    requires out == match DecodePES(Gather(BufferOf(st.pesBuffers, pid), p).data)
                    case Value(msg) => [PesMessageSent(msg)] case _ => []
    ensures var r, g := AfterPacket(st, p).state, Gather(BufferOf(st.pesBuffers, pid), p);
            && r.privatePes == st.privatePes
            && BufferOf(r.pesBuffers, pid) == (if g.entireLength != |g.data| then g else PesBuffer([], g.entireLength))
            && r.sent == st.sent + (if g.entireLength != |g.data| then [] else out)
  {
  }

  /** The first `n` bytes of a start packet followed by `n` continuation packets. */
  function Gathered(first: Bytes, rest: seq<Bytes>): Bytes {
    if rest == [] then first else Gathered(first, rest[..|rest| - 1]) + rest[|rest| - 1]
  }

  function Packets(pid: nat, first: Bytes, rest: seq<Bytes>): (ps: seq<TsPacket>)
    ensures |ps| == |rest| + 1
  {
    [TsPacket(pid, true, first)] + seq(|rest|, i requires 0 <= i < |rest| => TsPacket(pid, false, rest[i]))
  }

  lemma {:induction false} GatheredLength(first: Bytes, rest: seq<Bytes>, k: nat)
    requires k < |rest| && forall i :: 0 <= i < |rest| ==> rest[i] != []
    ensures |Gathered(first, rest[..k])| < |Gathered(first, rest)|
    decreases |rest|
  {
    var init := rest[..|rest| - 1];
    if k < |init| {
      assert init[..k] == rest[..k];
      GatheredLength(first, init, k);
    } else {
      assert rest[..k] == init;
    }
  }

  /** A PES packet whose PES_packet_length is right, carried by a start
      packet of at least 6 bytes and non-empty continuation packets, is
      decoded once, when its last byte arrives, and the buffer is emptied;
      nothing is sent before. */
  lemma {:induction false} WholePesSentOnce(b: PesBuffer, pid: nat, first: Bytes, rest: seq<Bytes>)
    requires |first| >= 6
    requires forall i :: 0 <= i < |rest| ==> rest[i] != []
    requires U16(first, 4) + 6 == |Gathered(first, rest)|
    ensures FeedPes(b, Packets(pid, first, rest)).0 == PesBuffer([], |Gathered(first, rest)|)
    ensures FeedPes(b, Packets(pid, first, rest)).1 ==
              match DecodePES(Gathered(first, rest)) case Value(msg) => [PesMessageSent(msg)] case _ => []
  {
    var total := |Gathered(first, rest)|;
    var ps := Packets(pid, first, rest);
    var k := |rest|;
    FeedSnoc(b, ps, k);
    assert ps[..k + 1] == ps;
    if k == 0 {
      assert ps[..0] == [];
    } else {
      PartialFeed(b, pid, first, rest, k - 1, total);
      assert ps[k] == TsPacket(pid, false, rest[k - 1]);
      GatheredSnoc(first, rest, k);
      assert rest[..k] == rest;
    }
    var out: seq<Message> := match DecodePES(Gathered(first, rest)) case Value(msg) => [PesMessageSent(msg)] case _ => [];
    assert [] + out == out;
  }

  /** Before the last packet, the buffer holds the bytes gathered so far
      and nothing has been sent. */
  lemma {:induction false} PartialFeed(b: PesBuffer, pid: nat, first: Bytes, rest: seq<Bytes>, k: nat, total: nat)
    requires k < |rest| && |first| >= 6 && U16(first, 4) + 6 == total
    requires forall i :: 0 <= i < |rest| ==> rest[i] != []
    requires total == |Gathered(first, rest)|
    ensures FeedPes(b, Packets(pid, first, rest)[..k + 1]) == (PesBuffer(Gathered(first, rest[..k]), total), [])
    decreases k
  {
    var ps := Packets(pid, first, rest);
    FeedSnoc(b, ps, k);
    GatheredLength(first, rest, k);
    if k == 0 {
      assert ps[..0] == [] && rest[..0] == [];
    } else {
      PartialFeed(b, pid, first, rest, k - 1, total);
      assert ps[k] == TsPacket(pid, false, rest[k - 1]);
      GatheredSnoc(first, rest, k);
    }
  }

  /** Feeding one more packet. */
  lemma FeedSnoc(b: PesBuffer, ps: seq<TsPacket>, k: nat)
    requires k < |ps|
    ensures FeedPes(b, ps[..k + 1]) ==
              var (b1, sent1) := FeedPes(b, ps[..k]);
              var g := Gather(b1, ps[k]);
              if g.entireLength != |g.data| then (g, sent1)
              else (PesBuffer([], g.entireLength), sent1 + match DecodePES(g.data) case Value(msg) => [PesMessageSent(msg)] case _ => [])
  {
    assert ps[..k + 1][..k] == ps[..k];
  }

  lemma GatheredSnoc(first: Bytes, rest: seq<Bytes>, k: nat)
    requires 0 < k <= |rest|
    ensures Gathered(first, rest[..k]) == Gathered(first, rest[..k - 1]) + rest[k - 1]
  {
    assert rest[..k][..k - 1] == rest[..k - 1];
  }

  // ------------------------------------------------------------- DSM-CC

  /** The DII handler for the component on the section's PID. */
  function AfterDii(st: DecoderState, componentId: nat, dii: Dii): Step {
    if componentId in st.downloadComponents && st.downloadComponents[componentId].transactionId == dii.transactionId then
      Step(st, Handled)
    else
      match ModuleTable(dii.modules, dii.blockSize)
      case Thrown => Step(st, Threw)
      case Ok(table) =>
        var dataEventId := DataEventIdOf(dii.downloadId);
        var msg := ModuleListUpdated(componentId, ModuleIds(dii.modules), dataEventId, ReturnToEntryFlag(dii.privateData));
        var info := DownloadComponentInfo(componentId, dii.transactionId, 0, table, dataEventId);
        Step(st.(downloadComponents := st.downloadComponents[componentId := info], sent := st.sent + [msg]), Handled)
  }

  /** A DII whose transaction id is the one already tracked for its
      component sends nothing and changes nothing. */
  lemma DiiRepeatIgnored(st: DecoderState, componentId: nat, dii: Dii)
    requires componentId in st.downloadComponents
    requires st.downloadComponents[componentId].transactionId == dii.transactionId
    ensures AfterDii(st, componentId, dii) == Step(st, Handled)
  {
  }

  /** Any other DII that does not throw sends one `moduleListUpdated`
      listing every module id it carries, then replaces the component's
      download state: every module starts with `ceil(moduleSize /
      blockSize)` empty slots and a zero count, and the data event id is
      bits 28 to 31 of the download id. The module cache is kept. */
  lemma DiiReplacesComponent(st: DecoderState, componentId: nat, dii: Dii)
    requires componentId !in st.downloadComponents || st.downloadComponents[componentId].transactionId != dii.transactionId
    requires !AfterDii(st, componentId, dii).outcome.Threw?
    ensures var r := AfterDii(st, componentId, dii).state;
            && r.sent == st.sent + [ModuleListUpdated(componentId, ModuleIds(dii.modules), DataEventIdOf(dii.downloadId), ReturnToEntryFlag(dii.privateData))]
            && componentId in r.downloadComponents
            && var info := r.downloadComponents[componentId];
            && info.transactionId == dii.transactionId && info.downloadedModuleCount == 0
            && info.dataEventId == DataEventIdOf(dii.downloadId) && info.dataEventId < 16
            && info.modules.Keys == (set k | 0 <= k < |dii.modules| :: dii.modules[k].moduleId)
            && (forall id :: id in info.modules ==>
                  && info.modules[id].downloadedBlockCount == 0
                  && info.modules[id].moduleId == id
                  && exists k :: 0 <= k < |dii.modules| && dii.modules[k].moduleId == id && dii.blockSize > 0
                                 && |info.modules[id].blocks| == CeilDiv(dii.modules[k].moduleSize, dii.blockSize)
                                 && info.modules[id].moduleVersion == dii.modules[k].moduleVersion)
            && (forall id, i :: id in info.modules && 0 <= i < |info.modules[id].blocks| ==> info.modules[id].blocks[i].None?)
            && r.cachedComponents == st.cachedComponents
            && r.pidToComponent == st.pidToComponent && r.componentToPid == st.componentToPid
  {
    var table := ModuleTable(dii.modules, dii.blockSize);
    if dii.modules != [] {
      ModuleTableEntries(dii.modules, dii.blockSize);
      var t := table.value;
      forall id | id in t
        ensures t[id].downloadedBlockCount == 0 && t[id].moduleId == id
        ensures exists k :: 0 <= k < |dii.modules| && dii.modules[k].moduleId == id && dii.blockSize > 0
                            && |t[id].blocks| == CeilDiv(dii.modules[k].moduleSize, dii.blockSize)
                            && t[id].moduleVersion == dii.modules[k].moduleVersion
        ensures forall i :: 0 <= i < |t[id].blocks| ==> t[id].blocks[i].None?
      {
        var k := LastIndexOf(dii.modules, id);
        assert FreshModule(dii.modules[k], dii.blockSize) == Ok(t[id]);
      }
    }
  }

  /** The index of the last module listed with a given id. */
  function LastIndexOf(mods: seq<DiiModule>, id: nat): (k: nat)
    requires exists k :: 0 <= k < |mods| && mods[k].moduleId == id
    ensures k < |mods| && mods[k].moduleId == id && LastOfId(mods, k)
  {
    if mods[|mods| - 1].moduleId == id then |mods| - 1
    else
      var init := mods[..|mods| - 1];
      assert exists k :: 0 <= k < |init| && init[k].moduleId == id by {
        var k :| 0 <= k < |mods| && mods[k].moduleId == id;
        assert init[k] == mods[k];
      }
      var k := LastIndexOf(init, id);
      assert mods[k] == init[k];
      k
  }

  /** A DII that throws (a zero block size, or a module descriptor cut
      short) changes nothing. */
  lemma DiiThrowsChangesNothing(st: DecoderState, componentId: nat, dii: Dii)
    requires AfterDii(st, componentId, dii).outcome.Threw?
    ensures AfterDii(st, componentId, dii).state == st
    ensures dii.modules != [] && (dii.blockSize == 0 || AnyShort(dii.modules))
  {
  }

  /** The DDB handler for the component on the section's PID. */
  function AfterDdb(st: DecoderState, codec: Codec, componentId: nat, ddb: Ddb): Step
    requires StateValid(st)
  {
    if componentId !in st.downloadComponents then Step(st, Handled)
    else
      var dc := st.downloadComponents[componentId];
      if ddb.moduleId !in dc.modules || !Accepts(dc.modules[ddb.moduleId], ddb) then Step(st, Handled)
      else AfterAccepted(st, codec, componentId, ddb)
  }

  /** The DDB handler past its gate: the block is stored in its slot and,
      when that completes the module, the module is completed. */
  function AfterAccepted(st: DecoderState, codec: Codec, componentId: nat, ddb: Ddb): Step
    requires componentId in st.downloadComponents && ddb.moduleId in st.downloadComponents[componentId].modules
    requires var m := st.downloadComponents[componentId].modules[ddb.moduleId];
             Consistent(m) && Accepts(m, ddb)
  {
    var dc := st.downloadComponents[componentId];
    var m := dc.modules[ddb.moduleId];
    var m' := StoreBlock(m, ddb);
    StoreBlockKeepsCount(m, ddb);
    CompleteIffAllFilled(m');
    if !Complete(m') then
      Step(st.(downloadComponents := st.downloadComponents[componentId := dc.(modules := dc.modules[ddb.moduleId := m'])]), Handled)
    else
      var dc' := dc.(modules := dc.modules[ddb.moduleId := m'], downloadedModuleCount := dc.downloadedModuleCount + 1);
      AfterComplete(st.(downloadComponents := st.downloadComponents[componentId := dc']), codec, componentId, ddb, m')
  }

  /** What the DDB handler does once the block that completes module `m`
      is stored: concatenate and maybe inflate, skip a version already
      cached, otherwise read the files, send them when they could be read
      and replace the cache entry. */
  function AfterComplete(st: DecoderState, codec: Codec, componentId: nat, ddb: Ddb, m: ModuleInfo): Step
    requires forall i :: 0 <= i < |m.blocks| ==> m.blocks[i].Some?
  {
    match ModuleData(m, codec)
    case None => Step(st, Threw)
    case Some(data) => AfterModuleData(st, codec, componentId, ddb, m, data)
  }

  /** The completion once the module's bytes are known. */
  function AfterModuleData(st: DecoderState, codec: Codec, componentId: nat, ddb: Ddb, m: ModuleInfo, data: Bytes): Step {
    var cached := if componentId in st.cachedComponents then st.cachedComponents[componentId] else map[];
    if m.moduleId in cached && cached[m.moduleId].moduleInfo.moduleVersion == m.moduleVersion then
      Step(st, Handled)
    else
      var files := ModuleFiles(m, data, codec);
      var sent' :=
        if files.None? then st.sent
        else st.sent + [ModuleDownloaded(componentId, ddb.moduleId, files.value.ValueList(), ddb.moduleVersion, DataEventIdOf(ddb.downloadId))];
      Step(st.(cachedComponents := st.cachedComponents[componentId := cached[m.moduleId := CachedModule(m, files)]],
               sent := sent'), Handled)
  }

  /** The DDB gate: with no download state for the component, an unknown
      module, another version, a block number past the table or a slot
      already filled, nothing changes. */
  lemma DdbRejected(st: DecoderState, codec: Codec, componentId: nat, ddb: Ddb)
    requires StateValid(st)
    requires componentId !in st.downloadComponents
             || ddb.moduleId !in st.downloadComponents[componentId].modules
             || !Accepts(st.downloadComponents[componentId].modules[ddb.moduleId], ddb)
    ensures AfterDdb(st, codec, componentId, ddb) == Step(st, Handled)
  {
  }

  /** An accepted DDB fills exactly its slot and adds one to the block
      count; the count stays the number of filled slots and at most the
      number of slots, and the component's module count goes up by one
      exactly when the module completes. */
  lemma DdbFillsOneSlot(st: DecoderState, codec: Codec, componentId: nat, ddb: Ddb)
    requires StateValid(st)
    requires componentId in st.downloadComponents && ddb.moduleId in st.downloadComponents[componentId].modules
    requires Accepts(st.downloadComponents[componentId].modules[ddb.moduleId], ddb)
    ensures var m := st.downloadComponents[componentId].modules[ddb.moduleId];
            var dc' := AfterDdb(st, codec, componentId, ddb).state.downloadComponents[componentId];
            var m' := dc'.modules[ddb.moduleId];
            && m' == StoreBlock(m, ddb)
            && m'.blocks[ddb.blockNumber] == Some(ddb.blockData)
            && (forall i :: 0 <= i < |m.blocks| && i != ddb.blockNumber ==> m'.blocks[i] == m.blocks[i])
            && m'.downloadedBlockCount == m.downloadedBlockCount + 1 == FilledCount(m'.blocks) <= |m'.blocks|
            && dc'.modules == st.downloadComponents[componentId].modules[ddb.moduleId := m']
            && dc'.downloadedModuleCount ==
                 st.downloadComponents[componentId].downloadedModuleCount + (if Complete(m') then 1 else 0)
  {
    StoreBlockKeepsCount(st.downloadComponents[componentId].modules[ddb.moduleId], ddb);
    AcceptedDdb(st, codec, componentId, ddb);
  }

  /** The state after a run of DDB sections for one component, in arrival
      order. */
  function AfterDdbs(st: DecoderState, codec: Codec, componentId: nat, ddbs: seq<Ddb>): (r: DecoderState)
    requires StateValid(st)
    ensures StateValid(r)
    decreases |ddbs|
  {
    if ddbs == [] then st
    else
      var prev := AfterDdbs(st, codec, componentId, ddbs[..|ddbs| - 1]);
      DdbKeepsValid(prev, codec, componentId, ddbs[|ddbs| - 1]);
      AfterDdb(prev, codec, componentId, ddbs[|ddbs| - 1]).state
  }

  /** Through the decoder, a run of DDB sections for one module leaves that
      module as `Carousel.Deliver` says, so the slot, order and assembly
      results proved about `Deliver` hold of the decoder. */
  lemma {:induction false} DdbsDeliver(st: DecoderState, codec: Codec, componentId: nat, moduleId: nat, ddbs: seq<Ddb>)
    requires StateValid(st)
    requires componentId in st.downloadComponents && moduleId in st.downloadComponents[componentId].modules
    requires forall k :: 0 <= k < |ddbs| ==> ddbs[k].moduleId == moduleId
    ensures var r := AfterDdbs(st, codec, componentId, ddbs);
            && componentId in r.downloadComponents && moduleId in r.downloadComponents[componentId].modules
            && r.downloadComponents[componentId].modules[moduleId]
               == Deliver(st.downloadComponents[componentId].modules[moduleId], ddbs)
    decreases |ddbs|
  {
    if ddbs != [] {
      var init, ddb := ddbs[..|ddbs| - 1], ddbs[|ddbs| - 1];
      DdbsDeliver(st, codec, componentId, moduleId, init);
      var prev := AfterDdbs(st, codec, componentId, init);
      var m := prev.downloadComponents[componentId].modules[moduleId];
      assert m == Deliver(st.downloadComponents[componentId].modules[moduleId], init);
      assert ddb.moduleId == moduleId;
      assert Deliver(st.downloadComponents[componentId].modules[moduleId], ddbs) == DdbStep(m, ddb);
      assert AfterDdbs(st, codec, componentId, ddbs) == AfterDdb(prev, codec, componentId, ddb).state;
      if Accepts(m, ddb) {
        DdbFillsOneSlot(prev, codec, componentId, ddb);
      } else {
        DdbRejected(prev, codec, componentId, ddb);
      }
    }
  }

  /** A module that completes with the version already cached for it sends
      nothing and leaves the cache as it was. */
  lemma CachedVersionNotResent(st: DecoderState, codec: Codec, componentId: nat, ddb: Ddb)
    requires StateValid(st)
    requires componentId in st.downloadComponents && ddb.moduleId in st.downloadComponents[componentId].modules
    requires Accepts(st.downloadComponents[componentId].modules[ddb.moduleId], ddb)
    requires componentId in st.cachedComponents && ddb.moduleId in st.cachedComponents[componentId]
    requires st.cachedComponents[componentId][ddb.moduleId].moduleInfo.moduleVersion == ddb.moduleVersion
    ensures AfterDdb(st, codec, componentId, ddb).state.sent == st.sent
    ensures AfterDdb(st, codec, componentId, ddb).state.cachedComponents == st.cachedComponents
  {
  }

  /** A completed module whose version is not cached replaces the cache
      entry, whether or not its files could be read; the files are sent
      in one `moduleDownloaded` message exactly when they could. Its bytes
      are the blocks in ascending slot order, inflated only for
      compression type 0. */
  lemma NewVersionCached(st: DecoderState, codec: Codec, componentId: nat, ddb: Ddb)
    requires StateValid(st)
    requires componentId in st.downloadComponents && ddb.moduleId in st.downloadComponents[componentId].modules
    requires Accepts(st.downloadComponents[componentId].modules[ddb.moduleId], ddb)
    requires Complete(StoreBlock(st.downloadComponents[componentId].modules[ddb.moduleId], ddb))
    requires !(componentId in st.cachedComponents && ddb.moduleId in st.cachedComponents[componentId]
               && st.cachedComponents[componentId][ddb.moduleId].moduleInfo.moduleVersion == ddb.moduleVersion)
    requires AfterDdb(st, codec, componentId, ddb).outcome == Handled
    ensures var m' := StoreBlock(st.downloadComponents[componentId].modules[ddb.moduleId], ddb);
            var r := AfterDdb(st, codec, componentId, ddb).state;
            && (forall i :: 0 <= i < |m'.blocks| ==> m'.blocks[i].Some?)
            && ModuleData(m', codec).Some?
            && var files := ModuleFiles(m', ModuleData(m', codec).value, codec);
            && componentId in r.cachedComponents && ddb.moduleId in r.cachedComponents[componentId]
            && r.cachedComponents[componentId][ddb.moduleId] == CachedModule(m', files)
            && (forall c :: c in st.cachedComponents && c != componentId ==> c in r.cachedComponents && r.cachedComponents[c] == st.cachedComponents[c])
            && (files.Some? ==>
                  r.sent == st.sent + [ModuleDownloaded(componentId, ddb.moduleId, files.value.ValueList(), ddb.moduleVersion, DataEventIdOf(ddb.downloadId))])
            && (files.None? ==> r.sent == st.sent)
  {
    var m := st.downloadComponents[componentId].modules[ddb.moduleId];
    StoreBlockKeepsCount(m, ddb);
    CompleteIffAllFilled(StoreBlock(m, ddb));
  }

  /** A completed module of compression type 0 whose bytes do not inflate
      makes the handler throw after its block and counts were stored. */
  lemma InflateFailureThrows(st: DecoderState, codec: Codec, componentId: nat, ddb: Ddb)
    requires StateValid(st)
    requires componentId in st.downloadComponents && ddb.moduleId in st.downloadComponents[componentId].modules
    requires Accepts(st.downloadComponents[componentId].modules[ddb.moduleId], ddb)
    requires var m' := StoreBlock(st.downloadComponents[componentId].modules[ddb.moduleId], ddb);
             Complete(m') && m'.compressionType == CompressionZlib
             && (forall i :: 0 <= i < |m'.blocks| ==> m'.blocks[i].Some?)
             && codec.inflate(ModuleBytes(m')).None?
    ensures AfterDdb(st, codec, componentId, ddb).outcome == Threw
    ensures AfterDdb(st, codec, componentId, ddb).state.sent == st.sent
    ensures AfterDdb(st, codec, componentId, ddb).state.cachedComponents == st.cachedComponents
  {
    var m := st.downloadComponents[componentId].modules[ddb.moduleId];
    StoreBlockKeepsCount(m, ddb);
  }

  /** The stream-descriptor handler always sends one `esEventUpdated` with
      the section's events and `table_id_extension >> 12` as data event id. */
  function AfterStreamEvent(st: DecoderState, componentId: nat, tableIdExtension: nat, streamDescriptor: Bytes): Step
  {
    Step(st.(sent := st.sent + [EsEventUpdated(componentId, SectionEvents(streamDescriptor), tableIdExtension / 4096)]), Handled)
  }

  /** A DSM-CC section is handled for the component on its PID; a section
      on a PID that carries no component is dropped. */
  function AfterDsmcc(st: DecoderState, codec: Codec, pid: nat, section: DsmccSection): Step
    requires StateValid(st)
  {
    if pid !in st.pidToComponent then Step(st, Handled)
    else
      var componentId := st.pidToComponent[pid].componentId;
      match section
      case DiiSection(dii) => AfterDii(st, componentId, dii)
      case DdbSection(ddb) => AfterDdb(st, codec, componentId, ddb)
      case StreamDescriptorSection(ext, bytes) => AfterStreamEvent(st, componentId, ext, bytes)
      case OtherSection(_) => Step(st, Handled)
  }

  // -------------------------------------------------------- invariants

  lemma DiiKeepsValid(st: DecoderState, componentId: nat, dii: Dii)
    requires StateValid(st)
    ensures StateValid(AfterDii(st, componentId, dii).state)
  {
    var r := AfterDii(st, componentId, dii);
    if r.state != st {
      var table := ModuleTable(dii.modules, dii.blockSize).value;
      if dii.modules != [] {
        ModuleTableEntries(dii.modules, dii.blockSize);
        forall id | id in table ensures Consistent(table[id]) && table[id].moduleId == id {
          var k := LastIndexOf(dii.modules, id);
          assert FreshModule(dii.modules[k], dii.blockSize) == Ok(table[id]);
          var m := table[id];
          assert FilledCount(m.blocks) == 0 by {
            FilledCountNone(m.blocks);
          }
        }
      }
    }
  }

  lemma {:induction false} FilledCountNone(blocks: seq<Option<Bytes>>)
    requires forall i :: 0 <= i < |blocks| ==> blocks[i].None?
    ensures FilledCount(blocks) == 0
  {
    if blocks != [] {
      FilledCountNone(blocks[..|blocks| - 1]);
    }
  }

  lemma DdbKeepsValid(st: DecoderState, codec: Codec, componentId: nat, ddb: Ddb)
    requires StateValid(st)
    ensures StateValid(AfterDdb(st, codec, componentId, ddb).state)
  {
    var r := AfterDdb(st, codec, componentId, ddb).state;
    if componentId in st.downloadComponents && ddb.moduleId in st.downloadComponents[componentId].modules
       && Accepts(st.downloadComponents[componentId].modules[ddb.moduleId], ddb) {
      var m := st.downloadComponents[componentId].modules[ddb.moduleId];
      StoreBlockKeepsCount(m, ddb);
      DdbFillsOneSlot(st, codec, componentId, ddb);
      DdbFrame(st, codec, componentId, ddb);
      forall c, id | c in r.downloadComponents && id in r.downloadComponents[c].modules
        ensures Consistent(r.downloadComponents[c].modules[id]) && r.downloadComponents[c].modules[id].moduleId == id
      {
        if c != componentId {
          assert r.downloadComponents[c] == st.downloadComponents[c];
        }
      }
    } else {
      DdbRejected(st, codec, componentId, ddb);
    }
  }

  /** A DDB changes the download state of its own component only, and
      never the component maps. */
  lemma DdbFrame(st: DecoderState, codec: Codec, componentId: nat, ddb: Ddb)
    requires StateValid(st)
    ensures var r := AfterDdb(st, codec, componentId, ddb).state;
            && r.componentToPid == st.componentToPid && r.pidToComponent == st.pidToComponent
            && r.downloadComponents.Keys == st.downloadComponents.Keys
            && forall c :: c in st.downloadComponents && c != componentId ==> r.downloadComponents[c] == st.downloadComponents[c]
  {
    if componentId in st.downloadComponents && ddb.moduleId in st.downloadComponents[componentId].modules
       && Accepts(st.downloadComponents[componentId].modules[ddb.moduleId], ddb) {
      AcceptedDdb(st, codec, componentId, ddb);
    }
  }

  /** The state an accepted DDB leaves: its component's entry replaced,
      whatever the completion does to the cache and the messages. */
  lemma AcceptedDdb(st: DecoderState, codec: Codec, componentId: nat, ddb: Ddb)
    requires StateValid(st)
    requires componentId in st.downloadComponents && ddb.moduleId in st.downloadComponents[componentId].modules
    requires Accepts(st.downloadComponents[componentId].modules[ddb.moduleId], ddb)
    ensures var dc := st.downloadComponents[componentId];
            var m' := StoreBlock(dc.modules[ddb.moduleId], ddb);
            var r := AfterDdb(st, codec, componentId, ddb).state;
            && r.componentToPid == st.componentToPid && r.pidToComponent == st.pidToComponent
            && r.downloadComponents == st.downloadComponents[componentId :=
                 dc.(modules := dc.modules[ddb.moduleId := m'],
                     downloadedModuleCount := dc.downloadedModuleCount + if Complete(m') then 1 else 0)]
  {
    var m := st.downloadComponents[componentId].modules[ddb.moduleId];
    StoreBlockKeepsCount(m, ddb);
    if Complete(StoreBlock(m, ddb)) {
      CompletingDdb(st, codec, componentId, ddb);
    }
  }

  lemma CompletingDdb(st: DecoderState, codec: Codec, componentId: nat, ddb: Ddb)
    requires StateValid(st)
    requires componentId in st.downloadComponents && ddb.moduleId in st.downloadComponents[componentId].modules
    requires Accepts(st.downloadComponents[componentId].modules[ddb.moduleId], ddb)
    requires Complete(StoreBlock(st.downloadComponents[componentId].modules[ddb.moduleId], ddb))
    ensures var dc := st.downloadComponents[componentId];
            var m' := StoreBlock(dc.modules[ddb.moduleId], ddb);
            var dc' := dc.(modules := dc.modules[ddb.moduleId := m'], downloadedModuleCount := dc.downloadedModuleCount + 1);
            var r := AfterDdb(st, codec, componentId, ddb).state;
            && r.componentToPid == st.componentToPid && r.pidToComponent == st.pidToComponent
            && r.downloadComponents == st.downloadComponents[componentId := dc']
  {
    var dc := st.downloadComponents[componentId];
    var m := dc.modules[ddb.moduleId];
    var m' := StoreBlock(m, ddb);
    StoreBlockKeepsCount(m, ddb);
    CompleteIffAllFilled(m');
    var dc' := dc.(modules := dc.modules[ddb.moduleId := m'], downloadedModuleCount := dc.downloadedModuleCount + 1);
    var st' := st.(downloadComponents := st.downloadComponents[componentId := dc']);
    assert AfterDdb(st, codec, componentId, ddb) == AfterAccepted(st, codec, componentId, ddb);
    assert AfterAccepted(st, codec, componentId, ddb) == AfterComplete(st', codec, componentId, ddb, m');
    AfterCompleteFrame(st', codec, componentId, ddb, m');
  }

  lemma AfterCompleteFrame(st: DecoderState, codec: Codec, componentId: nat, ddb: Ddb, m: ModuleInfo)
    requires forall i :: 0 <= i < |m.blocks| ==> m.blocks[i].Some?
    ensures var r := AfterComplete(st, codec, componentId, ddb, m).state;
            && r.componentToPid == st.componentToPid && r.pidToComponent == st.pidToComponent
            && r.downloadComponents == st.downloadComponents
  {
  }

  lemma PmtKeepsValid(st: DecoderState, serviceId: Option<nat>, parsePES: bool, pid: nat, streams: seq<PmtStream>)
    requires StateValid(st)
    ensures StateValid(AfterPmt(st, serviceId, parsePES, pid, streams))
  {
  }

  lemma DsmccKeepsValid(st: DecoderState, codec: Codec, pid: nat, section: DsmccSection)
    requires StateValid(st)
    ensures StateValid(AfterDsmcc(st, codec, pid, section).state)
  {
    if pid in st.pidToComponent {
      var componentId := st.pidToComponent[pid].componentId;
      match section
      case DiiSection(dii) => DiiKeepsValid(st, componentId, dii);
      case DdbSection(ddb) => DdbKeepsValid(st, codec, componentId, ddb);
      case StreamDescriptorSection(_, _) =>
      case OtherSection(_) =>
    }
  }

  // ------------------------------------------------------------ the class

  /** The closure state of `decodeTS`: the component and program maps, the
      private PES PIDs and buffers, the carousel download state and the
      module cache. `serviceId` and `parsePES` are its parameters. */
  class TsDecoder {
    const serviceId: Option<nat>
    const parsePES: bool
    const codec: Codec
    var pidToComponent: map<nat, ComponentPMT>
    var componentToPid: JsMap<nat, ComponentPMT>
    var pidToProgramNumber: map<nat, nat>
    var programNumber: Option<nat>
    var privatePes: set<nat>
    var pesBuffers: map<nat, PesBuffer>
    var downloadComponents: map<nat, DownloadComponentInfo>
    var cachedComponents: map<nat, map<nat, CachedModule>>
    var sent: seq<Message>

    ghost function State(): DecoderState
      reads this
    {
      DecoderState(pidToComponent, componentToPid, pidToProgramNumber, programNumber, privatePes,
                   pesBuffers, downloadComponents, cachedComponents, sent)
    }

    ghost predicate Valid()
      reads this
    {
      StateValid(State())
    }

    constructor (serviceId: Option<nat>, parsePES: bool, codec: Codec)
      ensures this.serviceId == serviceId && this.parsePES == parsePES
      ensures State() == InitialState() && Valid()
    {
      this.serviceId := serviceId;
      this.parsePES := parsePES;
      this.codec := codec;
      pidToComponent := map[];
      componentToPid := EmptyJsMap();
      pidToProgramNumber := map[];
      programNumber := None;
      privatePes := {};
      pesBuffers := map[];
      downloadComponents := map[];
      cachedComponents := map[];
      sent := [];
    }

    /** The `pat` handler. */
    method OnPat(programs: seq<Program>)
      requires Valid()
      modifies this
      ensures Valid()
      ensures State() == AfterPat(old(State()), programs)
    {
      var pat, number := DecodePat(programs);
      programNumber := number;
      pidToProgramNumber := pat;
    }

    /** The `pmt` handler. */
    method OnPmt(pid: nat, streams: seq<PmtStream>)
      requires Valid()
      modifies this
      ensures Valid()
      ensures State() == AfterPmt(old(State()), serviceId, parsePES, pid, streams)
    {
      ghost var st := State();
      if |pidToProgramNumber| >= 2 {
        var wanted := if serviceId.Some? then serviceId else programNumber;
        if pid !in pidToProgramNumber || Some(pidToProgramNumber[pid]) != wanted {
          assert AfterPmt(st, serviceId, parsePES, pid, streams) == st;
          return;
        }
      }
      ApplyPmt(pid, streams);
    }

    /** The `pmt` handler past its program check. */
    method ApplyPmt(pid: nat, streams: seq<PmtStream>)
      requires Valid()
      requires PmtSelected(pidToProgramNumber, pid, serviceId, programNumber)
      modifies this
      ensures Valid()
      ensures State() == AfterPmt(old(State()), serviceId, parsePES, pid, streams)
    {
      var t := DecodePmt(streams, parsePES);
      privatePes := t.privatePes;
      pidToComponent := t.pidToComponent;
      if ComponentsChanged(componentToPid, t.componentToPid) {
        componentToPid := t.componentToPid;
        sent := sent + [PmtMessage(componentToPid.ValueList())];
      }
    }

    /** The `packet` handler for private PES PIDs. */
    method OnPacket(p: TsPacket) returns (outcome: Outcome)
      requires Valid()
      modifies this
      ensures Valid()
      ensures Step(State(), outcome) == AfterPacket(old(State()), p)
    {
      if p.pid !in privatePes {
        return Handled;
      }
      var buffer := if p.pid in pesBuffers then pesBuffers[p.pid] else PesBuffer([], 0);
      if p.payloadUnitStart {
        buffer := PesBuffer(p.dataByte, buffer.entireLength);
        if |p.dataByte| >= 6 {
          buffer := buffer.(entireLength := U16(p.dataByte, 4) + 6);
        } else {
          buffer := buffer.(entireLength := 0x7fff_ffff);
        }
      } else {
        buffer := buffer.(data := buffer.data + p.dataByte);
      }
      if buffer.entireLength == |buffer.data| {
        var pes := buffer.data;
        pesBuffers := pesBuffers[p.pid := PesBuffer([], buffer.entireLength)];
        var msg := DecodePES(pes);
        match msg {
          case Null => return Handled;
          case Throws => return Threw;
          case Value(m) =>
            sent := sent + [PesMessageSent(m)];
            return Handled;
        }
      }
      pesBuffers := pesBuffers[p.pid := buffer];
      outcome := Handled;
    }

    /** The `dsmcc` handler: dispatch on the table id for the component on
      the section's PID. */
    method OnDsmcc(pid: nat, section: DsmccSection) returns (outcome: Outcome)
      requires Valid()
      modifies this
      ensures Valid()
      ensures Step(State(), outcome) == AfterDsmcc(old(State()), codec, pid, section)
    {
      if pid !in pidToComponent {
        return Handled;
      }
      var componentId := pidToComponent[pid].componentId;
      match section {
        case DiiSection(dii) => outcome := OnDii(componentId, dii);
        case DdbSection(ddb) => outcome := OnDdb(componentId, ddb);
        case StreamDescriptorSection(ext, bytes) => outcome := OnStreamEvent(componentId, ext, bytes);
        case OtherSection(_) => outcome := Handled;
      }
    }

    /** A DownloadInfoIndication (table id 0x3B). */
    method OnDii(componentId: nat, dii: Dii) returns (outcome: Outcome)
      requires Valid()
      modifies this
      ensures Valid()
      ensures Step(State(), outcome) == AfterDii(old(State()), componentId, dii)
    {
      DiiKeepsValid(State(), componentId, dii);
      var dataEventId := DataEventIdOf(dii.downloadId);
      if componentId in downloadComponents && downloadComponents[componentId].transactionId == dii.transactionId {
        return Handled;
      }
      var modules := BuildModuleTable(dii.modules, dii.blockSize);
      if modules.Thrown? {
        return Threw;
      }
      var componentInfo := DownloadComponentInfo(componentId, dii.transactionId, 0, modules.value, dataEventId);
      var returnToEntryFlag := ScanPrivateData(dii.privateData);
      sent := sent + [ModuleListUpdated(componentId, ModuleIds(dii.modules), dataEventId, returnToEntryFlag)];
      downloadComponents := downloadComponents[componentId := componentInfo];
      outcome := Handled;
    }

    /** A DownloadDataBlock (table id 0x3C). */
    method OnDdb(componentId: nat, ddb: Ddb) returns (outcome: Outcome)
      requires Valid()
      modifies this
      ensures Valid()
      ensures Step(State(), outcome) == AfterDdb(old(State()), codec, componentId, ddb)
    {
      DdbKeepsValid(State(), codec, componentId, ddb);
      if componentId !in downloadComponents {
        return Handled;
      }
      var componentInfo := downloadComponents[componentId];
      if ddb.moduleId !in componentInfo.modules {
        return Handled;
      }
      var moduleInfo := componentInfo.modules[ddb.moduleId];
      if moduleInfo.moduleVersion != ddb.moduleVersion || |moduleInfo.blocks| <= ddb.blockNumber
         || moduleInfo.blocks[ddb.blockNumber].Some? {
        return Handled;
      }
      outcome := StoreAcceptedBlock(componentId, ddb);
    }

    /** The DDB handler past its gate: store the block, and complete the
        module when it was the last one missing. */
    method StoreAcceptedBlock(componentId: nat, ddb: Ddb) returns (outcome: Outcome)
      requires componentId in downloadComponents && ddb.moduleId in downloadComponents[componentId].modules
      requires var m := downloadComponents[componentId].modules[ddb.moduleId];
               Consistent(m) && Accepts(m, ddb)
      modifies this
      ensures Step(State(), outcome) == AfterAccepted(old(State()), codec, componentId, ddb)
    {
      var componentInfo := downloadComponents[componentId];
      var moduleInfo := componentInfo.modules[ddb.moduleId];
      ghost var before := moduleInfo;
      StoreBlockKeepsCount(before, ddb);
      moduleInfo := moduleInfo.(blocks := moduleInfo.blocks[ddb.blockNumber := Some(ddb.blockData)]);
      moduleInfo := moduleInfo.(downloadedBlockCount := moduleInfo.downloadedBlockCount + 1);
      assert moduleInfo == StoreBlock(before, ddb);
      componentInfo := componentInfo.(modules := componentInfo.modules[ddb.moduleId := moduleInfo]);
      if moduleInfo.downloadedBlockCount < |moduleInfo.blocks| {
        downloadComponents := downloadComponents[componentId := componentInfo];
        assert State() == AfterAccepted(old(State()), codec, componentId, ddb).state;
        return Handled;
      }
      componentInfo := componentInfo.(downloadedModuleCount := componentInfo.downloadedModuleCount + 1);
      downloadComponents := downloadComponents[componentId := componentInfo];
      CompleteIffAllFilled(moduleInfo);
      outcome := CompleteModule(componentId, ddb, moduleInfo);
    }

    /** The completion part of the DDB handler. */
    method CompleteModule(componentId: nat, ddb: Ddb, moduleInfo: ModuleInfo) returns (outcome: Outcome)
      requires forall i :: 0 <= i < |moduleInfo.blocks| ==> moduleInfo.blocks[i].Some?
      modifies this
      ensures Step(State(), outcome) == AfterComplete(old(State()), codec, componentId, ddb, moduleInfo)
    {
      var moduleData := Concat(seq(|moduleInfo.blocks|, i requires 0 <= i < |moduleInfo.blocks| => moduleInfo.blocks[i].value));
      if moduleInfo.compressionType == CompressionZlib {
        var inflated := codec.inflate(moduleData);
        if inflated.None? {
          return Threw;
        }
        moduleData := inflated.value;
      }
      assert Some(moduleData) == ModuleData(moduleInfo, codec);
      outcome := CacheModule(componentId, ddb, moduleInfo, moduleData);
    }

    /** The completion part of the DDB handler once the module's bytes are
        known: skip a cached version, else read, send and cache the files. */
    method CacheModule(componentId: nat, ddb: Ddb, moduleInfo: ModuleInfo, moduleData: Bytes) returns (outcome: Outcome)
      modifies this
      ensures Step(State(), outcome) == AfterModuleData(old(State()), codec, componentId, ddb, moduleInfo, moduleData)
    {
      var cachedComponent := if componentId in cachedComponents then cachedComponents[componentId] else map[];
      if moduleInfo.moduleId in cachedComponent
         && cachedComponent[moduleInfo.moduleId].moduleInfo.moduleVersion == moduleInfo.moduleVersion {
        return Handled;
      }
      var mediaType := if moduleInfo.contentType.None? then None else codec.parseMediaTypeFromString(moduleInfo.contentType.value);
      var files: Option<FileMap>;
      if mediaType.None? || (mediaType.value.typeName == "multipart" && mediaType.value.subtype == "mixed") {
        var entities := codec.readEntity(moduleData);
        if entities.None? {
          files := None;
        } else {
          var collected := CollectFiles(entities.value, codec);
          files := Some(collected);
          sent := sent + [ModuleDownloaded(componentId, ddb.moduleId, collected.ValueList(), ddb.moduleVersion, DataEventIdOf(ddb.downloadId))];
        }
      } else {
        var single: FileMap := JsMap([None], map[None := CachedFile(mediaType.value, None, moduleData)]);
        assert single.values.Keys == set k | k in single.keys;
        files := Some(single);
        sent := sent + [ModuleDownloaded(componentId, ddb.moduleId, single.ValueList(), ddb.moduleVersion, DataEventIdOf(ddb.downloadId))];
      }
      assert files == ModuleFiles(moduleInfo, moduleData, codec);
      cachedComponent := cachedComponent[moduleInfo.moduleId := CachedModule(moduleInfo, files)];
      cachedComponents := cachedComponents[componentId := cachedComponent];
      outcome := Handled;
    }

    /** A stream descriptor section (table id 0x3D). */
    method OnStreamEvent(componentId: nat, tableIdExtension: nat, streamDescriptor: Bytes) returns (outcome: Outcome)
      requires Valid()
      modifies this
      ensures Valid()
      ensures Step(State(), outcome) == AfterStreamEvent(old(State()), componentId, tableIdExtension, streamDescriptor)
    {
      var events := DecodeStreamDescriptors(streamDescriptor);
      sent := sent + [EsEventUpdated(componentId, events, tableIdExtension / 4096)];
      outcome := Handled;
    }
  }
}
