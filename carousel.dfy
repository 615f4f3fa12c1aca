/** The DSM-CC data carousel as the decoder keeps it (ISO/IEC 13818-6
    section 7.3, module descriptors of ARIB STD-B24 volume 3 part 3 section
    6.2.3): the module table a DownloadInfoIndication (DII) announces, the
    block slots DownloadDataBlock (DDB) sections fill, the reassembly of a
    completed module and the files a module yields. */
module Carousel {
  import opened Common

  /** `CompressionType.None`, the value a module starts with. */
  const CompressionNone: int := -1
  /** `CompressionType.Zlib`, the only value that is inflated. */
  const CompressionZlib: int := 0

  datatype ModuleInfo = ModuleInfo(
    compressionType: int,
    originalSize: Option<nat>,
    moduleId: nat,
    moduleVersion: nat,
    moduleSize: nat,
    contentType: Option<string>,
    blocks: seq<Option<Bytes>>,
    downloadedBlockCount: nat)

  datatype DownloadComponentInfo = DownloadComponentInfo(
    componentId: nat,
    transactionId: nat,
    downloadedModuleCount: nat,
    modules: map<nat, ModuleInfo>,
    dataEventId: nat)

  /** A descriptor of a module's `moduleInfo` loop; for the type descriptor
      (tag 0x01) `body` is its `text_char`. */
  datatype ModuleDescriptor = ModuleDescriptor(tag: Byte, body: Bytes)

  datatype DiiModule = DiiModule(moduleId: nat, moduleVersion: nat, moduleSize: nat, moduleInfo: seq<ModuleDescriptor>)

  datatype PrivateData = PrivateData(tag: Byte, body: Bytes)

  /** The fields of a DII section the decoder reads. */
  datatype Dii = Dii(transactionId: nat, downloadId: nat, blockSize: nat, modules: seq<DiiModule>, privateData: seq<PrivateData>)

  /** The fields of a DDB section the decoder reads. */
  datatype Ddb = Ddb(downloadId: nat, moduleId: nat, moduleVersion: nat, blockNumber: nat, blockData: Bytes)

  /** `(downloadId >> 28) & 15`: bits 28 to 31 of the 32-bit download id. */
  function DataEventIdOf(downloadId: nat): (id: nat)
    ensures id < 16
    ensures downloadId < 0x1_0000_0000 ==> id * 0x1000_0000 <= downloadId < (id + 1) * 0x1000_0000
  {
    (downloadId / 0x1000_0000) % 16
  }

  /** `Math.ceil(a / b)` for a positive divisor. */
  function CeilDiv(a: nat, b: nat): (r: nat)
    requires b > 0
    ensures r * b >= a && (r == 0 || (r - 1) * b < a)
  {
    var q := a / b;
    assert a == q * b + a % b;
    if a % b == 0 then q else
      assert (q + 1) * b == q * b + b;
      q + 1
  }

  /** `buf.toString("ascii")`: Node clears the high bit of every byte. */
  function AsciiText(b: Bytes): (s: string)
    ensures |s| == |b|
  {
    seq(|b|, i requires 0 <= i < |b| => (b[i] % 128) as char)
  }

  /** Each character is its byte with the high bit cleared, so ASCII bytes
      are kept as they are. */
  lemma AsciiTextChars(b: Bytes)
    ensures forall i :: 0 <= i < |b| ==> AsciiText(b)[i] as int == b[i] % 128
    ensures forall i :: 0 <= i < |b| && b[i] < 128 ==> AsciiText(b)[i] as int == b[i]
  {
  }

  /** `readInt8`: a byte as a two's complement number. */
  function Int8(b: Byte): (v: int)
    ensures -128 <= v < 128 && (v - b) % 256 == 0
  {
    if b < 128 then b else b - 256
  }

  /** A descriptor whose read runs past its body, so Node throws: the
      download-time descriptor reads 4 bytes, the compression-type
      descriptor 5. */
  predicate ShortDescriptor(d: ModuleDescriptor) {
    (d.tag == 0x07 && |d.body| < 4) || (d.tag == 0xC2 && |d.body| < 5)
  }

  /** One descriptor of the `moduleInfo` loop applied to the module record. */
  function ApplyModuleDescriptor(m: ModuleInfo, d: ModuleDescriptor): Result<ModuleInfo> {
    if ShortDescriptor(d) then Thrown
    else if d.tag == 0x01 then Ok(m.(contentType := Some(AsciiText(d.body))))
    else if d.tag == 0xC2 then Ok(m.(originalSize := Some(U32(d.body, 1)), compressionType := Int8(d.body[0])))
    else Ok(m)
  }

  /** The last descriptor with the given tag, if any. */
  function LastWithTag(ds: seq<ModuleDescriptor>, tag: Byte): (r: Option<ModuleDescriptor>)
    ensures r.Some? ==> r.value in ds && r.value.tag == tag
    ensures r.Some? ==> exists k :: 0 <= k < |ds| && ds[k] == r.value && forall j :: k < j < |ds| ==> ds[j].tag != tag
    ensures r.None? <==> forall k :: 0 <= k < |ds| ==> ds[k].tag != tag
  {
    if ds == [] then None
    else if ds[|ds| - 1].tag == tag then Some(ds[|ds| - 1])
    else
      var init := ds[..|ds| - 1];
      var r := LastWithTag(init, tag);
      assert r.Some? ==> r.value in ds && exists k :: 0 <= k < |ds| && ds[k] == r.value && forall j :: k < j < |ds| ==> ds[j].tag != tag by {
        if r.Some? {
          var k :| 0 <= k < |init| && init[k] == r.value && forall j :: k < j < |init| ==> init[j].tag != tag;
          assert ds[k] == r.value;
          assert forall j :: k < j < |ds| ==> ds[j].tag != tag by {
            forall j | k < j < |ds| ensures ds[j].tag != tag {
              if j < |init| {
                assert ds[j] == init[j];
              }
            }
          }
        }
      }
      r
  }

  /** The descriptors of one module applied in order. Only the content
      type, the compression type and the original size can change; the last
      type descriptor and the last compression-type descriptor win; and the
      loop throws exactly when some descriptor is short. */
  function WithDescriptors(m: ModuleInfo, ds: seq<ModuleDescriptor>): (r: Result<ModuleInfo>)
    ensures r.Thrown? <==> exists k :: 0 <= k < |ds| && ShortDescriptor(ds[k])
    ensures r.Ok? ==>
              && r.value.moduleId == m.moduleId && r.value.moduleVersion == m.moduleVersion
              && r.value.moduleSize == m.moduleSize && r.value.blocks == m.blocks
              && r.value.downloadedBlockCount == m.downloadedBlockCount
    ensures r.Ok? ==>
              r.value.contentType ==
                (match LastWithTag(ds, 0x01)
                 case None => m.contentType
                 case Some(d) => Some(AsciiText(d.body)))
    ensures r.Ok? ==>
              match LastWithTag(ds, 0xC2)
              case None => r.value.compressionType == m.compressionType && r.value.originalSize == m.originalSize
              case Some(d) => |d.body| >= 5 && r.value.compressionType == Int8(d.body[0])
                              && r.value.originalSize == Some(U32(d.body, 1))
  {
    if ds == [] then Ok(m)
    else
      var init := ds[..|ds| - 1];
      var last := ds[|ds| - 1];
      assert forall k :: 0 <= k < |init| ==> init[k] == ds[k];
      match WithDescriptors(m, init)
      case Thrown => Thrown
      case Ok(m') =>
        assert !exists k :: 0 <= k < |init| && ShortDescriptor(init[k]);
        ApplyModuleDescriptor(m', last)
  }

  /** The loop over one module's descriptors. */
  method ApplyModuleDescriptors(m: ModuleInfo, ds: seq<ModuleDescriptor>) returns (r: Result<ModuleInfo>)
    ensures r == WithDescriptors(m, ds)
  {
    var cur := m;
    var i := 0;
    while i < |ds|
      invariant 0 <= i <= |ds|
      invariant WithDescriptors(m, ds[..i]) == Ok(cur)
    {
      var d := ds[i];
      assert ds[..i + 1][..i] == ds[..i];
      if d.tag == 0x01 {
        cur := cur.(contentType := Some(AsciiText(d.body)));
      } else if d.tag == 0x07 {
        if |d.body| < 4 {
          return Thrown;
        }
      } else if d.tag == 0xC2 {
        if |d.body| < 5 {
          return Thrown;
        }
        var compressionType := Int8(d.body[0]);
        var originalSize := U32(d.body, 1);
        cur := cur.(originalSize := Some(originalSize), compressionType := compressionType);
      }
      i := i + 1;
    }
    assert ds[..i] == ds;
    r := Ok(cur);
  }

  /** The record a DII module starts as: `ceil(moduleSize / blockSize)`
      empty slots, no downloaded block, uncompressed, no content type. */
  function EmptyModule(mod: DiiModule, blockSize: nat): ModuleInfo
    requires blockSize > 0
  {
    ModuleInfo(CompressionNone, None, mod.moduleId, mod.moduleVersion, mod.moduleSize, None,
               seq(CeilDiv(mod.moduleSize, blockSize), _ => None), 0)
  }

  /** A DII module's record once its descriptors are applied. */
  function FreshModule(mod: DiiModule, blockSize: nat): (r: Result<ModuleInfo>)
    requires blockSize > 0
    ensures r.Thrown? <==> ShortModule(mod)
    ensures r.Ok? ==>
              && r.value.moduleId == mod.moduleId && r.value.moduleVersion == mod.moduleVersion
              && r.value.moduleSize == mod.moduleSize
              && |r.value.blocks| == CeilDiv(mod.moduleSize, blockSize)
              && (forall i :: 0 <= i < |r.value.blocks| ==> r.value.blocks[i].None?)
              && r.value.downloadedBlockCount == 0
  {
    WithDescriptors(EmptyModule(mod, blockSize), mod.moduleInfo)
  }

  /** Some descriptor of some module is short. */
  predicate AnyShort(mods: seq<DiiModule>) {
    exists k, j :: 0 <= k < |mods| && 0 <= j < |mods[k].moduleInfo| && ShortDescriptor(mods[k].moduleInfo[j])
  }

  /** No later module of the list has the same id as module `k`. */
  predicate LastOfId(mods: seq<DiiModule>, k: int)
    requires 0 <= k < |mods|
  {
    forall k' :: k < k' < |mods| ==> mods[k'].moduleId != mods[k].moduleId
  }

  /** The module table of a DII, keyed by module id; a repeated id keeps the
      later module. `new Array(Math.ceil(moduleSize / 0))` is a RangeError,
      so a zero block size throws as soon as there is a module. */
  function ModuleTable(mods: seq<DiiModule>, blockSize: nat): (r: Result<map<nat, ModuleInfo>>)
    ensures r.Thrown? <==> mods != [] && (blockSize == 0 || AnyShort(mods))
  {
    if mods == [] then Ok(map[])
    else if blockSize == 0 then Thrown
    else
      var init := mods[..|mods| - 1];
      var last := mods[|mods| - 1];
      var t := ModuleTable(init, blockSize);
      var m := FreshModule(last, blockSize);
      AnyShortSnoc(mods);
      if t.Thrown? || m.Thrown? then Thrown else Ok(t.value[last.moduleId := m.value])
  }

  /** A module with a descriptor cut short. */
  predicate ShortModule(mod: DiiModule) {
    exists j :: 0 <= j < |mod.moduleInfo| && ShortDescriptor(mod.moduleInfo[j])
  }

  lemma AnyShortSnoc(mods: seq<DiiModule>)
    requires mods != []
    ensures AnyShort(mods) <==> AnyShort(mods[..|mods| - 1]) || ShortModule(mods[|mods| - 1])
  {
    var init, last := mods[..|mods| - 1], mods[|mods| - 1];
    if AnyShort(mods) {
      var k, j :| 0 <= k < |mods| && 0 <= j < |mods[k].moduleInfo| && ShortDescriptor(mods[k].moduleInfo[j]);
      if k < |init| {
        assert ShortDescriptor(init[k].moduleInfo[j]);
      }
    }
    if AnyShort(init) {
      var k, j :| 0 <= k < |init| && 0 <= j < |init[k].moduleInfo| && ShortDescriptor(init[k].moduleInfo[j]);
      assert ShortDescriptor(mods[k].moduleInfo[j]);
    }
    if ShortModule(last) {
      var j :| 0 <= j < |last.moduleInfo| && ShortDescriptor(last.moduleInfo[j]);
      assert ShortDescriptor(mods[|init|].moduleInfo[j]);
    }
  }

  /** The ids of a module list. */
  function IdSet(mods: seq<DiiModule>): set<nat> {
    set k | 0 <= k < |mods| :: mods[k].moduleId
  }

  lemma IdSetSnoc(init: seq<DiiModule>, last: DiiModule)
    ensures IdSet(init + [last]) == IdSet(init) + {last.moduleId}
  {
    var mods := init + [last];
    forall id | id in IdSet(mods) ensures id in IdSet(init) + {last.moduleId} {
      var k :| 0 <= k < |mods| && mods[k].moduleId == id;
      if k < |init| {
        assert init[k].moduleId == id;
      }
    }
    forall id | id in IdSet(init) ensures id in IdSet(mods) {
      var k :| 0 <= k < |init| && init[k].moduleId == id;
      assert mods[k].moduleId == id;
    }
    assert mods[|init|].moduleId == last.moduleId;
  }

  /** A DII that does not throw has a positive block size and announces
      exactly the ids it lists. */
  lemma {:induction false} ModuleTableKeys(mods: seq<DiiModule>, blockSize: nat)
    requires ModuleTable(mods, blockSize).Ok? && mods != []
    ensures blockSize > 0
    ensures ModuleTable(mods, blockSize).value.Keys == IdSet(mods)
  {
    var init := mods[..|mods| - 1];
    var last := mods[|mods| - 1];
    assert mods == init + [last];
    IdSetSnoc(init, last);
    var t := ModuleTable(init, blockSize);
    assert t.Ok?;
    if init != [] {
      ModuleTableKeys(init, blockSize);
    }
  }

  /** Module `k`, listed last with its id, gives that id's record. */
  lemma {:induction false} ModuleTableAt(mods: seq<DiiModule>, blockSize: nat, k: nat)
    requires ModuleTable(mods, blockSize).Ok? && k < |mods| && LastOfId(mods, k)
    ensures blockSize > 0
    ensures mods[k].moduleId in ModuleTable(mods, blockSize).value
    ensures FreshModule(mods[k], blockSize) == Ok(ModuleTable(mods, blockSize).value[mods[k].moduleId])
    decreases |mods|
  {
    var init := mods[..|mods| - 1];
    var last := mods[|mods| - 1];
    var t := ModuleTable(init, blockSize);
    assert t.Ok?;
    if k < |init| {
      assert mods[k] == init[k];
      assert last.moduleId != mods[k].moduleId;
      assert LastOfId(init, k) by {
        forall k' | k < k' < |init| ensures init[k'].moduleId != init[k].moduleId {
          assert init[k'] == mods[k'];
        }
      }
      ModuleTableAt(init, blockSize, k);
    }
  }

  /** Each listed id gets the record of the last module listed with it. */
  lemma ModuleTableLast(mods: seq<DiiModule>, blockSize: nat)
    requires ModuleTable(mods, blockSize).Ok?
    ensures forall k :: 0 <= k < |mods| ==> mods[k].moduleId in ModuleTable(mods, blockSize).value
    ensures forall k :: 0 <= k < |mods| && LastOfId(mods, k) ==>
              FreshModule(mods[k], blockSize) == Ok(ModuleTable(mods, blockSize).value[mods[k].moduleId])
  {
    if mods != [] {
      ModuleTableKeys(mods, blockSize);
    }
    forall k | 0 <= k < |mods| && LastOfId(mods, k)
      ensures FreshModule(mods[k], blockSize) == Ok(ModuleTable(mods, blockSize).value[mods[k].moduleId])
    {
      ModuleTableAt(mods, blockSize, k);
    }
  }

  /** A DII that does not throw announces exactly the ids it lists, and each
      id gets the record of the last module listed with it: its version and
      size, `ceil(moduleSize / blockSize)` empty slots and a zero count. */
  lemma ModuleTableEntries(mods: seq<DiiModule>, blockSize: nat)
    requires ModuleTable(mods, blockSize).Ok? && mods != []
    ensures blockSize > 0
    ensures ModuleTable(mods, blockSize).value.Keys == set k | 0 <= k < |mods| :: mods[k].moduleId
    ensures forall k :: 0 <= k < |mods| && LastOfId(mods, k) ==>
              FreshModule(mods[k], blockSize) == Ok(ModuleTable(mods, blockSize).value[mods[k].moduleId])
  {
    ModuleTableKeys(mods, blockSize);
    ModuleTableLast(mods, blockSize);
  }

  lemma ModuleTableStep(mods: seq<DiiModule>, blockSize: nat, i: nat)
    requires i < |mods| && blockSize > 0
    ensures ModuleTable(mods[..i + 1], blockSize)
         == var t, m := ModuleTable(mods[..i], blockSize), FreshModule(mods[i], blockSize);
            if t.Thrown? || m.Thrown? then Thrown else Ok(t.value[mods[i].moduleId := m.value])
  {
    assert mods[..i + 1][..i] == mods[..i];
  }

  /** The module loop of the DII handler. */
  method BuildModuleTable(mods: seq<DiiModule>, blockSize: nat) returns (r: Result<map<nat, ModuleInfo>>)
    ensures r == ModuleTable(mods, blockSize)
  {
    var modules: map<nat, ModuleInfo> := map[];
    var i := 0;
    while i < |mods|
      invariant 0 <= i <= |mods|
      invariant ModuleTable(mods[..i], blockSize) == Ok(modules)
    {
      var mod := mods[i];
      if blockSize == 0 {
        return Thrown;
      }
      ModuleTableStep(mods, blockSize, i);
      var moduleInfo := ModuleInfo(CompressionNone, None, mod.moduleId, mod.moduleVersion, mod.moduleSize, None,
                                   seq(CeilDiv(mod.moduleSize, blockSize), _ => None), 0);
      var applied := ApplyModuleDescriptors(moduleInfo, mod.moduleInfo);
      if applied.Thrown? {
        assert AnyShort(mods) by {
          var j :| 0 <= j < |mod.moduleInfo| && ShortDescriptor(mod.moduleInfo[j]);
          assert ShortDescriptor(mods[i].moduleInfo[j]);
        }
        return Thrown;
      }
      modules := modules[mod.moduleId := applied.value];
      i := i + 1;
    }
    assert mods[..i] == mods;
    r := Ok(modules);
  }

  /** The ids a DII lists, in order and with repeats: the `modules` field of
      the moduleListUpdated message. */
  function ModuleIds(mods: seq<DiiModule>): (ids: seq<nat>)
    ensures |ids| == |mods| && forall k :: 0 <= k < |mods| ==> ids[k] == mods[k].moduleId
  {
    seq(|mods|, k requires 0 <= k < |mods| => mods[k].moduleId)
  }

  /** return_to_entry_flag of the last arib_bxml_privatedata_descriptor (tag
      0xF0): bit 7 of its first byte, where a missing byte reads as 0. */
  function ReturnToEntryFlag(pds: seq<PrivateData>): (r: Option<bool>)
    ensures r.None? <==> forall k :: 0 <= k < |pds| ==> pds[k].tag != 0xF0
    ensures r.Some? ==>
              exists k :: 0 <= k < |pds| && pds[k].tag == 0xF0 && r.value == (At(pds[k].body, 0) >= 0x80)
                          && forall k' :: k < k' < |pds| ==> pds[k'].tag != 0xF0
  {
    if pds == [] then None
    else
      var last := pds[|pds| - 1];
      if last.tag == 0xF0 then Some(At(last.body, 0) >= 0x80)
      else
        var init := pds[..|pds| - 1];
        assert forall k :: 0 <= k < |init| ==> init[k] == pds[k];
        ReturnToEntryFlag(init)
  }

  /** The private-data loop of the DII handler. */
  method ScanPrivateData(pds: seq<PrivateData>) returns (flag: Option<bool>)
    ensures flag == ReturnToEntryFlag(pds)
  {
    flag := None;
    var i := 0;
    while i < |pds|
      invariant 0 <= i <= |pds|
      invariant flag == ReturnToEntryFlag(pds[..i])
    {
      assert pds[..i + 1][..i] == pds[..i];
      if pds[i].tag == 0xF0 {
        flag := Some(At(pds[i].body, 0) >= 0x80);
      }
      i := i + 1;
    }
    assert pds[..i] == pds;
  }

  /** The number of filled slots. */
  function FilledCount(blocks: seq<Option<Bytes>>): (n: nat)
    ensures n <= |blocks|
    ensures n == |blocks| <==> forall i :: 0 <= i < |blocks| ==> blocks[i].Some?
  {
    if blocks == [] then 0
    else
      var init := blocks[..|blocks| - 1];
      assert forall i :: 0 <= i < |init| ==> init[i] == blocks[i];
      FilledCount(init) + (if blocks[|blocks| - 1].Some? then 1 else 0)
  }

  /** The bookkeeping the decoder keeps for every module it downloads. */
  predicate Consistent(m: ModuleInfo) {
    m.downloadedBlockCount == FilledCount(m.blocks)
  }

  /** `downloadedBlockCount >= blocks.length`: the module is complete. */
  predicate Complete(m: ModuleInfo) {
    m.downloadedBlockCount >= |m.blocks|
  }

  /** The gate a DDB passes once its module is found: same version, a block
      number inside the table, an empty slot. */
  predicate Accepts(m: ModuleInfo, ddb: Ddb) {
    && m.moduleVersion == ddb.moduleVersion
    && ddb.blockNumber < |m.blocks|
    && m.blocks[ddb.blockNumber].None?
  }

  /** The accepted block stored in its slot, the count incremented. */
  function StoreBlock(m: ModuleInfo, ddb: Ddb): ModuleInfo
    requires ddb.blockNumber < |m.blocks|
  {
    m.(blocks := m.blocks[ddb.blockNumber := Some(ddb.blockData)], downloadedBlockCount := m.downloadedBlockCount + 1)
  }

  /** What one DDB does to its module: stored if accepted, ignored otherwise. */
  function DdbStep(m: ModuleInfo, ddb: Ddb): ModuleInfo {
    if Accepts(m, ddb) then StoreBlock(m, ddb) else m
  }

  lemma {:induction false} FilledCountUpdate(blocks: seq<Option<Bytes>>, i: nat, b: Bytes)
    requires i < |blocks| && blocks[i].None?
    ensures FilledCount(blocks[i := Some(b)]) == FilledCount(blocks) + 1
  {
    var nb := blocks[i := Some(b)];
    var init, ninit := blocks[..|blocks| - 1], nb[..|nb| - 1];
    if i == |blocks| - 1 {
      assert ninit == init;
    } else {
      assert ninit == init[i := Some(b)];
      FilledCountUpdate(init, i, b);
    }
  }

  /** An accepted DDB fills exactly one slot and adds one to the count, so
      the count stays the number of filled slots and never passes the
      number of slots. */
  lemma StoreBlockKeepsCount(m: ModuleInfo, ddb: Ddb)
    requires Consistent(m) && Accepts(m, ddb)
    ensures Consistent(StoreBlock(m, ddb))
    ensures FilledCount(StoreBlock(m, ddb).blocks) == FilledCount(m.blocks) + 1
    ensures StoreBlock(m, ddb).downloadedBlockCount <= |m.blocks|
    ensures forall i :: 0 <= i < |m.blocks| && i != ddb.blockNumber ==> StoreBlock(m, ddb).blocks[i] == m.blocks[i]
  {
    FilledCountUpdate(m.blocks, ddb.blockNumber, ddb.blockData);
  }

  /** For a consistent module, completeness is exactly every slot filled. */
  lemma CompleteIffAllFilled(m: ModuleInfo)
    requires Consistent(m)
    ensures Complete(m) <==> forall i :: 0 <= i < |m.blocks| ==> m.blocks[i].Some?
  {
  }

  /** A block delivered again after it was stored changes nothing. */
  lemma RedeliveryIgnored(m: ModuleInfo, ddb: Ddb, again: Ddb)
    requires Accepts(m, ddb) && again.blockNumber == ddb.blockNumber
    ensures DdbStep(DdbStep(m, ddb), again) == DdbStep(m, ddb)
  {
  }

  /** The module bytes: the blocks concatenated in ascending slot order. */
  function ModuleBytes(m: ModuleInfo): Bytes
    requires forall i :: 0 <= i < |m.blocks| ==> m.blocks[i].Some?
  {
    Concat(seq(|m.blocks|, i requires 0 <= i < |m.blocks| => m.blocks[i].value))
  }

  /** The module after a run of DDB sections, in arrival order. */
  function Deliver(m: ModuleInfo, ddbs: seq<Ddb>): (r: ModuleInfo)
    ensures r.(blocks := m.blocks, downloadedBlockCount := m.downloadedBlockCount) == m
    ensures |r.blocks| == |m.blocks|
  {
    if ddbs == [] then m else DdbStep(Deliver(m, ddbs[..|ddbs| - 1]), ddbs[|ddbs| - 1])
  }

  /** The slots the run fills: block numbers in range, of the module's version. */
  function Arrived(m: ModuleInfo, ddbs: seq<Ddb>): set<nat> {
    set k | 0 <= k < |ddbs| && ddbs[k].moduleVersion == m.moduleVersion && ddbs[k].blockNumber < |m.blocks|
      :: ddbs[k].blockNumber
  }

  /** Every block of the module's version carries the bytes `data` has for
      its slot (a carousel repeats the same block). */
  predicate Faithful(m: ModuleInfo, ddbs: seq<Ddb>, data: seq<Bytes>) {
    forall k :: 0 <= k < |ddbs| && ddbs[k].moduleVersion == m.moduleVersion && ddbs[k].blockNumber < |data| ==>
      ddbs[k].blockData == data[ddbs[k].blockNumber]
  }

  /** Every filled slot already holds its bytes from `data`. */
  predicate Agrees(blocks: seq<Option<Bytes>>, data: seq<Bytes>) {
    |blocks| == |data| && forall i :: 0 <= i < |blocks| ==> blocks[i].None? || blocks[i] == Some(data[i])
  }

  /** After any run of DDB sections, a slot holds its block exactly when
      some section of the module's version carried its number, whatever the
      order of arrival and however often a block was repeated; the count
      stays the number of filled slots. */
  lemma {:induction false} DeliverSlots(m: ModuleInfo, ddbs: seq<Ddb>, data: seq<Bytes>)
    requires Consistent(m) && Agrees(m.blocks, data) && Faithful(m, ddbs, data)
    ensures Consistent(Deliver(m, ddbs))
    ensures forall i :: 0 <= i < |m.blocks| ==>
              Deliver(m, ddbs).blocks[i] == (if i in Arrived(m, ddbs) then Some(data[i]) else m.blocks[i])
  {
    if ddbs != [] {
      var init, last := ddbs[..|ddbs| - 1], ddbs[|ddbs| - 1];
      assert forall k :: 0 <= k < |init| ==> init[k] == ddbs[k];
      DeliverSlots(m, init, data);
      var prev := Deliver(m, init);
      assert Arrived(m, ddbs) == Arrived(m, init) + (if last.moduleVersion == m.moduleVersion && last.blockNumber < |m.blocks| then {last.blockNumber} else {}) by {
        assert ddbs == init + [last];
      }
      if Accepts(prev, last) {
        StoreBlockKeepsCount(prev, last);
        assert last.blockData == data[last.blockNumber];
      }
    }
  }

  /** Two runs that bring the same slots give the same module: delivery
      order and repeats do not matter. */
  lemma DeliveryOrderIrrelevant(m: ModuleInfo, a: seq<Ddb>, b: seq<Ddb>, data: seq<Bytes>)
    requires Consistent(m) && Agrees(m.blocks, data) && Faithful(m, a, data) && Faithful(m, b, data)
    requires Arrived(m, a) == Arrived(m, b)
    ensures Deliver(m, a) == Deliver(m, b)
  {
    DeliverSlots(m, a, data);
    DeliverSlots(m, b, data);
    assert Deliver(m, a).blocks == Deliver(m, b).blocks;
  }

  /** Once every slot has arrived, in whatever order, the module is complete
      and its bytes are the blocks in ascending index order. */
  lemma AssembledInIndexOrder(m: ModuleInfo, ddbs: seq<Ddb>, data: seq<Bytes>)
    requires Consistent(m) && Agrees(m.blocks, data) && Faithful(m, ddbs, data)
    requires forall i :: 0 <= i < |m.blocks| ==> i in Arrived(m, ddbs)
    ensures Complete(Deliver(m, ddbs))
    ensures forall i :: 0 <= i < |m.blocks| ==> Deliver(m, ddbs).blocks[i].Some?
    ensures ModuleBytes(Deliver(m, ddbs)) == Concat(data)
  {
    DeliverSlots(m, ddbs, data);
    var r := Deliver(m, ddbs);
    assert seq(|r.blocks|, i requires 0 <= i < |r.blocks| => r.blocks[i].value) == data;
  }

  datatype MediaType = MediaType(typeName: string, subtype: string, parameters: seq<(string, string)>)

  /** An entity header as the entity parser gives it: name and raw value. */
  datatype Header = Header(name: string, value: Bytes)

  /** One part of a multipart module body. */
  datatype Entity = Entity(headers: seq<Header>, body: Bytes)

  datatype CachedFile = CachedFile(contentType: MediaType, contentLocation: Option<string>, data: Bytes)

  /** The files of a module keyed by location, in insertion order. */
  type FileMap = JsMap<Option<string>, CachedFile>

  /** The calls the decoder makes into code outside this model: zlib's
      `inflateSync` (None when it throws), `EntityParser.readEntity` (None
      when there is no multipart body), `parseMediaType`,
      `parseMediaTypeFromString` and `entityHeaderToString`. */
  datatype Codec = Codec(
    inflate: Bytes -> Option<Bytes>,
    readEntity: Bytes -> Option<seq<Entity>>,
    parseMediaType: Bytes -> Option<MediaType>,
    parseMediaTypeFromString: string -> Option<MediaType>,
    headerText: Header -> string)

  /** `headers.find(x => x.name === name)`: the first header of that name. */
  function FindHeader(headers: seq<Header>, name: string): (h: Option<Header>)
    ensures h.None? <==> forall k :: 0 <= k < |headers| ==> headers[k].name != name
    ensures h.Some? ==> exists k :: 0 <= k < |headers| && headers[k] == h.value && h.value.name == name
                                    && forall k' :: 0 <= k' < k ==> headers[k'].name != name
  {
    if headers == [] then None
    else if headers[0].name == name then Some(headers[0])
    else
      var h := FindHeader(headers[1..], name);
      assert h.Some? ==> exists k :: 0 <= k < |headers| && headers[k] == h.value && forall k' :: 0 <= k' < k ==> headers[k'].name != name by {
        if h.Some? {
          var k :| 0 <= k < |headers[1..]| && headers[1..][k] == h.value && forall k' :: 0 <= k' < k ==> headers[1..][k'].name != name;
          assert headers[k + 1] == h.value;
          assert forall k' :: 0 <= k' < k + 1 ==> headers[k'].name != name by {
            forall k' | 0 <= k' < k + 1 ensures headers[k'].name != name {
              if k' > 0 {
                assert headers[k'] == headers[1..][k' - 1];
              }
            }
          }
        }
      }
      h
  }

  /** The file one entity yields: it is skipped when it has no
      Content-Location header, no Content-Type header, or a Content-Type
      that does not parse. */
  function EntityFile(e: Entity, codec: Codec): (f: Option<CachedFile>)
    ensures f.Some? ==> f.value.contentLocation.Some? && f.value.data == e.body
  {
    match FindHeader(e.headers, "content-location")
    case None => None
    case Some(location) =>
      match FindHeader(e.headers, "content-type")
      case None => None
      case Some(contentType) =>
        match codec.parseMediaType(contentType.value)
        case None => None
        case Some(mediaType) => Some(CachedFile(mediaType, Some(codec.headerText(location)), e.body))
  }

  /** The files of a multipart module, keyed by location. */
  function FilesOf(entities: seq<Entity>, codec: Codec): (files: FileMap)
    ensures files.Valid()
  {
    if entities == [] then EmptyJsMap()
    else
      var prev := FilesOf(entities[..|entities| - 1], codec);
      match EntityFile(entities[|entities| - 1], codec)
      case None => prev
      case Some(f) => prev.Set(f.contentLocation, f)
  }

  /** The entity loop of the download handler. */
  method CollectFiles(entities: seq<Entity>, codec: Codec) returns (files: FileMap)
    ensures files == FilesOf(entities, codec)
  {
    files := EmptyJsMap();
    var i := 0;
    while i < |entities|
      invariant 0 <= i <= |entities|
      invariant files == FilesOf(entities[..i], codec)
    {
      var entity := entities[i];
      var location := FindHeader(entity.headers, "content-location");
      if location.None? {
        CollectSkip(entities, codec, i);
        i := i + 1;
        continue;
      }
      var contentType := FindHeader(entity.headers, "content-type");
      if contentType.None? {
        CollectSkip(entities, codec, i);
        i := i + 1;
        continue;
      }
      var mediaType := codec.parseMediaType(contentType.value.value);
      if mediaType.None? {
        CollectSkip(entities, codec, i);
        i := i + 1;
        continue;
      }
      var locationString := codec.headerText(location.value);
      var file := CachedFile(mediaType.value, Some(locationString), entity.body);
      CollectAdd(entities, codec, i, file);
      files := files.Set(file.contentLocation, file);
      i := i + 1;
    }
    assert entities[..i] == entities;
  }

  /** An entity that yields no file leaves the map as it was. */
  lemma CollectSkip(entities: seq<Entity>, codec: Codec, i: int)
    requires 0 <= i < |entities| && EntityFile(entities[i], codec).None?
    ensures FilesOf(entities[..i + 1], codec) == FilesOf(entities[..i], codec)
  {
    assert entities[..i + 1][..i] == entities[..i];
  }

  /** An entity that yields a file stores it under its location. */
  lemma CollectAdd(entities: seq<Entity>, codec: Codec, i: int, f: CachedFile)
    requires 0 <= i < |entities| && EntityFile(entities[i], codec) == Some(f)
    ensures FilesOf(entities[..i + 1], codec) == FilesOf(entities[..i], codec).Set(f.contentLocation, f)
  {
    assert entities[..i + 1][..i] == entities[..i];
  }

  /** No later entity yields a file at the same location as entity `k`. */
  predicate LastAtLocation(entities: seq<Entity>, codec: Codec, k: int)
    requires 0 <= k < |entities| && EntityFile(entities[k], codec).Some?
  {
    forall k' :: k < k' < |entities| && EntityFile(entities[k'], codec).Some? ==>
      EntityFile(entities[k'], codec).value.contentLocation != EntityFile(entities[k], codec).value.contentLocation
  }

  /** Every file of the map is stored under its own location and is the
      file of some entity. */
  lemma {:induction false} FilesOfSources(entities: seq<Entity>, codec: Codec)
    ensures forall key :: key in FilesOf(entities, codec).values ==>
              FilesOf(entities, codec).values[key].contentLocation == key
              && exists k :: 0 <= k < |entities| && EntityFile(entities[k], codec) == Some(FilesOf(entities, codec).values[key])
  {
    forall key | key in FilesOf(entities, codec).values
      ensures FilesOf(entities, codec).values[key].contentLocation == key
      ensures exists k :: 0 <= k < |entities| && EntityFile(entities[k], codec) == Some(FilesOf(entities, codec).values[key])
    {
      FileSource(entities, codec, key);
    }
  }

  lemma {:induction false} FileSource(entities: seq<Entity>, codec: Codec, key: Option<string>)
    requires key in FilesOf(entities, codec).values
    ensures FilesOf(entities, codec).values[key].contentLocation == key
    ensures exists k :: 0 <= k < |entities| && EntityFile(entities[k], codec) == Some(FilesOf(entities, codec).values[key])
    decreases |entities|
  {
    var init, last := entities[..|entities| - 1], entities[|entities| - 1];
    var file := FilesOf(entities, codec).values[key];
    var f := EntityFile(last, codec);
    if f.Some? && key == f.value.contentLocation {
      assert EntityFile(entities[|entities| - 1], codec) == Some(file);
    } else {
      FileSource(init, codec, key);
      var k :| 0 <= k < |init| && EntityFile(init[k], codec) == Some(FilesOf(init, codec).values[key]);
      assert entities[k] == init[k];
    }
  }

  /** Every location some entity yields is in the map. */
  lemma {:induction false} FilesOfCovers(entities: seq<Entity>, codec: Codec)
    ensures forall k :: 0 <= k < |entities| && EntityFile(entities[k], codec).Some? ==>
              EntityFile(entities[k], codec).value.contentLocation in FilesOf(entities, codec).values
  {
    if entities != [] {
      var init := entities[..|entities| - 1];
      FilesOfCovers(init, codec);
      FilesOfGrows(entities, codec);
      forall k | 0 <= k < |init| && EntityFile(entities[k], codec).Some?
        ensures EntityFile(entities[k], codec).value.contentLocation in FilesOf(entities, codec).values
      {
        assert entities[k] == init[k];
      }
    }
  }

  /** Adding an entity keeps every location and adds the entity's own. */
  lemma FilesOfGrows(entities: seq<Entity>, codec: Codec)
    requires entities != []
    ensures FilesOf(entities[..|entities| - 1], codec).values.Keys <= FilesOf(entities, codec).values.Keys
    ensures EntityFile(entities[|entities| - 1], codec).Some? ==>
              EntityFile(entities[|entities| - 1], codec).value.contentLocation in FilesOf(entities, codec).values
  {
  }


  /** Entity `k`, the last with its location, gives the file there. */
  lemma {:induction false} FilesOfAt(entities: seq<Entity>, codec: Codec, k: nat)
    requires k < |entities| && EntityFile(entities[k], codec).Some? && LastAtLocation(entities, codec, k)
    ensures EntityFile(entities[k], codec).value.contentLocation in FilesOf(entities, codec).values
    ensures FilesOf(entities, codec).values[EntityFile(entities[k], codec).value.contentLocation] == EntityFile(entities[k], codec).value
    decreases |entities|
  {
    var init, last := entities[..|entities| - 1], entities[|entities| - 1];
    var f := EntityFile(entities[k], codec).value;
    if k < |init| {
      assert entities[k] == init[k];
      assert LastAtLocation(init, codec, k) by {
        forall k' | k < k' < |init| && EntityFile(init[k'], codec).Some?
          ensures EntityFile(init[k'], codec).value.contentLocation != f.contentLocation
        {
          assert init[k'] == entities[k'];
        }
      }
      FilesOfAt(init, codec, k);
      assert EntityFile(last, codec).Some? ==> EntityFile(last, codec).value.contentLocation != f.contentLocation;
    }
  }

  /** The file at a location is the one the last entity with it yields. */
  lemma FilesOfLast(entities: seq<Entity>, codec: Codec)
    ensures forall k :: 0 <= k < |entities| && EntityFile(entities[k], codec).Some? ==>
              EntityFile(entities[k], codec).value.contentLocation in FilesOf(entities, codec).values
    ensures forall k :: 0 <= k < |entities| && EntityFile(entities[k], codec).Some? && LastAtLocation(entities, codec, k) ==>
              FilesOf(entities, codec).values[EntityFile(entities[k], codec).value.contentLocation] == EntityFile(entities[k], codec).value
  {
    FilesOfCovers(entities, codec);
    forall k | 0 <= k < |entities| && EntityFile(entities[k], codec).Some? && LastAtLocation(entities, codec, k)
      ensures FilesOf(entities, codec).values[EntityFile(entities[k], codec).value.contentLocation] == EntityFile(entities[k], codec).value
    {
      FilesOfAt(entities, codec, k);
    }
  }

  /** The file map holds one file per location some entity yields, stored
      under its own location, and the file is the one the last entity with
      that location yields. */
  lemma FilesOfContents(entities: seq<Entity>, codec: Codec)
    ensures forall key :: key in FilesOf(entities, codec).values ==>
              FilesOf(entities, codec).values[key].contentLocation == key
              && exists k :: 0 <= k < |entities| && EntityFile(entities[k], codec) == Some(FilesOf(entities, codec).values[key])
    ensures forall k :: 0 <= k < |entities| && EntityFile(entities[k], codec).Some? ==>
              EntityFile(entities[k], codec).value.contentLocation in FilesOf(entities, codec).values
    ensures forall k :: 0 <= k < |entities| && EntityFile(entities[k], codec).Some? && LastAtLocation(entities, codec, k) ==>
              FilesOf(entities, codec).values[EntityFile(entities[k], codec).value.contentLocation] == EntityFile(entities[k], codec).value
  {
    FilesOfSources(entities, codec);
    FilesOfLast(entities, codec);
  }

  /** The media type of a module's content type, when it has one that parses. */
  function ModuleMediaType(m: ModuleInfo, codec: Codec): Option<MediaType> {
    match m.contentType
    case None => None
    case Some(ct) => codec.parseMediaTypeFromString(ct)
  }

  /** A module goes to the entity parser when it has no media type or its
      media type is multipart/mixed. */
  predicate GoesToEntityParser(mediaType: Option<MediaType>) {
    mediaType.None? || (mediaType.value.typeName == "multipart" && mediaType.value.subtype == "mixed")
  }

  /** The files a completed module yields; None when the entity parser finds
      no multipart body, in which case nothing is sent. */
  function ModuleFiles(m: ModuleInfo, data: Bytes, codec: Codec): (files: Option<FileMap>)
    ensures files.Some? ==> files.value.Valid()
    ensures !GoesToEntityParser(ModuleMediaType(m, codec)) ==>
              files == Some(JsMap([None], map[None := CachedFile(ModuleMediaType(m, codec).value, None, data)]))
    ensures GoesToEntityParser(ModuleMediaType(m, codec)) ==>
              (files.None? <==> codec.readEntity(data).None?)
              && (files.Some? ==> files.value == FilesOf(codec.readEntity(data).value, codec))
  {
    var mediaType := ModuleMediaType(m, codec);
    if GoesToEntityParser(mediaType) then
      match codec.readEntity(data)
      case None => None
      case Some(entities) => Some(FilesOf(entities, codec))
    else
      var single: FileMap := JsMap([None], map[None := CachedFile(mediaType.value, None, data)]);
      assert single.values.Keys == set k | k in single.keys;
      Some(single)
  }

  /** The bytes a completed module holds: the concatenated blocks, inflated
      only for compression type 0; None when inflating throws. */
  function ModuleData(m: ModuleInfo, codec: Codec): (data: Option<Bytes>)
    requires forall i :: 0 <= i < |m.blocks| ==> m.blocks[i].Some?
    ensures m.compressionType != CompressionZlib ==> data == Some(ModuleBytes(m))
    ensures m.compressionType == CompressionZlib ==> data == codec.inflate(ModuleBytes(m))
  {
    if m.compressionType == CompressionZlib then codec.inflate(ModuleBytes(m)) else Some(ModuleBytes(m))
  }

  datatype CachedModule = CachedModule(moduleInfo: ModuleInfo, files: Option<FileMap>)
}
