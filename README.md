# web-bml core in Dafny

A model of two parts of web-bml, a browser for ARIB BML data broadcasting, and a few rules of
its document object model. Of the transport-stream decoder it covers the `pat`, `pmt`,
`packet` (private PES) and `dsmcc` handlers, with `decodeAdditionalAribBXMLInfo` and
`decodePES`; of the event scheduler it covers the sequential behaviour of `EventQueue` and
`EventDispatcher`. What it leaves out is listed under "## Left out".

**The transport-stream decoder (`decodeTS`).** Among the handlers it registers on a
demultiplexer, the modelled ones receive the PAT, the PMT, private PES packets and DSM-CC
sections. From them it:

- follows the program chosen by the PAT;
- learns from the PMT which PIDs carry data carousels and under which component tag, and decodes
  the ARIB `additional_data_component_info` of each carousel;
- gathers and decodes PES packets;
- tracks each carousel's module list (DII sections) and fills block slots (DDB sections);
- reassembles, inflates and splits completed modules into files, behind a version-gated cache;
- decodes stream event descriptors.

Everything it reports goes through `send`, modelled as the `sent` list.

**The event scheduler (`EventQueue`, `EventDispatcher`).** It holds:

- a queue of synchronous DOM events (focus, blur, click);
- a queue of asynchronous tasks;
- a lock count.

`processEventQueue` drains them, always taking a synchronous event first. A unit that reports
"exit" stops the drain and keeps the lock. The dispatcher:

- sets the document's current event while a handler runs;
- checks a handler attribute against the `name()` grammar;
- turns subscribed `beitem` elements into tasks for ModuleLocked, ModuleUpdated and
  DataButtonPressed.

**Document object model rules.** Fixed image sizes, the initial `streamStatus`, the
`remain`/`subscribe`/`invisible` boolean attributes, `focus` and `hasFeature`.

## Layout

| file | module | models |
|---|---|---|
| `common.dfy` | `Common` | JavaScript semantics the code relies on: out-of-range buffer reads, big-endian reads, ToInt32, `\s`, `trim`, ASCII case mapping, insertion-ordered `Map` |
| `bxml_info.dfy` | `AribBxml` | `decodeAdditionalAribBXMLInfo` |
| `pes.dfy` | `Pes` | `decodePES` |
| `stream_event.dfy` | `StreamEvents` | the descriptor walk of stream-descriptor sections |
| `program_map.dfy` | `ProgramMap` | the PAT and PMT loops |
| `carousel.dfy` | `Carousel` | DII module tables, DDB block slots, module reassembly and files |
| `decoder.dfy` | `Decoder` | the state of `decodeTS` and its handlers, as class `TsDecoder` proved against state-transition functions |
| `handler_syntax.dfy` | `HandlerSyntax` | the handler-attribute grammar of `executeEventHandler` |
| `scheduler.dfy` | `Events` | `EventQueue` and `EventDispatcher` as classes, proved against the `Drain` specification |
| `dom.dfy` | `Dom` | the document object model rules listed above |

Each loop of the source is a method proved equal to a function of its inputs, and the properties
are lemmas about those functions. Each stateful handler is a class method. It is proved to move
the state as a function of the old state says, and it keeps the invariant `StateValid`: every
module's block count equals its filled slots.

## Quirks of the source the model keeps

- **Blank handler attributes.** The blank-handler pattern `/^\s * $ /` matches no string, so
  only the empty attribute is skipped, and a handler attribute made only of white space fails
  the call pattern and throws (`HandlerSyntax.BlankPatternNeverMatches`,
  `HandlerSyntax.BlankHandlerRejected`).
- **Throwing inputs.** These throw out of the handler:
  - a module that fails to inflate;
  - a DII with block size 0, or a module descriptor cut short;
  - a PES packet of 5 bytes, or one that has a PTS but fewer than 14 bytes.
- **Original size.** A module's original size is read but never compared with the inflated
  bytes.
- **Version fields.** They are read as `hi << 16 | lo` (`AribBxml.VersionFieldVsBigEndian`).
- **NPT.** The NPT of an event goes through ToInt32, so bit 32 is lost and values from 2^31 on
  are negative (`StreamEvents.NptDropsBit32`).
- **Stream event messages.** They carry the component id and the data event id; the message
  group id is not sent.
- **Lock count.** A drain stops when the lock count is not zero, including when it is negative.
  An unlock that takes the count below zero throws and leaves the count at -1
  (`Events.ResetThenFalseStallsQueue`).
- **Bevent tasks.** A `beitem` task sets the current event when it runs, not when it is queued.
- **Object type.** The `type` of an object is its `arib-type` attribute when it has one
  (`Dom.AribTypeTakesPrecedence`).

## Model

| member | source | states |
|---|---|---|
| Common.At | web-bml-ts/src/decode_ts.ts:139-243 | a byte inside the buffer reads as itself; a byte past the end reads as 0, which is what `undefined` gives in the bitwise operators |
| Common.U16 | web-bml-ts/src/decode_ts.ts:759 | `readUInt16BE` is below 2^16, with the first byte as its high byte and the second as its low byte |
| Common.U32 | web-bml-ts/src/decode_ts.ts:518 | `readUInt32BE` is below 2^32, made of the two big-endian halves |
| Common.ToInt32 | web-bml-ts/src/decode_ts.ts:722 | the result is a signed 32-bit number congruent to the input modulo 2^32 |
| Common.JsOr | web-bml-ts/src/decode_ts.ts:722 | `a \| b` is a signed 32-bit number, and with an operand that is 0 modulo 2^32 it is the ToInt32 of the other |
| Common.Trim | web-bml/src/interface/DOM.ts:435 | `trim()` is a slice of the input that neither starts nor ends with white space, and only white space is cut off either side |
| Common.Lower | web-bml/src/interface/DOM.ts:431 | `toLowerCase()` maps every character through the ASCII lower-case map and keeps the length |
| Common.Upper | web-bml/src/interface/DOM.ts:1140 | `toUpperCase()` maps every character through the ASCII upper-case map and keeps the length |
| Common.ConcatSplit | web-bml-ts/src/decode_ts.ts:587 | `Buffer.concat` of two lists of blocks joined is the two concatenations joined |
| Common.JsMap.Set | web-bml-ts/src/decode_ts.ts:302 | `Map.set` stores the value; a new key is appended to the insertion order, an existing key keeps its place, and the map stays well formed |
| Common.JsMap.ValueList | web-bml-ts/src/decode_ts.ts:312 | `[...map.values()]` lists one value per key in insertion order |
| AribBxml.VersionField | web-bml-ts/src/decode_ts.ts:189-209 | the version read has the first byte above bit 16 and the second byte below it |
| AribBxml.BigEndian16 | web-bml-ts/src/decode_ts.ts:189-209 | reference reading of a 16-bit version field: high byte times 256 plus low byte, below 2^16 |
| AribBxml.VersionFieldVsBigEndian | web-bml-ts/src/decode_ts.ts:189-209 | the version read equals the 16-bit field exactly when the high byte is 0, is never smaller, and 0x0100 reads as 0x10000 |
| AribBxml.BigEndian16RoundTrip | web-bml-ts/src/decode_ts.ts:189-209 | a version written high byte first is read back by the reference |
| AribBxml.DecodeAdditionalAribBXMLInfo | web-bml-ts/src/decode_ts.ts:132-245 | the format is the top two bits of byte 0; the entry-point block is present iff entry_point_flag is set, with every flag taken from its bit; the BML version defaults to 1.0 iff default_version_flag is set, else comes from bytes 2-5, and the BXML version is present iff use_xml is also set; the carousel info is present iff the format is 0 and is read at offset 1, 2, 6 or 10 as the flags say |
| Pes.Payload | web-bml-ts/src/decode_ts.ts:781-796 | the data is what follows the header of `9 + PES_header_data_length` bytes, empty when that runs past the end, and the whole packet when byte 8 is missing |
| Pes.Pts | web-bml-ts/src/decode_ts.ts:785-793 | the PTS is below 2^33 |
| Pes.DecodePES | web-bml-ts/src/decode_ts.ts:748-800 | `null` exactly for a packet shorter than 5 bytes, without the start code, with stream id 0xBE or 0xBF, or without the '10' marker bits; a thrown RangeError exactly for 5 bytes, or a PTS flag with fewer than 14 bytes; otherwise the stream id, a PTS iff the PTS_DTS flags are 2 or 3, and the payload |
| Pes.PtsFieldRoundTrip | web-bml-ts/src/decode_ts.ts:786-792 | a 33-bit PTS written with its marker bits is read back whole |
| Pes.DecodeEncodePES | web-bml-ts/src/decode_ts.ts:748-800 | decoding a PES packet as a multiplexer writes it gives back its stream id, PTS and payload, for every stream id but 0xBE and 0xBF |
| StreamEvents.EventOf | web-bml-ts/src/decode_ts.ts:696-735 | a descriptor yields at most one event, and one exactly when it is a general event descriptor (tag 0x40) of at least 11 bytes with time_mode 0 or 2; the event is immediate for mode 0 and NPT-scheduled for mode 2 |
| StreamEvents.EventFields | web-bml-ts/src/decode_ts.ts:700-730 | the event carries the low 12 bits of bytes 0-1 as group id, byte 8 as type, bytes 9-10 as id, the bytes from 11 on as private data, and for mode 2 the ToInt32 of bytes 4-7 as NPT |
| StreamEvents.EventOfEncode | web-bml-ts/src/decode_ts.ts:696-735 | every event with a 12-bit group id, a 16-bit message id and an NPT below 2^31 is read back whole from a descriptor that carries it |
| StreamEvents.DecodeStreamDescriptors | web-bml-ts/src/decode_ts.ts:669-736 | the loop with its cursor yields the events of the descriptors read, in order |
| StreamEvents.DescriptorsCons | web-bml-ts/src/decode_ts.ts:673-682 | a whole descriptor in front of the rest is read as itself, then the rest is walked |
| StreamEvents.DescriptorsOfSerialize | web-bml-ts/src/decode_ts.ts:673-682 | descriptors written as tag, length, body are all read back, in order, whatever follows |
| StreamEvents.StopsAtTruncated | web-bml-ts/src/decode_ts.ts:678-682 | the walk stops at the first descriptor whose body is cut short |
| StreamEvents.EventsOfAppend | web-bml-ts/src/decode_ts.ts:672-736 | the events of two runs of descriptors are the events of each, in order |
| StreamEvents.EventsCountAndModes | web-bml-ts/src/decode_ts.ts:696-735 | there is one event per general event descriptor with time_mode 0 or 2, and every event has time mode 0 or 2 |
| StreamEvents.Npt | web-bml-ts/src/decode_ts.ts:722 | the NPT read is the ToInt32 of bytes 4 to 7: bit 32 in byte 3 plays no part |
| StreamEvents.Npt33 | web-bml-ts/src/decode_ts.ts:722 | reference reading of the 33-bit NPT field: bit 32 is the low bit of byte 3, the rest bytes 4 to 7 |
| StreamEvents.NptDropsBit32 | web-bml-ts/src/decode_ts.ts:722 | the NPT read equals the 33-bit field exactly when the field is below 2^31; the largest NPT reads as -1 |
| StreamEvents.LargestNpt | web-bml-ts/src/decode_ts.ts:722 | the largest 33-bit NPT, 0x1FFFFFFFF, reads as -1 |
| StreamEvents.NptRoundTrip | web-bml-ts/src/decode_ts.ts:722 | an NPT written into bytes 3 to 7 is read back whole by the reference |
| ProgramMap.PatTable | web-bml-ts/src/decode_ts.ts:113-121 | the PAT map has exactly the program map PIDs of the PAT as keys |
| ProgramMap.SmallestProgram | web-bml-ts/src/decode_ts.ts:114-119 | the program number is absent iff no program has a map PID, and otherwise is the smallest number among those that have one |
| ProgramMap.DecodePat | web-bml-ts/src/decode_ts.ts:111-121 | the program loop builds the PAT map and the smallest program number |
| ProgramMap.PatTableLastWins | web-bml-ts/src/decode_ts.ts:119 | a PID listed twice maps to its last program |
| ProgramMap.MisreadIdRecovered | web-bml-ts/src/decode_ts.ts:274-282 | a descriptor with a 16-bit id read by the one-byte parser gives back the whole id and the info without the id's low byte |
| ProgramMap.WholeIdKept | web-bml-ts/src/decode_ts.ts:274-282 | a descriptor whose info fills the rest of its body keeps its id and info |
| ProgramMap.ComponentTag | web-bml-ts/src/decode_ts.ts:268-272 | the component id is absent iff there is no stream identifier descriptor, else the tag of the last one |
| ProgramMap.BxmlOf | web-bml-ts/src/decode_ts.ts:273-290 | the BXML info is absent iff no data component descriptor has an id 0x07, 0x0B, 0x0C or 0x0D; otherwise it is the decoding of the last such descriptor's info |
| ProgramMap.ScanEsInfo | web-bml-ts/src/decode_ts.ts:268-292 | the ES_info loop yields the last component tag and the BXML info of the last allowed descriptor |
| ProgramMap.StreamComponent | web-bml-ts/src/decode_ts.ts:262-302 | a stream gives a component iff it is a data carousel (type 0x0D) with a component tag, under its own PID |
| ProgramMap.Tables | web-bml-ts/src/decode_ts.ts:254-303 | the component map by id stays a well-formed insertion-ordered map |
| ProgramMap.DecodePmt | web-bml-ts/src/decode_ts.ts:254-303 | the stream loop builds the PID map, the component map and the private PES set |
| ProgramMap.TablesByPid | web-bml-ts/src/decode_ts.ts:262-301 | the PID map has exactly the PIDs of the carousel streams with a tag, each mapped to a component of that PID |
| ProgramMap.TablesByComponent | web-bml-ts/src/decode_ts.ts:293-302 | the component map has exactly the component ids of those streams, each mapped to a component of that id |
| ProgramMap.LastWithPid | web-bml-ts/src/decode_ts.ts:262-301 | reference: the last stream announcing a component on a PID, -1 when none does |
| ProgramMap.LastWithComponent | web-bml-ts/src/decode_ts.ts:262-302 | reference: the last stream announcing a component id, -1 when none does |
| ProgramMap.FirstWithComponent | web-bml-ts/src/decode_ts.ts:262-302 | reference: the first stream announcing a component id, -1 when none does |
| ProgramMap.FirstIsFirst | web-bml-ts/src/decode_ts.ts:262-302 | no stream before the one `FirstWithComponent` returns announces the id, and no stream at all does when it returns -1 |
| ProgramMap.TablesPidValues | web-bml-ts/src/decode_ts.ts:262-301 | a PID is in the PID map iff some stream announces a component on it, and it holds the component (id, PID and BXML info) of the last such stream |
| ProgramMap.TablesComponentValues | web-bml-ts/src/decode_ts.ts:262-302 | a component id is in the component map iff some stream announces it, and it holds the component of the last such stream |
| ProgramMap.TablesComponentOrder | web-bml-ts/src/decode_ts.ts:302-313 | the component map's keys, and so the `pmt` message's list, come in the order the ids were first announced |
| ProgramMap.TablesPrivatePes | web-bml-ts/src/decode_ts.ts:256-260 | the private PES PIDs are those of type 0x06 when PES parsing is on, and none otherwise |
| ProgramMap.ComponentsChangedIffKeysDiffer | web-bml-ts/src/decode_ts.ts:306 | the size-and-membership test holds exactly when the sets of component ids differ |
| Carousel.DataEventIdOf | web-bml-ts/src/decode_ts.ts:472 | the data event id is below 16 and is bits 28 to 31 of a 32-bit download id |
| Carousel.CeilDiv | web-bml-ts/src/decode_ts.ts:502 | the slot count is the least number of blocks covering the module size |
| Carousel.AsciiText | web-bml-ts/src/decode_ts.ts:510 | the type text has one character per byte |
| Carousel.AsciiTextChars | web-bml-ts/src/decode_ts.ts:510 | each character is its byte with the high bit cleared, so ASCII bytes are kept as they are |
| Carousel.Int8 | web-bml-ts/src/decode_ts.ts:517 | `readInt8` is the byte as a signed 8-bit number |
| Carousel.LastWithTag | web-bml-ts/src/decode_ts.ts:507-521 | the descriptor found has the tag and no later descriptor has it; it is absent iff no descriptor has the tag |
| Carousel.WithDescriptors | web-bml-ts/src/decode_ts.ts:507-522 | the descriptor loop throws iff some download-time or compression descriptor is short; otherwise only the content type (from the last type descriptor) and the compression type and original size (from the last compression descriptor) change |
| Carousel.ApplyModuleDescriptors | web-bml-ts/src/decode_ts.ts:507-522 | the descriptor loop computes the descriptors applied in order |
| Carousel.FreshModule | web-bml-ts/src/decode_ts.ts:494-522 | a new module has the DII's id, version and size, `ceil(moduleSize / blockSize)` empty slots and a zero count, unless a descriptor throws |
| Carousel.ModuleTable | web-bml-ts/src/decode_ts.ts:493-523 | the module table throws exactly when there is a module and the block size is 0 or some descriptor is short |
| Carousel.ModuleTableEntries | web-bml-ts/src/decode_ts.ts:493-523 | the table has exactly the listed ids, and each holds the fresh record of the last module with that id |
| Carousel.BuildModuleTable | web-bml-ts/src/decode_ts.ts:493-523 | the module loop computes the module table |
| Carousel.ModuleIds | web-bml-ts/src/decode_ts.ts:536 | the list sent has the DII's module ids in order, repeats kept |
| Carousel.ReturnToEntryFlag | web-bml-ts/src/decode_ts.ts:524-532 | the flag is absent iff there is no descriptor with tag 0xF0, else bit 7 of the last one's first byte |
| Carousel.ScanPrivateData | web-bml-ts/src/decode_ts.ts:524-532 | the private-data loop computes that flag |
| Carousel.FilledCount | web-bml-ts/src/decode_ts.ts:578-579 | the filled count is at most the slot count, and equal to it iff every slot is filled |
| Carousel.FilledCountUpdate | web-bml-ts/src/decode_ts.ts:577-578 | filling an empty slot adds one to the filled count |
| Carousel.StoreBlockKeepsCount | web-bml-ts/src/decode_ts.ts:571-578 | an accepted block fills its slot only, adds one, and the count stays the number of filled slots and at most the slot count |
| Carousel.CompleteIffAllFilled | web-bml-ts/src/decode_ts.ts:579 | `downloadedBlockCount >= blocks.length` holds exactly when every slot is filled |
| Carousel.RedeliveryIgnored | web-bml-ts/src/decode_ts.ts:574-576 | a block delivered again after it was stored changes nothing |
| Carousel.Deliver | web-bml-ts/src/decode_ts.ts:563-578 | a run of blocks changes only the slots and the count of a module |
| Carousel.DeliverSlots | web-bml-ts/src/decode_ts.ts:563-579 | after any run of blocks, a slot holds its block iff some block of the module's version carried its number, and the count stays the number of filled slots |
| Carousel.DeliveryOrderIrrelevant | web-bml-ts/src/decode_ts.ts:563-579 | two runs bringing the same slots, in any order and with any repeats, give the same module |
| Carousel.AssembledInIndexOrder | web-bml-ts/src/decode_ts.ts:579-587 | once every slot has arrived the module is complete and its bytes are the blocks in ascending index order |
| Carousel.FindHeader | web-bml-ts/src/decode_ts.ts:606-611 | `find` gives the first header of that name, absent iff none has it |
| Carousel.EntityFile | web-bml-ts/src/decode_ts.ts:605-627 | a file taken from an entity has a location and the entity's body |
| Carousel.FilesOf | web-bml-ts/src/decode_ts.ts:604-628 | the file map stays a well-formed insertion-ordered map |
| Carousel.CollectFiles | web-bml-ts/src/decode_ts.ts:604-628 | the entity loop builds the file map |
| Carousel.FilesOfContents | web-bml-ts/src/decode_ts.ts:604-628 | the map holds one file per location some entity yields, under that location, and it is the file of the last entity with that location |
| Carousel.ModuleFiles | web-bml-ts/src/decode_ts.ts:596-650 | a module with a media type other than multipart/mixed is one file with no location; otherwise its files come from the entity parser and there are none iff the parser finds no multipart body |
| Carousel.ModuleData | web-bml-ts/src/decode_ts.ts:587-590 | the module bytes are the concatenated blocks, inflated only for compression type 0 |
| Decoder.PmtIgnored | web-bml-ts/src/decode_ts.ts:249-253 | with two or more programs in the PAT, a PMT whose PID is not the wanted program's changes nothing |
| Decoder.PmtApplied | web-bml-ts/src/decode_ts.ts:254-316 | a selected PMT replaces the PID map and private PES set; it replaces the component map and sends one `pmt` message in insertion order exactly when the set of component ids changes |
| Decoder.WholePesSentOnce | web-bml-ts/src/decode_ts.ts:319-341 | a PES packet with the right length, over a start packet and continuation packets, is decoded once when its last byte arrives, and the buffer is emptied; by `Decoder.PacketsFeed` this holds of the handler |
| Decoder.PacketsFeed | web-bml-ts/src/decode_ts.ts:319-341 | on a private PES PID, a run of packets through the `packet` handler moves that PID's buffer and the sent messages exactly as `FeedPes` does, and keeps the set of private PES PIDs |
| Decoder.PartialFeed | web-bml-ts/src/decode_ts.ts:322-333 | before its last packet, the buffer holds the bytes gathered so far and nothing is sent; by `Decoder.PacketsFeed` this holds of the handler |
| Decoder.DiiRepeatIgnored | web-bml-ts/src/decode_ts.ts:475-477 | a DII with the component's tracked transaction id changes nothing |
| Decoder.DiiReplacesComponent | web-bml-ts/src/decode_ts.ts:472-540 | any other DII that does not throw sends one `moduleListUpdated` and replaces the component's download state: each listed id gets empty slots by `ceil(moduleSize / blockSize)`, zero counts and its version; the cache and component maps are kept |
| Decoder.DiiThrowsChangesNothing | web-bml-ts/src/decode_ts.ts:493-523 | a DII throws only for a zero block size or a short descriptor, and then changes nothing |
| Decoder.DdbRejected | web-bml-ts/src/decode_ts.ts:542-576 | a DDB for an unknown component or module, another version, a block number past the table or a filled slot changes nothing |
| Decoder.DdbFillsOneSlot | web-bml-ts/src/decode_ts.ts:577-580 | an accepted DDB fills exactly its slot, the block count rises by one and stays the filled count and at most the slot count, and the module count rises iff the module completes |
| Decoder.AfterDdbs | web-bml-ts/src/decode_ts.ts:541-580 | a run of DDB sections keeps the invariant |
| Decoder.DdbsDeliver | web-bml-ts/src/decode_ts.ts:541-580 | a run of DDB sections for one module leaves it as `Carousel.Deliver` gives, so the slot, order and assembly results about `Deliver` hold of the decoder |
| Decoder.CachedVersionNotResent | web-bml-ts/src/decode_ts.ts:591-595 | a completed module whose version is cached sends nothing and leaves the cache |
| Decoder.NewVersionCached | web-bml-ts/src/decode_ts.ts:581-665 | a completed module of a new version replaces its cache entry, other components' caches kept, and its files are sent in one `moduleDownloaded` exactly when they could be read |
| Decoder.InflateFailureThrows | web-bml-ts/src/decode_ts.ts:588-590 | a zlib module that does not inflate throws, sending nothing and leaving the cache |
| Decoder.DiiKeepsValid | web-bml-ts/src/decode_ts.ts:493-540 | a DII keeps every module's count equal to its filled slots and its key equal to its id |
| Decoder.DdbKeepsValid | web-bml-ts/src/decode_ts.ts:563-580 | a DDB keeps that invariant |
| Decoder.DdbFrame | web-bml-ts/src/decode_ts.ts:542-666 | a DDB changes only its own component's download state and never the component maps |
| Decoder.PmtKeepsValid | web-bml-ts/src/decode_ts.ts:247-316 | a PMT keeps the invariant |
| Decoder.DsmccKeepsValid | web-bml-ts/src/decode_ts.ts:452-744 | every DSM-CC section keeps the invariant |
| Decoder.TsDecoder.constructor | web-bml-ts/src/decode_ts.ts:46-109 | the decoder starts with empty maps, no program, no private PES and nothing sent |
| Decoder.TsDecoder.OnPat | web-bml-ts/src/decode_ts.ts:111-129 | the `pat` handler replaces the PAT map and the smallest program number |
| Decoder.TsDecoder.OnPmt | web-bml-ts/src/decode_ts.ts:247-316 | the `pmt` handler moves the state as `AfterPmt` says, keeping the invariant |
| Decoder.TsDecoder.ApplyPmt | web-bml-ts/src/decode_ts.ts:254-316 | the selected PMT is applied as `AfterPmt` says, keeping the invariant |
| Decoder.TsDecoder.OnPacket | web-bml-ts/src/decode_ts.ts:319-341 | the `packet` handler gathers private PES packets and decodes a complete one, as `AfterPacket` says |
| Decoder.TsDecoder.OnDsmcc | web-bml-ts/src/decode_ts.ts:452-458 | a section on a PID without a component is dropped; others go to the handler of their table id |
| Decoder.TsDecoder.OnDii | web-bml-ts/src/decode_ts.ts:458-540 | the DII handler moves the state as `AfterDii` says, keeping the invariant |
| Decoder.TsDecoder.OnDdb | web-bml-ts/src/decode_ts.ts:541-576 | the DDB handler's gate, then the block stored, as `AfterDdb` says |
| Decoder.TsDecoder.StoreAcceptedBlock | web-bml-ts/src/decode_ts.ts:577-580 | an accepted block is stored and the module completed when it was the last one missing, as `AfterAccepted` says |
| Decoder.TsDecoder.CacheModule | web-bml-ts/src/decode_ts.ts:591-665 | the cached-version check, the files, the `moduleDownloaded` message and the cache update, as `AfterModuleData` says |
| Decoder.TsDecoder.CompleteModule | web-bml-ts/src/decode_ts.ts:581-665 | a completed module is inflated, version-checked, split into files, sent and cached as `AfterComplete` says |
| Decoder.TsDecoder.OnStreamEvent | web-bml-ts/src/decode_ts.ts:667-743 | the stream-descriptor handler appends one `esEventUpdated` carrying the section's events (as `StreamEvents.SectionEvents` gives them) and `table_id_extension >> 12`, and changes nothing else |
| HandlerSyntax.ParseEnding | client/event.ts:272 | what follows `)` matches iff it is white space, an optional `;` and white space, and the match renders back to the input |
| HandlerSyntax.ParseParens | client/event.ts:272 | the `(` `)` part matches only strings of the grammar, and renders back to the input |
| HandlerSyntax.Parse | client/event.ts:272 | a match is a well-formed handler call that renders back to the input |
| HandlerSyntax.FunctionNameIsGroup | client/event.ts:272-275 | the `funcName` group exists iff the attribute matches, is the matched call's function name, and is an identifier |
| HandlerSyntax.ScanRender | client/event.ts:272-275 | the scanner finds the function name of every well-formed handler call written out |
| HandlerSyntax.ParseRender | client/event.ts:272 | every string of the grammar matches, and its pieces come back whole |
| HandlerSyntax.BlankPatternNeverMatches | client/event.ts:269-271 | the blank-handler pattern matches no string |
| HandlerSyntax.BlankHandlerRejected | client/event.ts:269-275 | a handler of white space alone does not match, so running it throws |
| Events.GetAttribute | client/event.ts:215 | `getAttribute` gives the value iff the attribute is present |
| Events.ResetQueue | client/event.ts:374-382 | a reset empties both queues and the timers and releases the lock |
| Events.Apply | client/event.ts:268-280 | a handler's reset comes first; what it queued goes at the tails; without a reset the lock and timers are kept |
| Events.ExecuteFollowsGrammar | client/event.ts:268-280 | an attribute that does not match throws before anything runs; otherwise the interpreter runs the named function and its reaction is applied |
| Events.Dispatch | client/event.ts:210-253 | a focus, blur or click returns false iff it clears the current event; otherwise its event stays current; a missing or empty handler clears it and returns false |
| Events.TaskOutcome | client/event.ts:98-122 | a beitem task clears its current event iff its handler returned false, and otherwise leaves it current; a script callback leaves the current event alone |
| Events.Head | client/event.ts:309-338 | the next unit is the head of the sync queue if there is one, else the head of the async queue |
| Events.Take | client/event.ts:312-313 | taking a unit raises the lock by one and shifts it off its queue |
| Events.Unlocked | client/event.ts:327-331 | the `finally` lowers the lock by one and changes nothing else |
| Events.Drain | client/event.ts:304-353 | a drain runs at most its bound of units |
| Events.ExecuteWithoutReset | client/event.ts:268-280 | a handler that does not reset keeps the lock and timers and only appends to the queues |
| Events.RunUnitWithoutReset | client/event.ts:309-350 | the same holds for a whole unit |
| Events.RunUnitLockBound | client/event.ts:309-350 | a unit leaves the lock as it found it or resets it to 0 |
| Events.NormalDrainEmpties | client/event.ts:304-353 | a drain that returns false from an unlocked queue leaves both queues empty and the lock at 0, and leaves no event current if none was |
| Events.ExitKeepsLock | client/event.ts:310-331 | for handlers that do not reset the queue, an exit leaves the lock held once, after at least one unit, and a throw leaves it released |
| Events.ExitLeavesRestQueued | client/event.ts:315-317 | for handlers that do not reset the queue, an exit returns at once, after one unit, and everything behind that unit stays queued |
| Events.SyncQueuedByTaskRunsNext | client/event.ts:305-333 | a sync event queued by an async task runs before the next async task |
| Events.LockedDrainIsNoOp | client/event.ts:306-308 | a drain that finds the lock taken runs nothing and changes nothing |
| Events.ResetThenFalseStallsQueue | client/event.ts:304-352 | for any unit that resets the queue and returns false from an unlocked queue, the drain throws after it with the lock at -1, and every later drain at that lock, whatever is queued, runs nothing and returns false |
| Events.ResetThenFalseExample | client/event.ts:334-349 | an async callback whose reaction resets the queue and returns false meets those conditions: the drain throws with the lock at -1 after running it |
| Events.Onoccur | client/event.ts:96-97 | a beitem has a handler iff its `onoccur` is present and not empty |
| Events.TaskFor | client/event.ts:90-124 | a beitem gets a task iff it is subscribed, its `module_ref` matches the module ignoring case (for the module events), and it has a handler; the task carries the event type, status and module |
| Events.LockedNotifyQueuesTasks | client/event.ts:87-127 | while the lock is held, the walk queues one task per matching beitem, in document order, and runs none |
| Events.EventQueue.constructor | client/event.ts:263-302 | the queue starts with empty queues, no timers and the lock at 0 |
| Events.EventQueue.QueueSyncEvent | client/event.ts:355-357 | the event goes at the tail of the sync queue, nothing else changes |
| Events.EventQueue.QueueAsyncEvent | client/event.ts:359-361 | the task goes at the tail of the async queue, nothing else changes |
| Events.EventQueue.LockSyncEventQueue | client/event.ts:363-365 | the lock rises by one |
| Events.EventQueue.UnlockSyncEventQueue | client/event.ts:367-372 | the lock falls by one, and it throws iff the lock is then below 0 |
| Events.EventQueue.ResetEventQueue | client/event.ts:374-382 | both queues are emptied, every registered timer is cleared, the set is emptied and the lock released |
| Events.EventQueue.BmlSetTimeout | client/event.ts:283-287 | the timer's handle is registered and returned |
| Events.EventQueue.BmlSetInterval | client/event.ts:289-293 | the interval's handle is registered and returned |
| Events.EventQueue.BmlClearInterval | client/event.ts:295-298 | the handle is removed from the registered set |
| Events.EventQueue.React | client/event.ts:277 | what a handler did is applied to the queue |
| Events.EventQueue.ExecuteEventHandler | client/event.ts:268-280 | the method moves the queue and returns the completion as `Execute` says |
| Events.EventQueue.RunCallback | client/event.ts:338-344 | a queued script callback runs as the interpreter says |
| Events.EventQueue.RunNextUnit | client/event.ts:309-344 | one turn of the loop is the lock, the shift and the run of `Step` |
| Events.EventQueue.ProcessEventQueue | client/event.ts:304-353 | the loop ends in the state, with the units run and the end, that `Drain` gives |
| Events.EventDispatcher.constructor | client/event.ts:56-63 | the dispatcher starts on its queue with no current event |
| Events.EventDispatcher.DispatchSyncEvent | client/event.ts:210-253 | `dispatchFocus`, `dispatchBlur` and `dispatchClick` act as `Dispatch` says |
| Events.EventDispatcher.RunTask | client/event.ts:98-122 | a queued task runs as `TaskOutcome` says |
| Events.EventDispatcher.NotifyBeitems | client/event.ts:90-126 | the beitem walk queues each matching task and drains, as `AfterBeitems` says |
| Events.EventDispatcher.EventQueueOnModuleLocked | client/event.ts:87-127 | ModuleLocked beitems for the module get their tasks |
| Events.EventDispatcher.EventQueueOnModuleUpdated | client/event.ts:129-169 | ModuleUpdated beitems for the module get their tasks |
| Events.EventDispatcher.DispatchDataButtonPressed | client/event.ts:171-208 | DataButtonPressed beitems get tasks with status 0 and no module |
| Dom.FixImageSize | web-bml/src/interface/DOM.ts:430-451 | there is no size iff the type, ignoring case, is not JPEG, PNG or MNG; a JPEG at 720x480 gets the largest even width not above its own; another JPEG is halved and rounded down unless it is 960x540; PNG and MNG keep their size |
| Dom.ImageTypeCaseInsensitive | web-bml/src/interface/DOM.ts:431 | the size does not depend on the case of the type |
| Dom.FixedSizeStable720x480 | web-bml/src/interface/DOM.ts:435-441 | a size already fixed for a 720x480 JPEG stays as it is |
| Dom.StreamStatus | web-bml/src/interface/DOM.ts:713-722 | a `streamstatus` attribute is returned as is; without one the status is "stop" iff the type, ignoring case, can be stopped, and "play" iff not |
| Dom.TypeOf | web-bml/src/interface/DOM.ts:625-630 | the `type` getter gives the `arib-type` attribute when present, else the `type` attribute, else "" |
| Dom.AribTypeTakesPrecedence | web-bml/src/interface/DOM.ts:713-722 | with an `arib-type` attribute, the default status does not depend on the `type` attribute and is "stop" iff the `arib-type`, ignoring case, can be stopped |
| Dom.WithFlag | web-bml/src/interface/DOM.ts:648-653 | setting a boolean attribute reads back what was set and changes no other attribute |
| Dom.BmlElement.SetRemain | web-bml/src/interface/DOM.ts:645-654 | after the setter `remain` reads as the value set, and no other attribute changes |
| Dom.BmlElement.SetSubscribe | web-bml/src/interface/DOM.ts:1055-1064 | after the setter `subscribe` reads as the value set, and no other attribute changes |
| Dom.BmlElement.SetInvisible | web-bml/src/interface/DOM.ts:841-851 | after the setter `invisible` reads as the value set, and the event sent to the browser carries that value |
| Dom.FocusTransfer | web-bml/src/interface/DOM.ts:158-171 | nothing happens when the node already has the focus or cannot take it; otherwise the focus moves and a blur for the previous focus, if any, then a focus for the node are queued |
| Dom.BmlDocument.Focus | web-bml/src/interface/DOM.ts:158-171 | `focus` moves the focus and appends those events to the sync queue without draining it |
| Dom.HasFeature | web-bml/src/interface/DOM.ts:1139-1141 | a supported feature has a three-letter name and version "1.0" |
| Dom.HasFeatureSpellings | web-bml/src/interface/DOM.ts:1139-1141 | `hasFeature` holds exactly for "BML" in any ASCII case with version "1.0" |

## Left out

- Foreign calls are parameters of the model (the `Carousel.Codec` record), so their behaviour is
  not modelled. These are zlib's `inflateSync`, `EntityParser.readEntity`, `parseMediaType`,
  `parseMediaTypeFromString` and `entityHeaderToString`.
- The demultiplexer library's per-PID buffer is not part of this model. It is assumed to start
  with expected length 0 and to keep that length across a reset.
- Handlers and messages left out:
  - the PCR handling after the private PES part of the `packet` handler;
  - the `tdt`, `tot`, `eit`, `bit`, `sdt`, `nit`, `drop` and `info` handlers;
  - the `error` messages.
- File data is kept as bytes: the base64 text of `moduleDownloaded` is not modelled.
- Unicode is left out. Case mapping and white space are ASCII plus the `\s` class, with no
  Unicode case mapping.
- Models use values, not aliasing. The cached module shares its record with the download state
  in the source; the model stores a copy, which is equal because nothing changes the record
  after completion.
- Asynchrony is left out:
  - units run one after another to completion, as the single script thread runs them;
  - the promises of `processEventQueue` called from the beitem walk are not awaited, and the
    model runs each drain to its end before the walk goes on.
- The script interpreter is an oracle (`Events.Interpreter`), keyed by the function name and the
  count of handlers run. Its effects other than queueing events and resetting the queue are not
  modelled. Within one handler, its reset is taken to come before what it queued.
- `Events.Drain`: runs at most `fuel` units; a drain that would run longer ends in `OutOfFuel`,
  which the source has no counterpart for.
- `Events.EventQueue.ProcessEventQueue`: takes the same `fuel` bound.
- Window timers are left out. The handle `setTimeout`/`setInterval` returns is a parameter;
  clearing a timer is recorded as the set of handles cleared.
- The focusability test depends on computed style, so it is a parameter of the document
  (`isFocusable`).
- Elements:
  - an element is its identity and its attributes, and an event target is that snapshot;
  - the BML wrappers of nodes and the `setCurrentEvent` record fields other than type, target,
    status and module are not modelled;
  - the `invisible` event sent to the browser is its detail.
- Left out of the document object model:
  - the `streamStatus` branch for an MNG animation that has finished;
  - `streamPosition`;
  - the `data` setter of objects;
  - CSS;
  - console logging.
