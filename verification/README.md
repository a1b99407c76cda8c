# A Dafny model of the device gateway's core

The gateway connects EdgeX to Modbus, SNMP, MQTT, OPC UA and HTTP devices. This project models the parts of it that carry
state, arithmetic and inverse pairs, and proves what they are for. `dafny verify dfyconfig.toml` checks everything.

| file | what it models |
|---|---|
| `Basics`, `Text` | option and exception types, big-endian values, `split`/`join`, decimal and hexadecimal numerals |
| `Ber`, `Oid`, `IntegerOctets` | the BER codec of `simulator/snmp.py`: TLV headers, base-128 arcs, two's-complement integers (ITU-T X.690, sections 8.1.3, 8.3 and 8.19) |
| `SnmpMessage`, `KnownPackets`, `SnmpAgent` | the nested message (section 3 of RFC 1901, section 3 of RFC 3416), its octets written out, and the simulator process: a mutable OID store behind the packet handler |
| `GoTypes` | 16-bit arithmetic, Go's `any`, and the attribute loop that turns a command request into a resource |
| `RegisterCodecs` | the MAC, IPv4 and uint32 codecs between user values and registers |
| `Registers`, `ModbusDevice` | windows of device cells, merging writes, and the data block of `simulator/modbus.py` |
| `ModbusPoints`, `ModbusReads`, `ModbusWrites`, `ModbusClient` | the batch engine in 16-bit arithmetic: spans, batch reads, batch writes, and the client that runs them on a device |
| `Connector` | the handlers that decode and encode around the engine |
| `EndToEnd`, `SystemTimeCommand` | values written through the handlers and read back through them; the System-Time command as an instance |
| `ConfigCache`, `ConfigContents` | the lock-free config cache: threads interleaving atomic `Load`, `LoadOrStore`, `Store` and `Delete` steps; what the returned configs contain, and that no call waits |
| `EventPipeline` | non-blocking listeners, one bounded channel, one consumer; each HTTP request sends on the channel and writes its answer in two separate steps |
| `ClientPool` | the bounded pool of connected clients |
| `SnmpBatch` | the SNMP batch read: one Get, answers scattered back by name |
| `ProfileTable`, `ProfileTrip` | the two profile converters between a table of rows and a profile of resources and commands; the trip that starts from rows, and the one that starts from a profile |

Code that updates state in place is modelled by classes and methods over arrays and fields, each proved equal to a
specification function; the properties are then lemmas about those functions, for every input, run or interleaving.
Every lemma states its induction itself: none relies on the verifier's automatic induction.

## What the proofs found

Each condition below is exact, and comes with an input on its failing side.

- `decode_oid` splits the first octet by 40; the round trip holds exactly for a second arc below 40
  (`Oid.DecodeOfOidValue`). 2.40 comes back as 3.0 (`Oid.SecondArcExample`), and on the wire the two are the same
  identifier (`SnmpMessage.SameOnTheWireExample`).
- Integer answers use one octet too many exactly for -2^7, -2^15, -2^23 and so on (`IntegerOctets.CountIsMinimal`,
  `IntegerOctets.NotMinimalExample`).
- A SET integer with its sign bit set is answered as a positive number: the signed value survives exactly when the first
  octet is below 128 (`SnmpAgent.IntegerSetThenGet`). 0xFF, which is -1, is answered with 255
  (`SnmpAgent.NegativeSetExample`).
- A batch read serves a point exactly when its 16-bit end does not wrap, or when every point's end wraps and still lies
  in the address space; the others silently keep their old value (`ModbusReads.BatchAgreesWithSingles`). Register 65534
  with two cells, read together with 65530, is one of them (`ModbusReads.UnservedExample`).
- A batch read takes every point from the table of the first one; that is the value of a single read, whatever the device
  holds, only for points of that table (`ModbusReads.OnlyItsOwnTable`).
- A batch write can stand in for the single writes exactly if every value could be written singly, the cells follow each
  other without gap and end inside the address space, or if both are refused at once (`ModbusWrites.BatchWriteExactly`).
  This is up to the Modbus library's own limits on the quantity of one request, which are not modelled: a batch that is
  too long for one request but whose values are not fails where the single writes go through.
  It fails for registers 1 and 3 (`ModbusWrites.GapExample`), for two coils in one value
  (`ModbusWrites.CoilSliceExample`), and past the last address (`ModbusWrites.AddressSpaceExample`).
- A written value that fills the cells of its request comes back from them, in normal form, exactly if encoder and
  decoder match, or there is neither and the value is an array just if `Length` is above one
  (`EndToEnd.ReportedIffCarried`). A `Uint16Array` of one register is accepted on write and fails on read
  (`EndToEnd.OneRegisterArrayExample`). Over a whole batch every value comes back exactly if this holds of each and the
  batch read serves every point (`EndToEnd.WriteThenRead`).
- Answers to HTTP pushes can overtake each other, so the payloads confirmed with 200 agree with the accepted ones as
  multisets once no request is pending, but not in order (`EventPipeline.HttpConfirmsExactlyAccepted`,
  `EventPipeline.AnswersMayOvertake`).
- HTTP events are answered 200 and queued, but the consumer has no decoder for their source, so not one of them is ever
  forwarded (`EventPipeline.HttpNeverForwarded`).
- Names come back from the SNMP session with a leading dot while the batch index uses the OID as the profile spells it:
  a batch read that succeeds gives a point the value of its single read exactly if the OID is written with that dot and
  no later point asks for the same one; any other point keeps its old value (`SnmpBatch.BatchAgainstSingles`). The
  repository's own SNMP profile writes OIDs without the dot (`SnmpBatch.UndottedExample`), and of two points with the
  same dotted OID only the second is served (`SnmpBatch.DuplicateExample`).
- A profile built from rows is unchanged by the trip through CSV exactly when rows of one resource agree on command and
  mappings and no mappings document is falsy (`ProfileTable.ConversionFixedPoint`). One resource under two commands is
  changed (`ProfileTable.TwoCommandsExample`). A profile from anywhere is unchanged exactly when its labels and optional
  entries fit their cells, no mappings document is falsy, and its commands have different names, share no resource, list
  their operations in the order of the resources and stand in the order in which these first need them
  (`ProfileTrip.ProfileFixedPoint`). One trip settles any profile: further trips change nothing
  (`ProfileTrip.OneTripSettles`).
- The pool's own comment speaks of keys `<protocol>:<endpoint>` (pkg/protocol/poller.go:19), but the code keys by endpoint
  alone; the model follows the code, and `ClientPool.SameClient` shows that a later call gets the pooled client whichever
  protocol it names.

## Model

| member | source | states |
|---|---|---|
| `Ber.ParseTlv` | simulator/snmp.py:134-151 | a parse yields a field exactly if two octets are left, nothing exactly at the end of the data, an exception otherwise; with a field the offset moves at least two octets forward |
| `Ber.EncodeLen` | simulator/snmp.py:153-159 | a length is encodable exactly below 65536 |
| `Ber.TlvInContext` | simulator/snmp.py:134-159 | parsing at a printed field gives its tag, its value and the offset just past it, whatever bytes stand before and after |
| `Ber.TlvPrefixFree` | simulator/snmp.py:134-159 | two texts that are equal and both start with a printed field start with the same field |
| `Ber.LongForm` | simulator/snmp.py:134-151 | the reader takes any definite long form with up to 127 length octets, also those the printer never writes |
| `Ber.CutShort` | simulator/snmp.py:134-151 | a value cut short by the end of the data is returned short, with the offset its header announced |
| `Oid.DecodeOfEncodeArcs` | simulator/snmp.py:161-194 | the base-128 reader inverts the writer for any number of arcs of any size |
| `Oid.EncodeArcsCanonical` | simulator/snmp.py:175-194 | the writer starts no subidentifier with 0x80 and emits exactly one octet without continuation bit per arc |
| `Oid.EncodeOfDecodeFrom` | simulator/snmp.py:161-194 | re-encoding what was read from canonical octets gives the octets back, from any point inside an arc |
| `Oid.DecodeOfOidValue` | simulator/snmp.py:161-194 | the value octets decode to the same arcs if and only if the second arc is below 40 |
| `Oid.OidValueInjective` | simulator/snmp.py:175-194 | different valid identifiers have different octets |
| `Oid.OidValueOfDecode` | simulator/snmp.py:161-194 | for any non-empty octets, with any first octet, re-encoding the decoding reproduces them if and only if the rest is canonical |
| `Oid.EncodeOidTextDomain` | simulator/snmp.py:175-194 | `encode_oid` succeeds exactly if the text parses, the first octet is below 256 and the value is shorter than 65536 octets, computed from the arcs; and the size of its result |
| `Oid.OidTextRoundTrip` | simulator/snmp.py:161-194 | for any arcs with a first octet below 256 and fewer than 65536 octets: the dotted text encodes, and its value decodes to the same text if and only if the second arc is below 40 |
| `Oid.SecondArcExample` | simulator/snmp.py:161-194 | 2.40 is encoded as the octet 120 and comes back as 3.0 |
| `Oid.DotsAround` | simulator/snmp.py:175-194 | a dot before or after the text changes nothing |
| `Oid.ShortOid` | simulator/snmp.py:175-194 | a text of one arc gets the octets 06 01 00 |
| `Oid.UnfinishedArc` | simulator/snmp.py:161-173 | an arc whose last octet is missing is dropped |
| `Oid.DecodeOid` | simulator/snmp.py:161-173 | the accumulating loop computes the recursive reader's text for all octets, the empty ones included |
| `Oid.EncodeOneArc` | simulator/snmp.py:184-191 | the shrinking loop (`p >>= 7`) terminates and emits the arc's septets with the last continuation bit cleared |
| `Oid.EncodeOid` | simulator/snmp.py:175-194 | the TLV of the text's arcs, the three-octet default for fewer than two arcs, an exception for a bad part, a first octet above 255 or a value of 65536 octets |
| `SnmpMessage.Unpack` | simulator/snmp.py:199-226 | whatever is accepted has a version, a community, a request id and a request PDU tag |
| `SnmpMessage.EncodeDomain` | simulator/snmp.py:259-279 | a message can be built exactly if the identifier parses, its first octet is below 256 and the outermost content, computed from the lengths of the fields, is below 65536 octets |
| `SnmpMessage.MessageRoundTrip` | simulator/snmp.py:199-279 | every message that meets that condition is built and, with any bytes after it, unpacks to exactly its fields if its tag is a request tag and to None otherwise |
| `SnmpMessage.OidSurvives` | simulator/snmp.py:161-226 | inside a message any OID text that can be encoded comes back as the same text if and only if it has at least two arcs, the second below 40, and is written without dots around it or superfluous zeros |
| `SnmpMessage.SameOnTheWireExample` | simulator/snmp.py:161-226 | 2.40 and 3.0 are both received as 3.0 |
| `SnmpMessage.ResponseIsNoRequest` | simulator/snmp.py:199-279 | a reply is never taken for a request |
| `SnmpMessage.MessageInjective` | simulator/snmp.py:259-279 | two messages with the same octets, of whatever PDU tags, were built from the same fields, the OID up to how it is received |
| `SnmpMessage.OtherEnvelope` | simulator/snmp.py:199-206 | data that is not inside a SEQUENCE is no request |
| `KnownPackets.KnownLengths` | simulator/snmp.py:153-159 | the length octets of 5, 127, 200 and 300 |
| `KnownPackets.KnownOctets` | simulator/snmp.py:175-194 | 1.3.6.1.4.1.28866 is 2b 06 01 04 01 81 e1 42 |
| `KnownPackets.ShortLayout` | simulator/snmp.py:259-279 | every octet of a request or response for that object, for any short fields; a response has tag a2 |
| `IntegerOctets.SignedRoundTrip` | simulator/snmp.py:251-254 | the chosen octet count holds every integer, and its octets read back as it |
| `IntegerOctets.CountIsMinimal` | simulator/snmp.py:251-254 | no shorter count holds the integer, if and only if it is not the lowest of a whole number of octets |
| `IntegerOctets.NotMinimalExample` | simulator/snmp.py:251-254 | -128 fits one octet and gets two |
| `SnmpAgent.Agent.ProcessSetRequest` | simulator/snmp.py:228-239 | the store is updated at that OID only, an integer as its unsigned value, anything else as text; no data is an exception and no update; an integer too long to log is an exception after the update |
| `SnmpAgent.Agent.ProcessGetRequest` | simulator/snmp.py:241-257 | the answer for the entry, the entry one level up, or `No_Data`; an exception if it is an integer too long to log |
| `SnmpAgent.Agent.HandlePacket` | simulator/snmp.py:281-302 | store and reply after one datagram, malformed ones included |
| `SnmpAgent.StoreHoldsCurrent` | simulator/snmp.py:228-257 | after any run of datagrams the store holds, for each OID, its latest write, else its default |
| `SnmpAgent.ReadAfterRun` | simulator/snmp.py:241-257 | after any run a read answers with the latest write, else the default, else for `.0` the current entry one level up, else `No_Data` |
| `SnmpAgent.StoreIsLastSet` | simulator/snmp.py:228-239 | after any run of datagrams the entry of an OID is the value of the last SET datagram for it, an integer read as unsigned and anything else as text, and the default if there was none |
| `SnmpAgent.MissingEntry` | simulator/snmp.py:241-257 | an OID without an entry is answered from the entry without its last `.0`, else with `No_Data` |
| `SnmpAgent.WireSetThenGet` | simulator/snmp.py:199-302 | after a SET datagram of an OID and any datagrams that do not set it again, a GET or GETNEXT for it, or for any spelling received as the same text, is answered with exactly the response packet for that SET: tag 02 with the signed octets of the unsigned integer if the tag was 02, else tag 04 with the text coded again; it is answered if that value can be logged and the response's content is below 65536 octets, and not otherwise |
| `SnmpAgent.TextSetThenGet` | simulator/snmp.py:199-302 | a value that was not set as INTEGER, and that survives decoding and encoding, comes back octet for octet under tag 04 |
| `SnmpAgent.WireSetReply` | simulator/snmp.py:228-302 | a SET is acknowledged with its own tag and octets, exactly if its value can be logged |
| `SnmpAgent.IntegerSetThenGet` | simulator/snmp.py:228-257 | an integer SET is answered with octets of that unsigned value; the signed value survives if and only if there was no sign bit |
| `SnmpAgent.NegativeSetExample` | simulator/snmp.py:228-257 | a SET of 0xFF, which is -1, is answered with the octets of 255 |
| `SnmpAgent.RepliesAreInert` | simulator/snmp.py:281-302 | a reply looped back to the agent changes nothing and gets no answer |
| `GoTypes.NewResource` | pkg/model/resource.go:34-58 | the resource a request denotes, in whatever order the attributes are visited: name and type are the request's, and exactly the attributes without a field of their own are its arguments |
| `GoTypes.NewResourceN` | pkg/model/resource.go:76-82 | one resource per request, at the same index |
| `GoTypes.VisitAttribute` | pkg/model/resource.go:41-56 | visiting one more attribute turns the resource of those seen so far into the resource of those and this one |
| `RegisterCodecs.ReadOfWrite` | pkg/parser/decoder.go:30-65 | a printed MAC or IPv4 address reads back as its octets, and is in canonical form |
| `RegisterCodecs.WriteOfRead` | pkg/parser/encoder.go:32-78 | printing what was read gives the same text if and only if the text was canonical |
| `RegisterCodecs.AddressDomain` | pkg/parser/encoder.go:32-78 | exactly the texts of six hexadecimal parts between colons, or four decimal ones between dots, each below 256, are addresses |
| `RegisterCodecs.EncodeOfDecode` | pkg/parser/decoder.go:13-81 | encoding the decoded registers gives the same registers: three for MAC, two for IPv4 and uint32 |
| `RegisterCodecs.DecodeOfEncode` | pkg/parser/encoder.go:15-90 | decoding the encoded registers gives the value's normal form, the same value if and only if it was normal; the normal form is stable and has the same registers |
| `RegisterCodecs.EncodeAddressText` | pkg/parser/encoder.go:32-78 | the buffer-filling loop with early error return computes the registers of the address, or the error |
| `RegisterCodecs.MacLayout` | pkg/parser/decoder.go:30-47 | the text of a MAC address digit by digit, high half of each register first; registers after the third are ignored |
| `RegisterCodecs.IpLayout` | pkg/parser/decoder.go:50-65 | the same for IPv4, in decimal |
| `RegisterCodecs.Uint32Layout` | pkg/parser/decoder.go:69-81 | the first register is the high word |
| `Text.ParseDomain` | pkg/parser/encoder.go:42-48 | a numeral is read exactly if it is not empty and has only digits of its base, hexadecimal ones in either case |
| `Registers.WindowAfterStore` | simulator/modbus.py:41-65 | a window inside a write reads back as written, a window apart from it is untouched |
| `Registers.OneStoreForAll` | pkg/adapter/modbus/modbus.go:198-229 | writing gap-free pieces in turn equals writing their concatenation once |
| `Registers.MergeExactlyGapFree` | pkg/adapter/modbus/modbus.go:198-229 | the merge is unobservable for every memory and all values in the same places, bits in bit tables, if and only if the pieces are gap-free |
| `Registers.GapFreeReadBack` | pkg/adapter/modbus/modbus.go:198-229 | after the merged write, of registers or of bits in a bit table, every piece reads back from its own place |
| `ModbusDevice.JsonDataBlock.GetValues` | simulator/modbus.py:41-57 | the window one below the given address; on an empty block a register is its own address and a bit is on at even addresses |
| `ModbusDevice.JsonDataBlock.SetValues` | simulator/modbus.py:59-65 | the whole new memory: exactly the cells from one below the address are replaced |
| `ModbusDevice.Device.Read` | pkg/adapter/modbus/modbus.go:255-266 | over a line that is up a read succeeds exactly if it asks for at least one cell inside the address space, and returns the cells of the named table |
| `ModbusPoints.CalculateBatchSpan` | pkg/adapter/modbus/modbus.go:269-290 | the least address, and the greatest 16-bit end less it in 16 bits, wrap-around included |
| `ModbusPoints.SpanIsTightCover` | pkg/adapter/modbus/modbus.go:269-290 | without wrap-around every window lies inside the span and no smaller interval holds them all |
| `ModbusReads.AssignResValues` | pkg/adapter/modbus/modbus.go:293-303 | every point gets the value of its slice of the wide read if that lies inside it, in place, and keeps its value otherwise |
| `ModbusReads.BatchAgreesWithSingles` | pkg/adapter/modbus/modbus.go:132-164 | from the wide read a served point gets exactly the value of a single read on the same snapshot and any other point keeps its value; points may overlap, be sparse and come in any order |
| `ModbusReads.UnservedExample` | pkg/adapter/modbus/modbus.go:293-303 | 65530 with three cells and 65534 with two: the read can be answered, and the second point is left without a value |
| `ModbusReads.OnlyItsOwnTable` | pkg/adapter/modbus/modbus.go:146-164 | reading a point from a table gives its own table's value, whatever the device holds, if and only if it is the same table |
| `ModbusReads.SingleShowsOwnCells` | pkg/adapter/modbus/modbus.go:132-143 | a single read shows, cell by cell from one below the address, coils for "COILS", discrete inputs for "DISCRETES", input registers for "INPUT_REGISTERS" and holding registers for anything else |
| `ModbusWrites.ToSliceBatch` | pkg/adapter/modbus/modbus.go:347-370 | the appending loop yields all cells in list order, or the error of a value of the wrong type |
| `ModbusWrites.BatchWriteAgreesWithSingles` | pkg/adapter/modbus/modbus.go:167-229 | where one write will do, batch write and single writes in order both go through with the same memory, and no cell outside the window changes |
| `ModbusWrites.BatchWriteExactly` | pkg/adapter/modbus/modbus.go:167-229 | batch write and single writes agree on result and memory, for every memory and all contents of the values (bits for coils), if and only if one write will do or both are refused at once |
| `ModbusWrites.WillDoByAddresses` | pkg/adapter/modbus/modbus.go:198-229 | with addresses from 1, one write will do exactly if every value could be written singly (one bool a coil), each point begins where the previous one's values end, and the last cell lies in the address space |
| `ModbusWrites.SamePlacesAccepted` | pkg/adapter/modbus/modbus.go:167-229 | whether a write is refused depends on addresses and forms of the values, not on their contents |
| `ModbusWrites.GapExample` | pkg/adapter/modbus/modbus.go:198-229 | registers 1 and 3: the batch puts the second word into register 2 |
| `ModbusWrites.CoilSliceExample` | pkg/adapter/modbus/modbus.go:167-229 | two coils in one value: the batch stores both, the single write is refused |
| `ModbusWrites.AddressSpaceExample` | pkg/adapter/modbus/modbus.go:167-229 | past the last address the batch stores nothing, the first single write goes through |
| `ModbusWrites.ConsecutiveReadBack` | pkg/adapter/modbus/modbus.go:198-229 | after the batch write, of coils as of registers, each point's own window holds the cells it contributed |
| `ModbusWrites.SingleWritesOwnCells` | pkg/adapter/modbus/modbus.go:167-194 | a single write stores, cell by cell from one below the address, one bool for "COILS" and one or several words that fit for any name of no other table; "DISCRETES" and "INPUT_REGISTERS" are refused |
| `ModbusClient.Client.ReadSingle` | pkg/adapter/modbus/modbus.go:132-143 | succeeds exactly if the line is up and the window lies in the address space; then the point alone changes and shows its own cells of the table it names; on failure nothing changes |
| `ModbusClient.Client.ReadBatch` | pkg/adapter/modbus/modbus.go:146-164 | succeeds exactly if the line is up and the wide read can be answered; then every served point holds the first point's table at its own window, which for points of that table are its own cells, and the others are unchanged; on failure nothing changes |
| `ModbusClient.Client.WriteSingle` | pkg/adapter/modbus/modbus.go:167-194 | succeeds exactly if the line is up and the value is one the named table takes and fits; the device then has exactly the point's cells changed, also if only the answer is lost, and is untouched if the request is refused or lost |
| `ModbusClient.WriteOneByOne` | pkg/adapter/modbus/modbus.go:167-194 | single writes over the points in list order succeed exactly if every line is up and every value is accepted; over lines that are up they leave the memory and the result of the specification of single writes |
| `ModbusClient.Client.WriteBatch` | pkg/adapter/modbus/modbus.go:198-229 | succeeds exactly if the line is up and the batch is accepted: not empty, on a table that can be written, of values it takes, inside the address space; the device then has the first point's table written in one go from the least address, also if only the answer is lost, and is untouched otherwise |
| `Connector.HandleReadSingle` | pkg/protocol/connector.go:55-75 | the decoded device value under the declared type if the line is up and the window lies in the address space, an error otherwise |
| `Connector.HandleReadBatch` | pkg/protocol/connector.go:78-101 | the reports of the device's cells up to the first that fails, exactly if the line is up and the wide read can be answered; nothing but an error otherwise |
| `Connector.DecodeLoop` | pkg/protocol/connector.go:86-100 | the loop that overwrites values in place yields the reports in order up to the first failure |
| `Connector.HandleWriteBatch` | pkg/protocol/connector.go:121-138 | succeeds exactly if the line is up, every value can be encoded and the client accepts the batch; the device holds the whole encoded batch exactly if the request reached it, and is untouched otherwise |
| `Connector.EncodeLoop` | pkg/protocol/connector.go:124-132 | the loop succeeds exactly if every value can be prepared, and then the list holds the prepared points |
| `Connector.GatherExact` | pkg/protocol/connector.go:78-101 | the reports are exactly some expected values, with no failure, if and only if each result is its expected value |
| `EndToEnd.ReportedIffCarried` | pkg/protocol/connector.go:55-138 | a value of the declared type that fills the cells of its request is reported from those cells in normal form if and only if encoder and decoder match, or there is neither and it is an array just if it has several cells |
| `EndToEnd.OneRegisterArrayExample` | pkg/adapter/modbus/modbus.go:306-319 | a `Uint16Array` of one register fills its cell and cannot be reported from it |
| `EndToEnd.ReportedIffDeclared` | pkg/protocol/connector.go:55-101 | whatever the cells hold, a read is reported exactly if the request declares the one type that decoder, table and length make of it |
| `EndToEnd.WriteThenRead` | pkg/protocol/connector.go:78-138 | after a successful batch write of coils or holding registers the batch read of the same requests reports every value in order and normal form if and only if every point is served and every request can carry its value; a read without failure has served every point |
| `EndToEnd.WriteAndReadBack` | pkg/protocol/connector.go:78-138 | the two handlers in sequence on a device: the write succeeds exactly if its line is up and the last value fits; then, over a line that is up, the values read are the written ones in normal form, without failure, if and only if every point is served and every request can carry its value |
| `SystemTimeCommand.SystemTimeRoundTrip` | res/profiles/modbus.test.profile.json:207-248 | the System-Time command is an instance: year, month, day, hour, minute and second come back as set, for all values |
| `SystemTimeCommand.SetAndReadClock` | res/profiles/modbus.test.profile.json:207-248 | run through the two handlers over a line that is up, both succeed and the six values read are the ones set |
| `ConfigCache.RunKeepsInv` | pkg/model/protocol_config.go:28-74 | every interleaving keeps the invariant: cache equals the effects so far, each call takes effect at most once, between its call and its return |
| `ConfigCache.Linearizable` | pkg/model/protocol_config.go:28-74 | the order of effects is a linearization: sequentially legal, made of operations that were called before they took effect and of nothing else, complete for returned calls, and respecting real time |
| `ConfigCache.LogIsHistory` | pkg/model/protocol_config.go:28-74 | the order of effects only grows, and the cache at any earlier moment is the replay of its prefix |
| `ConfigCache.ResolveReturnsHeldConfig` | pkg/model/protocol_config.go:28-49 | every Resolve returns a config that the cache held for its key in some state of the run, after the call's step and before the return's |
| `ConfigContents.ConfigsAreAsCalled` | pkg/model/protocol_config.go:28-74 | over every run, from the calls alone: an Update returns a config with its own properties and its key's protocol, a Resolve returns that of some earlier call of Resolve or Update for the same key, a Remove returns nothing, and every cached config is that of a call for its key |
| `ConfigContents.CacheInClosedForm` | pkg/model/protocol_config.go:28-74 | the cache after any sequence of operations: a key holds the config of the last Update since the last Remove, or else of the first Resolve since then, and nothing exactly if everything was removed |
| `ConfigContents.ResolvesAgree` | pkg/model/protocol_config.go:28-49 | if nobody calls Update or Remove, any two Resolves of a key return the same config, with the properties of one of the Resolves of that key |
| `ConfigContents.WaitFree` | pkg/model/protocol_config.go:12-74 | in every state of every run any thread can go on, whatever the others did, and a call returns within three steps of its own |
| `EventPipeline.RunKeepsInv` | internal/driver/drive.go:320-341 | every reachable state keeps the pipeline invariant and its capacity |
| `EventPipeline.ConservationAndOrder` | internal/driver/drive.go:320-341 | the offers of a run that found room are the accepted events; these are the handled, then at most one in flight, then the queued; the queue is within capacity; forwarded values are the successful decodes of handled events, in order, each once |
| `EventPipeline.AnsweredIffAccepted` | pkg/adapter/listener_http/http.go:107-112 | a request is answered 200 if and only if its own event was accepted, with the payload it pushed, and at most one event is accepted for it |
| `EventPipeline.HttpConfirmsExactlyAccepted` | pkg/adapter/listener_http/http.go:88-113 | in every reachable state the payloads answered 200 with those of the requests yet to write their 200 are the accepted HTTP payloads as multisets, hence the same once none is pending |
| `EventPipeline.AnswersMayOvertake` | pkg/adapter/listener_http/http.go:107-112 | two requests accepted in one order and confirmed in the other |
| `EventPipeline.OfferKeepsInv` | pkg/adapter/listener_mqtt/mqtt.go:32-45 | a non-blocking MQTT or trap send, taken or dropped, keeps the invariant |
| `EventPipeline.Publish` | pkg/adapter/listener_mqtt/mqtt.go:32-45 | an MQTT publish never waits; its event joins the queue and the accepted ones exactly if there is room, and leaves no trace otherwise |
| `EventPipeline.Trap` | pkg/adapter/listener_snmp/snmp.go:114-130 | the same for a marshalled trap; one that cannot be marshalled leaves no trace |
| `EventPipeline.HttpRequest` | pkg/adapter/listener_http/http.go:88-113 | the status of every request: 405, 500, 400, 503 or 200, the last exactly for a readable non-empty POST that found room, whose event then joins the queue |
| `EventPipeline.Consumes` | internal/driver/drive.go:320-353 | the consumer takes the front event; from MQTT or SNMP it may decode to any value, which is then forwarded as it is; from any other source it can only fail |
| `EventPipeline.Stops` | internal/driver/drive.go:320-324 | after a cancellation an idle consumer may stop, and then handles and forwards nothing any more |
| `EventPipeline.HttpNeverForwarded` | internal/driver/drive.go:344-353 | no HTTP event ever decodes; every forwarded value comes from an MQTT or SNMP event |
| `EventPipeline.Drains` | internal/driver/drive.go:320-341 | whatever the decodes yield, every run of consumer steps from a reachable state that is not cancelled is bounded, and one that cannot go on has handled every accepted event, in order, and forwarded exactly those that decoded |
| `ClientPool.Polls.GetHandler` | pkg/protocol/poller.go:59-88 | pool and client after one call, for every branch and failure |
| `ClientPool.Polls.DisconnectAll` | pkg/protocol/poller.go:91-99 | the loop empties the pool and disconnects each client once |
| `ClientPool.PoolInvariant` | pkg/protocol/poller.go:59-129 | over any sequential run connects equal disconnects plus pool size, size never exceeds the maximum, each client sits under its own endpoint, has a protocol that has clients, and belongs to one call |
| `ClientPool.SameClient` | pkg/protocol/poller.go:59-88 | a validated call for a pooled endpoint gets the same client until `DisconnectAll`, whatever happens in between and whichever protocol it names |
| `ClientPool.PooledAsAskedFor` | pkg/protocol/poller.go:59-129 | over any run every pooled client has the endpoint, and the protocol by name, of a call that asked for it and did not fail |
| `ClientPool.FailuresLeaveNoTrace` | pkg/protocol/poller.go:59-88 | over any run the pool is the one the successful calls alone would have made |
| `ClientPool.NoClientOutlivesDisconnectAll` | pkg/protocol/poller.go:91-99 | after `DisconnectAll` no earlier client is handed out again |
| `SnmpBatch.BuildIndex` | pkg/adapter/snmp/snmp.go:206-215 | the OIDs in order, text as it is and numbers in decimal, and, for each, the last point that asked for it; an error exactly for an address that is neither text nor number |
| `SnmpBatch.WriteBack` | pkg/adapter/snmp/snmp.go:222-232 | the in-place loop leaves the points as the scatter specification says, also when it stops at a conversion error |
| `SnmpBatch.ReadBatch` | pkg/adapter/snmp/snmp.go:201-234 | the points after the batch read; nothing changes for an empty list, a bad address or a failed Get |
| `SnmpBatch.ReadSingle` | pkg/adapter/snmp/snmp.go:176-198 | the point alone gets the converted first answer, or nothing changes |
| `SnmpBatch.ScatterPoint` | pkg/adapter/snmp/snmp.go:222-232 | a point gets the last answer under its OID if it is the last to have asked for it, and keeps its value otherwise |
| `SnmpBatch.ScatterFails` | pkg/adapter/snmp/snmp.go:222-232 | a read that fails has written back exactly the answers before the first that cannot be converted |
| `SnmpBatch.EachPointItsOwnAnswer` | pkg/adapter/snmp/snmp.go:201-234 | for distinct OIDs and one convertible answer per name every answered point gets its own, unknown names are ignored, unanswered points are unchanged |
| `SnmpBatch.OrderOfAnswersIrrelevant` | pkg/adapter/snmp/snmp.go:201-234 | the order of the answers does not matter |
| `SnmpBatch.BatchAgainstSingles` | pkg/adapter/snmp/snmp.go:176-234 | against a session that answers every OID the batch read succeeds if and only if the single read of every reached point does, and then the reached points have the value of their single read and the others keep their old one; a point is reached if its OID is spelled with the leading dot and no later point asks for the same |
| `SnmpBatch.UndottedExample` | res/profiles/snmp.test.profile.yaml:32-36 | the OID of UpTimeCurrentState as the profile spells it: a single read gives the value, a batch read keeps the old one and reports success |
| `SnmpBatch.DuplicateExample` | pkg/adapter/snmp/snmp.go:206-232 | two points with the same dotted OID: the second gets its value, the first keeps its old one though its single read succeeds, and the batch reports success |
| `ProfileTable.ConvertCsvToJson` | scripts/profile_csv_to_json.py:20-90 | the row loop builds the profile of the rows, or raises at a bad number |
| `ProfileTable.OneRow` | scripts/profile_csv_to_json.py:20-90 | a table of one row, column by column: an empty address is 0, an empty length 1, an empty optional cell no entry, an empty command cell no command |
| `ProfileTable.BadNumber` | scripts/profile_csv_to_json.py:31-35 | anything but digits and a minus sign in a number cell is an error of the whole table |
| `ProfileTable.AddOperation` | scripts/profile_csv_to_json.py:64-86 | the operation joins its command, created on first sight with this row's settings |
| `ProfileTable.ResourceToCommand` | scripts/profile_json_to_csv.py:27-39 | the nested loops fill the table in which the last operation on a resource decides |
| `ProfileTable.ConvertJsonToCsv` | scripts/profile_json_to_csv.py:26-92 | one row per resource, in order, with its command cells |
| `ProfileTable.OneResource` | scripts/profile_json_to_csv.py:26-92 | a profile of one resource under one command, column by column |
| `ProfileTable.BareResource` | scripts/profile_json_to_csv.py:49-92 | a resource without a command has empty command cells, a profile without a header empty header cells |
| `ProfileTable.LabelsRoundTrip` | scripts/profile_csv_to_json.py:27-27 | joining and splitting the labels of any cell again gives the same labels |
| `ProfileTable.StripExact` | scripts/profile_csv_to_json.py:27-27 | stripping removes whitespace only, from both ends, and all of it |
| `ProfileTable.GroupFacts` | scripts/profile_csv_to_json.py:62-86 | grouping keeps every claimed operation under its own command, adds none, counts each once, and names no command twice |
| `ProfileTable.ResettledGroup` | scripts/profile_csv_to_json.py:62-86 | repeating a command's settings on each of its rows changes no group |
| `ProfileTable.TableEntry` | scripts/profile_json_to_csv.py:27-39 | the table knows a resource exactly if some command holds an operation on it, and then with the cells of one |
| `ProfileTable.LastOperationDecides` | scripts/profile_json_to_csv.py:27-39 | of all operations on a resource the last one of the last command that has any gives it its cells |
| `ProfileTable.TripParts` | scripts/profile_json_to_csv.py:49-92 | header, resources and their order always survive the trip through the table |
| `ProfileTable.ConversionFixedPoint` | scripts/profile_csv_to_json.py:20-90 | a profile built from rows is unchanged by the trip to rows and back if and only if rows of one resource agree on command and mappings and no mappings document is falsy |
| `ProfileTable.DistinctNamesFixedPoint` | scripts/profile_csv_to_json.py:20-90 | in particular it is unchanged for distinct resource names and no falsy mappings |
| `ProfileTable.TwoCommandsExample` | scripts/profile_json_to_csv.py:27-39 | one resource under two commands: the trip changes the profile |
| `ProfileTrip.GroupClosedForm` | scripts/profile_csv_to_json.py:62-86 | grouping in closed form: one command for each name in the order of first rows, with the settings of that row and the operations of all its rows in row order |
| `ProfileTrip.LabelsSurvive` | scripts/profile_json_to_csv.py:52-52 | a list of labels comes back from its cell if and only if each is non-empty, has nothing to strip and holds no comma |
| `ProfileTrip.CommandsSurvive` | scripts/profile_json_to_csv.py:26-92 | regrouping the rows of any profile gives its commands back if and only if they are settled (each with a name of its own and operations, on no other command's resources and in the order of the resources; commands in the order in which the resources first need them) and no mappings document is falsy |
| `ProfileTrip.ProfileFixedPoint` | scripts/profile_json_to_csv.py:26-92 | the trip of any profile to rows and back succeeds, and gives the same profile if and only if header labels and optional entries fit their cells and the commands survive; without resources, only if nothing else is there |
| `ProfileTrip.OneTripSettles` | scripts/profile_json_to_csv.py:26-92 | what comes back from one trip of any profile survives every further trip |

## Left out

- Library internals: each Modbus request is given what becomes of it (answered, lost, or carried out with its answer lost) and otherwise acts on device memory inside the 16-bit address space; one that the Modbus library refuses for its quantity counts as lost; an SNMP Get is a function from OIDs to answers.
- Floating point: addresses and lengths arrive as float64 and are modelled as naturals below 65536; the truncation of fractions and out-of-range numbers is not modelled.
- Panics: a missing or non-numeric address or length, a zero length and an empty batch read are preconditions of the Modbus members, because the code panics on them.
- `HandleWriteSingle` (pkg/protocol/connector.go:104-118): it encodes with the decoder's name and the whole command value, so no round trip holds on that path.
- Batches whose points name different tables are modelled as the code treats them, on the first point's table; no agreement with single operations is claimed for the other points.
- Aliasing: a batch read of holding registers hands out slices of the read buffer; the model gives each point its own copy.
- Data-block cells are 16-bit words or bits; the simulator's loader could store larger Python integers.
- Oid.EncodeOid: does not model Python's `int()` spellings beyond ASCII digits (signs, blanks, underscores, other scripts), because only digits occur in an OID; such parts count as bad here.
- ProfileTable.ConvertCsvToJson: numbers in cells may carry a minus sign, but none of Python's other `int()` spellings.
- CSV quoting and JSON text syntax: mappings are a parameter with a parser, a printer and a truth value; columns missing from a row, and profile entries without a column (such as `encodeFunc`), are not modelled.
- UTF-8 coding in the SNMP store, the integers Python agrees to print, `conv.ValueToType` and the failure of a listener's marshalling are parameters.
- Oid.DecodeOid: does not model that Python 3.11 and later refuse by default to turn integers of more than 4300 digits into text, because arcs are unbounded here; nor does Oid.EncodeOid model the same limit on reading them.
- `NewCommandValue` is a wrapper that insists on the declared type; the numeric ranges it also checks hold by typing here.
- The sync.Map operations are taken as atomic; a Resolve is its Load and its LoadOrStore, and contents of a config are compared by the call that made it.
- ClientPool.SameClient: holds for calls made one at a time; `GetHandler` takes no lock, and two overlapping calls for one endpoint can leak a client.
- Event decoders consult the device registry and are modelled as answering anything at each event; the fixed capacity of 256 is a parameter.
- SNMP messages: only the first varbind is read, as in the code; the populated OID store is an arbitrary initial map; exceptions end the handling of a datagram as its handler's `try` does.
- The trap simulator, OPC UA, the HTTP client, connection and login state, uploads, metrics and logging add only easy members.
