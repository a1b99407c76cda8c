/** Writing values through the handlers of pkg/protocol/connector.go and reading them back through them. */
module EndToEnd {
  import opened Basics
  import opened GoTypes
  import opened RegisterCodecs
  import opened Registers
  import opened ModbusDevice
  import opened ModbusPoints
  import opened ModbusReads
  import opened ModbusWrites
  import opened ModbusClient
  import opened Connector

  // ----- one value -----

  /** The value has the declared type and, encoded if the resource names an encoder, fills exactly `Length` cells. */
  predicate Fills(table: Table, req: CommandRequest, v: Any)
    requires WellTyped(req)
  {
    var res := ResourceOf(req);
    && HasKind(req.kind, v) && Prepare(res, v).Ok?
    && CellsOf(table, Prepare(res, v).value.value).Ok?
    && |CellsOf(table, Prepare(res, v).value.value).value| == res.length >= 1
  }

  /** The cells it fills. */
  function FilledCells(table: Table, req: CommandRequest, v: Any): (cells: seq<u16>)
    requires WellTyped(req) && Fills(table, req, v)
    ensures |cells| == ResourceOf(req).length >= 1
  {
    CellsOf(table, Prepare(ResourceOf(req), v).value.value).value
  }

  /** The request can carry the value there and back: matching codecs on registers, or none and one value for one
      cell or an array for several. */
  predicate Carries(table: Table, req: CommandRequest, v: Any)
    requires WellTyped(req)
  {
    var res := ResourceOf(req);
    && HasKind(req.kind, v)
    && if res.encoder == "" && res.decoder == "" then
         if table.Coils? then (v.Bool? && res.length == 1) || (v.Bools? && |v.bs| == res.length >= 2)
         else (v.U16? && res.length == 1) || (v.U16s? && |v.ws| == res.length >= 2)
       else
         && !table.Coils? && Matching(res.encoder, res.decoder)
         && EncodeWData(res.encoder, v).Ok?
         && |EncodeWData(res.encoder, v).value| == res.length
  }

  /** What a later read should report for a value that was written. */
  function Expected(req: CommandRequest, v: Any): CommandValue
    requires WellTyped(req)
  {
    CommandValue(req.name, req.kind, Normal(ResourceOf(req).encoder, v))
  }

  /** What a read of those cells reports. */
  function Reported(table: Table, req: CommandRequest, cells: seq<u16>): Result<CommandValue>
    requires WellTyped(req) && |cells| == ResourceOf(req).length >= 1
  {
    Report(req, ResourceOf(req).(value := ExtractValue(Data(table.IsBit(), cells), ResourceOf(req).length)))
  }

  /** The one type of value that a read of so many cells of a table can be reported as, through a decoder or without. */
  function ReportedKind(isBit: bool, decoder: string, length: nat): Option<string> {
    match decoder
    case "" => Some(if isBit then (if length == 1 then "Bool" else "BoolArray")
                    else if length == 1 then "Uint16" else "Uint16Array")
    case "decodeMACAddress" => if isBit || length < 3 then None else Some("String")
    case "decodeIPv4Address" => if isBit || length < 2 then None else Some("String")
    case "toUint32" => if isBit || length < 2 then None else Some("Uint32")
    case _ => None
  }

  /** Whatever the cells hold, the read is reported exactly if the request declares that type, and then under the name
      and type of the request. */
  lemma ReportedIffDeclared(table: Table, req: CommandRequest, cells: seq<u16>)
    requires WellTyped(req) && |cells| == ResourceOf(req).length >= 1
    ensures Reported(table, req, cells).Ok? <==>
              ReportedKind(table.IsBit(), ResourceOf(req).decoder, |cells|) == Some(req.kind)
    ensures Reported(table, req, cells).Ok? ==>
              && Reported(table, req, cells).value.name == req.name
              && Reported(table, req, cells).value.kind == req.kind
  {
    hide ResourceOf;
  }

  lemma EncodedLength(encoder: string, v: Any)
    requires EncodeWData(encoder, v).Ok?
    ensures |EncodeWData(encoder, v).value| == if encoder == "encodeMACAddress" then 3 else 2
    ensures encoder in {"encodeMACAddress", "encodeIPv4Address", "toUint16Slice"}
    ensures if encoder == "toUint16Slice" then v.U32? else v.Str?
  {
  }

  lemma DecodedKind(decoder: string, raw: Any)
    requires DecodeRData(decoder, raw).Ok?
    ensures decoder in {"decodeMACAddress", "decodeIPv4Address", "toUint32"} && raw.U16s?
    ensures |raw.ws| >= if decoder == "decodeMACAddress" then 3 else 2
    ensures if decoder == "toUint32" then DecodeRData(decoder, raw).value.U32? else DecodeRData(decoder, raw).value.Str?
  {
  }

  lemma NormalKeepsKind(encoder: string, kind: string, v: Any)
    ensures HasKind(kind, Normal(encoder, v)) == HasKind(kind, v)
    ensures encoder == "" ==> Normal(encoder, v) == v
  {
  }

  /** Without an encoder the value itself is in the cells; it is reported exactly if there is no decoder either and it
      is an array just if it has several cells. */
  lemma PlainReport(table: Table, req: CommandRequest, v: Any)
    requires WellTyped(req) && (table.Coils? || table.HoldingRegisters?) && Fills(table, req, v)
    requires ResourceOf(req).encoder == ""
    ensures Reported(table, req, FilledCells(table, req, v)) == Ok(Expected(req, v)) <==> Carries(table, req, v)
  {
    hide EncodeWData, DecodeRData, ResourceOf, Normal;
    var res := ResourceOf(req);
    var cells := FilledCells(table, req, v);
    NormalKeepsKind(res.encoder, req.kind, v);
    var raw := ExtractValue(Data(table.IsBit(), cells), res.length);
    if res.decoder != "" {
      if DecodeRData(res.decoder, raw).Ok? { DecodedKind(res.decoder, raw); }
    } else if v.Bools? && res.length > 1 {
      assert raw.bs == v.bs;
    }
  }

  /** With an encoder the value is reported in normal form exactly if the decoder matches. */
  lemma EncodedReport(table: Table, req: CommandRequest, v: Any)
    requires WellTyped(req) && (table.Coils? || table.HoldingRegisters?) && Fills(table, req, v)
    requires ResourceOf(req).encoder != ""
    ensures Reported(table, req, FilledCells(table, req, v)) == Ok(Expected(req, v)) <==> Carries(table, req, v)
  {
    hide EncodeWData, DecodeRData, ResourceOf, Normal;
    var res := ResourceOf(req);
    var ws := EncodeWData(res.encoder, v).value;
    EncodedLength(res.encoder, v);
    NormalKeepsKind(res.encoder, req.kind, v);
    assert FilledCells(table, req, v) == ws && ExtractValue(Data(false, ws), res.length) == U16s(ws);
    if Matching(res.encoder, res.decoder) {
      DecodeOfEncode(res.encoder, res.decoder, v);
    } else if res.decoder != "" && DecodeRData(res.decoder, U16s(ws)).Ok? {
      DecodedKind(res.decoder, U16s(ws));
      if v.Str? && res.decoder != "toUint32" { MacAsIp(v, res.decoder); }
    }
  }

  /** The one mismatch that decodes to a value of the same type: it is another text. */
  lemma MacAsIp(v: Any, decoder: string)
    requires EncodeWData("encodeMACAddress", v).Ok? && decoder == "decodeIPv4Address"
    ensures DecodeRData(decoder, U16s(EncodeWData("encodeMACAddress", v).value)).Ok?
    ensures DecodeRData(decoder, U16s(EncodeWData("encodeMACAddress", v).value)).value != Normal("encodeMACAddress", v)
  {
    var ws := EncodeWData("encodeMACAddress", v).value;
    NotationsDiffer(Mac.ReadText(v.s).value, Octets(ws[..2]));
  }

  /** A value that fills its cells is reported in normal form, after a write and a read of just those cells, if and only
      if the request carries it. */
  lemma ReportedIffCarried(table: Table, req: CommandRequest, v: Any)
    requires WellTyped(req) && (table.Coils? || table.HoldingRegisters?) && Fills(table, req, v)
    ensures Reported(table, req, FilledCells(table, req, v)) == Ok(Expected(req, v)) <==> Carries(table, req, v)
  {
    if ResourceOf(req).encoder == "" { PlainReport(table, req, v); } else { EncodedReport(table, req, v); }
  }

  lemma CarriedFills(table: Table, req: CommandRequest, v: Any)
    requires WellTyped(req) && (table.Coils? || table.HoldingRegisters?) && Carries(table, req, v)
    ensures Fills(table, req, v)
  {
    hide EncodeWData, ResourceOf, HasKind;
    if ResourceOf(req).encoder != "" { EncodedLength(ResourceOf(req).encoder, v); }
  }

  /** An array of one register fills its cell, and comes back as a bare register that is no value of the type. */
  lemma OneRegisterArrayExample(w: u16)
    ensures var req := CommandRequest("r", "Uint16Array", map["address" := Num(1), "length" := Num(1)]);
            && WellTyped(req) && Fills(HoldingRegisters, req, U16s([w]))
            && FilledCells(HoldingRegisters, req, U16s([w])) == [w]
            && Reported(HoldingRegisters, req, [w]) == Err
  {
    var req := CommandRequest("r", "Uint16Array", map["address" := Num(1), "length" := Num(1)]);
    assert req.attributes["length"] == Num(1);
    assert ResourceOf(req).encoder == "" && ResourceOf(req).decoder == "" && ResourceOf(req).length == 1;
  }

  // ----- many values -----

  /** The i-th resource begins where the one before it ends. */
  predicate FollowsPrevious(ress: seq<Resource>, i: nat)
    requires 0 < i < |ress|
  {
    Addressable(ress[i]) && Addressable(ress[i - 1]) && Addr(ress[i]) == Addr(ress[i - 1]) + ress[i - 1].length
  }

  /** The table a batch of these requests goes to. */
  function TableFor(reqs: seq<CommandRequest>): Table
    requires reqs != [] && forall r :: r in reqs ==> WellTyped(r)
  {
    TableType(ResourcesOf(reqs)[0].args)
  }

  /** Requests on coils or holding registers, in ascending, gap-free address order, with values that fill them. */
  predicate Writable(reqs: seq<CommandRequest>, params: seq<CommandValue>) {
    && |params| == |reqs|
    && ReadableRequests(reqs)
    && (TableFor(reqs).Coils? || TableFor(reqs).HoldingRegisters?)
    && (forall i :: 0 <= i < |reqs| ==> Fills(TableFor(reqs), reqs[i], params[i].value))
    && (forall r :: r in ResourcesOf(reqs) ==> Addressable(r) && Addr(r) >= 1)
    && (forall i :: 0 < i < |reqs| ==> FollowsPrevious(ResourcesOf(reqs), i))
  }

  predicate AllCarried(reqs: seq<CommandRequest>, params: seq<CommandValue>)
    requires |params| == |reqs| && ReadableRequests(reqs)
  {
    forall i :: 0 <= i < |reqs| ==> Carries(TableFor(reqs), reqs[i], params[i].value)
  }

  predicate AllServed(reqs: seq<CommandRequest>)
    requires ReadableRequests(reqs)
  {
    forall r :: r in ResourcesOf(reqs) ==> Served(ResourcesOf(reqs), r)
  }

  /** Preparing a value changes nothing of the resource but its value. */
  lemma PrepareKeeps(res: Resource, v: Any)
    requires Prepare(res, v).Ok?
    ensures Prepare(res, v).value.address == res.address && Prepare(res, v).value.args == res.args
  {
    hide EncodeWData;
  }

  /** One prepared point: where it goes and how many cells it fills. */
  predicate PreparedPoint(table: Table, res: Resource, v: Any, point: Resource) {
    && Addressable(res) && Addr(res) >= 1
    && Prepare(res, v) == Ok(point)
    && point.address == res.address && point.args == res.args
    && CellsOf(table, point.value).Ok?
    && |CellsOf(table, point.value).value| == res.length
  }

  lemma {:induction false} PreparedPoints(reqs: seq<CommandRequest>, params: seq<CommandValue>)
    requires Writable(reqs, params)
    ensures var ress, table := ResourcesOf(reqs), TableFor(reqs);
            PrepareAll(ress, params).Ok? &&
            var points := PrepareAll(ress, params).value;
            && (forall i :: 0 <= i < |reqs| ==> PreparedPoint(table, ress[i], params[i].value, points[i]))
            && (forall p :: p in points ==> Addressable(p) && Addr(p) >= 1 && CellsOf(table, p.value).Ok?)
            && Consecutive(table, points)
  {
    hide Prepare, PreparedPoint, Consecutive, CellsOf, TableType, ResourceOf;
    var ress, table := ResourcesOf(reqs), TableFor(reqs);
    forall i | 0 <= i < |reqs|
      ensures Prepare(ress[i], params[i].value).Ok?
      ensures PreparedPoint(table, ress[i], params[i].value, Prepare(ress[i], params[i].value).value)
    {
      assert reqs[i] in reqs && ress[i] in ress;
      OnePrepared(table, reqs[i], params[i].value);
    }
    AllPrepared(ress, params);
    var points := PrepareAll(ress, params).value;
    assert forall i :: 0 <= i < |ress| ==> PreparedPoint(table, ress[i], params[i].value, points[i]);
    PreparedConsecutive(reqs, params, points);
  }

  lemma OnePrepared(table: Table, req: CommandRequest, v: Any)
    requires WellTyped(req) && Fills(table, req, v) && Addressable(ResourceOf(req)) && Addr(ResourceOf(req)) >= 1
    ensures Prepare(ResourceOf(req), v).Ok?
    ensures PreparedPoint(table, ResourceOf(req), v, Prepare(ResourceOf(req), v).value)
  {
    hide Prepare, CellsOf, ResourceOf, HasKind;
    PrepareKeeps(ResourceOf(req), v);
  }

  lemma {:induction false} PreparedConsecutive(reqs: seq<CommandRequest>, params: seq<CommandValue>,
                                               points: seq<Resource>)
    requires Writable(reqs, params) && |points| == |reqs|
    requires forall i :: 0 <= i < |reqs| ==>
               PreparedPoint(TableFor(reqs), ResourcesOf(reqs)[i], params[i].value, points[i])
    ensures forall p :: p in points ==> Addressable(p) && Addr(p) >= 1 && CellsOf(TableFor(reqs), p.value).Ok?
    ensures Consecutive(TableFor(reqs), points)
  {
    hide Prepare, CellsOf, TableType, TableFor, Fills;
    var ress, table := ResourcesOf(reqs), TableFor(reqs);
    forall i {:trigger points[i]} | 0 < i < |points|
      ensures Addr(points[i]) == Addr(points[i - 1]) + |CellsOf(table, points[i - 1].value).value|
    {
      assert PreparedPoint(table, ress[i], params[i].value, points[i]);
      assert PreparedPoint(table, ress[i - 1], params[i - 1].value, points[i - 1]);
      assert FollowsPrevious(ress, i);
    }
  }

  lemma {:induction false} AllPrepared(ress: seq<Resource>, params: seq<CommandValue>)
    requires |ress| == |params|
    requires forall i :: 0 <= i < |ress| ==> Prepare(ress[i], params[i].value).Ok?
    ensures PrepareAll(ress, params).Ok?
  {
    if ress != [] { AllPrepared(ress[..|ress| - 1], params[..|ress| - 1]); }
  }

  /** The table's memory right after the batch write of the prepared points. */
  ghost predicate Written(table: Table, now: Snapshot, before: Memory, points: seq<Resource>) {
    && (forall p :: p in points ==> Addressable(p))
    && BatchCells(table, points).Ok?
    && BatchStart(points) + |BatchCells(table, points).value| <= WRAP16
    && now.Of(table) == Store(before, BatchStart(points), BatchCells(table, points).value)
  }

  /** The cells each point wrote are the ones a single read of its resource finds. */
  lemma {:induction false} WrittenCells(table: Table, now: Snapshot, before: Memory, points: seq<Resource>, i: nat,
                                        res: Resource)
    requires Written(table, now, before, points) && i < |points| && !table.Discretes?
    requires forall p :: p in points ==> Addr(p) >= 1 && CellsOf(table, p.value).Ok?
    requires Consecutive(table, points)
    requires res.address == points[i].address && res.length >= 1
    requires |CellsOf(table, points[i].value).value| == res.length
    ensures Addressable(res) && InAddressSpace(res)
    ensures now.Read(table, WireAddr(res), res.length) == Data(table.IsBit(), CellsOf(table, points[i].value).value)
  {
    hide CellsOf, BatchCells, LeastAddr, Store, Consecutive;
    assert points[i] in points;
    ConsecutiveReadBack(before, table, points, i);
  }

  /** After the write a served point is reported from the cells it filled, and any other fails. */
  lemma {:induction false} ReportAfterWrite(now: Snapshot, before: Memory, reqs: seq<CommandRequest>,
                                            params: seq<CommandValue>, i: nat)
    requires Writable(reqs, params) && Answerable(ResourcesOf(reqs)) && i < |reqs|
    requires PrepareAll(ResourcesOf(reqs), params).Ok?
    requires Written(TableFor(reqs), now, before, PrepareAll(ResourcesOf(reqs), params).value)
    ensures WellTyped(reqs[i])
    ensures Reports(reqs, BatchRead(now, ResourcesOf(reqs)))[i]
         == if Served(ResourcesOf(reqs), ResourcesOf(reqs)[i])
            then Reported(TableFor(reqs), reqs[i], FilledCells(TableFor(reqs), reqs[i], params[i].value))
            else Err
  {
    hide Prepare, CellsOf, Consecutive, TableType, Report, Served, Answerable, Written, HasKind, LeastAddr, GreatestEnd;
    var ress, table := ResourcesOf(reqs), TableFor(reqs);
    var res, points := ress[i], PrepareAll(ress, params).value;
    assert reqs[i] in reqs && res in ress;
    PreparedPoints(reqs, params);
    assert PreparedPoint(table, res, params[i].value, points[i]);
    WrittenCells(table, now, before, points, i, res);
    if !Served(ress, res) { UnreadFails(reqs[i], res); }
  }

  /** A point left without a value cannot be reported. */
  lemma UnreadFails(req: CommandRequest, res: Resource)
    requires res.value == Nil
    ensures Report(req, res) == Err
  {
  }

  function ExpectedAll(reqs: seq<CommandRequest>, params: seq<CommandValue>): (values: seq<CommandValue>)
    requires |params| == |reqs| && forall r :: r in reqs ==> WellTyped(r)
    ensures |values| == |reqs|
  {
    seq(|reqs|, i requires 0 <= i < |reqs| => assert reqs[i] in reqs; Expected(reqs[i], params[i].value))
  }

  /** Write, then read: after `HandleWriteBatch` succeeded, a batch read of the same requests reports every written
      value, in order and in normal form, if and only if the batch serves every point and every request carries its
      value; and whenever it reports no failure, it served every point. */
  lemma {:induction false} WriteThenRead(now: Snapshot, before: Memory, reqs: seq<CommandRequest>,
                                         params: seq<CommandValue>)
    requires Writable(reqs, params) && Answerable(ResourcesOf(reqs))
    requires PrepareAll(ResourcesOf(reqs), params).Ok?
    requires Written(TableFor(reqs), now, before, PrepareAll(ResourcesOf(reqs), params).value)
    ensures var (cvList, failed) := Gather(Reports(reqs, BatchRead(now, ResourcesOf(reqs))));
            && (!failed && cvList == ExpectedAll(reqs, params) <==> AllServed(reqs) && AllCarried(reqs, params))
            && (!failed ==> AllServed(reqs))
  {
    hide Written, Answerable, Served, Carries, Expected, Reported, Fills, FilledCells, TableFor, BatchRead,
         FollowsPrevious;
    var ress := ResourcesOf(reqs);
    var results := Reports(reqs, BatchRead(now, ress));
    forall i | 0 <= i < |reqs|
      ensures WellTyped(reqs[i])
      ensures results[i] == Ok(Expected(reqs[i], params[i].value)) <==>
                Served(ress, ress[i]) && Carries(TableFor(reqs), reqs[i], params[i].value)
      ensures results[i].Ok? ==> Served(ress, ress[i])
    {
      assert reqs[i] in reqs;
      ReportAfterWrite(now, before, reqs, params, i);
      ReportedIffCarried(TableFor(reqs), reqs[i], params[i].value);
    }
    GatherExact(results, ExpectedAll(reqs, params));
    AllServedByIndex(reqs);
  }

  lemma AllServedByIndex(reqs: seq<CommandRequest>)
    requires ReadableRequests(reqs)
    ensures AllServed(reqs) <==> forall i :: 0 <= i < |reqs| ==> Served(ResourcesOf(reqs), ResourcesOf(reqs)[i])
  {
    hide Served, ResourceOf;
    var ress := ResourcesOf(reqs);
    if AllServed(reqs) {
      forall i | 0 <= i < |reqs| ensures Served(ress, ress[i]) { assert ress[i] in ress; }
    }
  }

  /** The last value still lies in the address space. */
  predicate LastFits(reqs: seq<CommandRequest>)
    requires ReadableRequests(reqs)
  {
    InAddressSpace(ResourcesOf(reqs)[|reqs| - 1])
  }

  /** The cells end where those of the last point end. */
  lemma {:induction false} CellsEndWithLast(table: Table, points: seq<Resource>)
    requires points != [] && BatchCells(table, points).Ok?
    requires forall p :: p in points ==> Addressable(p) && Addr(p) >= 1 && CellsOf(table, p.value).Ok?
    requires Consecutive(table, points)
    ensures var last := points[|points| - 1];
            BatchStart(points) + |BatchCells(table, points).value|
            == WireAddr(last) + |CellsOf(table, last.value).value|
    ensures points[0] in points
  {
    hide CellsOf, Concat, BatchCells, LeastAddr, Consecutive;
    var pieces := PiecesOf(table, points);
    BatchCellsConcat(table, points);
    FirstIsLeast(table, points);
    ConsecutiveIsGapFree(table, points);
    ConcatPrefix(pieces, |points| - 1);
    assert pieces[..|points|] == pieces;
    assert pieces[|points| - 1].at == WireAddr(points[0]) + |Concat(pieces[..|points| - 1])|;
  }

  lemma {:induction false} ConsecutiveAccepted(table: Table, points: seq<Resource>)
    requires points != [] && (table.Coils? || table.HoldingRegisters?)
    requires forall p :: p in points ==> Addressable(p) && Addr(p) >= 1 && CellsOf(table, p.value).Ok?
    requires Consecutive(table, points)
    requires CellsOf(table, points[|points| - 1].value).value != []
    ensures var last := points[|points| - 1];
            BatchAccepted(table, points) <==> WireAddr(last) + |CellsOf(table, last.value).value| <= WRAP16
  {
    hide CellsOf, Concat, BatchCells, LeastAddr, Consecutive;
    BatchCellsConcat(table, points);
    FirstIsLeast(table, points);
    CellsEndWithLast(table, points);
  }

  /** The batch is accepted exactly if its last value fits. */
  lemma {:induction false} AcceptableIfFits(reqs: seq<CommandRequest>, params: seq<CommandValue>)
    requires Writable(reqs, params)
    ensures Acceptable(reqs, params) <==> LastFits(reqs)
  {
    hide Prepare, CellsOf, Consecutive, TableType, BatchCells, ResourceOf, Fills, BatchAccepted, LeastAddr;
    PreparedPoints(reqs, params);
    var ress, table := ResourcesOf(reqs), TableFor(reqs);
    var points, n := PrepareAll(ress, params).value, |reqs| - 1;
    assert PreparedPoint(table, ress[0], params[0].value, points[0]);
    assert PreparedPoint(table, ress[n], params[n].value, points[n]);
    assert ress[n] in ress;
    ConsecutiveAccepted(table, points);
  }

  /** Gap-free points that the batch serves make a read that a device can answer. */
  lemma {:induction false} ServedIsAnswerable(ress: seq<Resource>)
    requires ress != [] && Readable(ress) && forall r :: r in ress ==> Addr(r) >= 1
    requires forall i :: 0 < i < |ress| ==> FollowsPrevious(ress, i)
    requires forall r :: r in ress ==> Served(ress, r)
    ensures Answerable(ress)
  {
    hide LeastAddr, GreatestEnd;
    SpanBounds(ress);
    assert ress[0] in ress;
    var p :| p in ress && LeastAddr(ress) == Addr(p);
    var q :| q in ress && GreatestEnd(ress) == Add16(Addr(q), q.length);
    assert Add16(Addr(p), p.length) <= GreatestEnd(ress);
    if |ress| > 1 {
      assert FollowsPrevious(ress, 1);
      assert Unwrapped(ress[0]);
      assert Unwrapped(p) && Unwrapped(q);
    } else {
      assert p == ress[0] && q == ress[0];
    }
  }

  /** The two handlers one after the other, on one client. The write goes through exactly if the line is up and the last
      value fits. After it, and over a line that is up, the values read are the written ones, in order and in normal
      form, without failure, if and only if the batch serves every point and every request carries its value. */
  method WriteAndReadBack(client: Client, reqs: seq<CommandRequest>, params: seq<CommandValue>,
                          writeLine: Line, readLine: Line)
    returns (written: Result<()>, cvList: seq<CommandValue>, failed: bool)
    requires client.device.Valid() && Writable(reqs, params)
    modifies client.device.co`memory, client.device.hr`memory
    ensures written.Ok? <==> writeLine.Up? && LastFits(reqs)
    ensures written.Ok? && readLine.Up? ==>
              (!failed && cvList == ExpectedAll(reqs, params) <==> AllServed(reqs) && AllCarried(reqs, params))
    ensures !failed ==> written.Ok? && AllServed(reqs)
  {
    PreparedPoints(reqs, params);
    AcceptableIfFits(reqs, params);
    ghost var before := client.device.Now().Of(TableFor(reqs));
    written := HandleWriteBatch(client, reqs, params, writeLine);
    if written.Err? { return written, [], true; }
    ghost var now := client.device.Now();
    WrittenByHandler(now, before, reqs, params);
    cvList, failed := HandleReadBatch(client, reqs, readLine);
    if Answerable(ResourcesOf(reqs)) {
      WriteThenRead(now, before, reqs, params);
    } else if AllServed(reqs) {
      ServedIsAnswerable(ResourcesOf(reqs));
    }
  }

  /** What `HandleWriteBatch` promises on success is what `WriteThenRead` starts from. */
  lemma {:induction false} WrittenByHandler(now: Snapshot, before: Memory, reqs: seq<CommandRequest>,
                                            params: seq<CommandValue>)
    requires Writable(reqs, params) && PrepareAll(ResourcesOf(reqs), params).Ok?
    requires var points := PrepareAll(ResourcesOf(reqs), params).value;
             && (forall p :: p in points ==> Addressable(p))
             && var table := TableType(points[0].args);
                && BatchCells(table, points).Ok?
                && BatchStart(points) + |BatchCells(table, points).value| <= WRAP16
                && now.Of(table) == Store(before, BatchStart(points), BatchCells(table, points).value)
    ensures Written(TableFor(reqs), now, before, PrepareAll(ResourcesOf(reqs), params).value)
  {
    hide TableType, CellsOf, BatchCells, LeastAddr, Store, Consecutive, Prepare;
    PreparedPoints(reqs, params);
    var points := PrepareAll(ResourcesOf(reqs), params).value;
    assert PreparedPoint(TableFor(reqs), ResourcesOf(reqs)[0], params[0].value, points[0]);
  }
}
