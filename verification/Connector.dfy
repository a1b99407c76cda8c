/** Decoding and encoding around the client calls: pkg/protocol/connector.go. */
module Connector {
  import opened GoTypes
  import opened RegisterCodecs
  import opened Registers
  import opened ModbusDevice
  import opened ModbusPoints
  import opened ModbusReads
  import opened ModbusWrites
  import opened ModbusClient

  datatype CommandValue = CommandValue(name: string, kind: string, value: Any)

  /** The EdgeX value type a dynamic value carries. */
  predicate HasKind(kind: string, v: Any) {
    match v
    case Bool(_) => kind == "Bool"
    case Bools(_) => kind == "BoolArray"
    case U16(_) => kind == "Uint16"
    case U16s(_) => kind == "Uint16Array"
    case U32(_) => kind == "Uint32"
    case Str(_) => kind == "String"
    case _ => false
  }

  /** `sdkModels.NewCommandValue`, as a wrapper that insists on the declared type. */
  function NewCommandValue(name: string, kind: string, v: Any): Result<CommandValue> {
    if HasKind(kind, v) then Ok(CommandValue(name, kind, v)) else Err
  }

  /** The value reported for a resource that has been read. */
  function Report(req: CommandRequest, res: Resource): Result<CommandValue> {
    if res.decoder != "" then
      var v :- DecodeRData(res.decoder, res.value);
      NewCommandValue(req.name, req.kind, v)
    else NewCommandValue(req.name, req.kind, res.value)
  }

  /** The values before the first failure, and whether there was one. */
  function Gather(results: seq<Result<CommandValue>>): (seq<CommandValue>, bool) {
    if results == [] then ([], false)
    else
      match results[0]
      case Err => ([], true)
      case Ok(cv) => var (rest, failed) := Gather(results[1..]); ([cv] + rest, failed)
  }

  function Reports(reqs: seq<CommandRequest>, ress: seq<Resource>): (results: seq<Result<CommandValue>>)
    requires |reqs| == |ress|
    ensures |results| == |reqs|
  {
    seq(|reqs|, i requires 0 <= i < |reqs| => Report(reqs[i], ress[i]))
  }

  lemma {:induction false} GatherPrefix(results: seq<Result<CommandValue>>, i: nat, front: seq<CommandValue>)
    requires i <= |results| && |front| == i
    requires forall j :: 0 <= j < i ==> results[j] == Ok(front[j])
    ensures i == |results| ==> Gather(results) == (front, false)
    ensures i < |results| && results[i].Err? ==> Gather(results) == (front, true)
  {
    if i > 0 {
      GatherPrefix(results[1..], i - 1, front[1..]);
      assert front == [front[0]] + front[1..];
    }
  }

  lemma {:induction false} GatherGood(results: seq<Result<CommandValue>>, values: seq<CommandValue>)
    requires |values| == |results| && forall i :: 0 <= i < |results| ==> results[i] == Ok(values[i])
    ensures Gather(results) == (values, false)
  {
    if results != [] {
      GatherGood(results[1..], values[1..]);
      assert values == [values[0]] + values[1..];
    }
  }

  lemma {:induction false} GatheredAll(results: seq<Result<CommandValue>>)
    requires !Gather(results).1
    ensures |Gather(results).0| == |results|
    ensures forall i :: 0 <= i < |results| ==> results[i] == Ok(Gather(results).0[i])
  {
    if results != [] {
      GatheredAll(results[1..]);
      var values := Gather(results[1..]).0;
      assert Gather(results).0 == [results[0].value] + values;
      forall i | 0 <= i < |results| ensures results[i] == Ok(([results[0].value] + values)[i]) {
        if i > 0 { assert results[1..][i - 1] == Ok(values[i - 1]); }
      }
    }
  }

  /** Exactly these values arrive, without failure, if and only if they are the results. */
  lemma {:induction false} GatherExact(results: seq<Result<CommandValue>>, values: seq<CommandValue>)
    requires |values| == |results|
    ensures Gather(results) == (values, false) <==> forall i :: 0 <= i < |results| ==> results[i] == Ok(values[i])
    ensures !Gather(results).1 <==> forall i :: 0 <= i < |results| ==> results[i].Ok?
  {
    hide Gather;
    if !Gather(results).1 { GatheredAll(results); }
    if forall i :: 0 <= i < |results| ==> results[i] == Ok(values[i]) { GatherGood(results, values); }
    if forall i :: 0 <= i < |results| ==> results[i].Ok? {
      GatherGood(results, seq(|results|, i requires 0 <= i < |results| => results[i].value));
    }
  }

  /** What is written for a value: encoded if the resource names an encoder. */
  function Prepare(res: Resource, v: Any): Result<Resource> {
    if res.encoder != "" then
      var ws :- EncodeWData(res.encoder, v);
      Ok(res.(value := U16s(ws)))
    else Ok(res.(value := v))
  }

  function PrepareAll(ress: seq<Resource>, params: seq<CommandValue>): (r: Result<seq<Resource>>)
    requires |ress| == |params|
    ensures r.Ok? ==> |r.value| == |ress|
    ensures r.Ok? ==> forall i :: 0 <= i < |ress| ==> Prepare(ress[i], params[i].value) == Ok(r.value[i])
  {
    if ress == [] then Ok([])
    else
      var front :- PrepareAll(ress[..|ress| - 1], params[..|ress| - 1]);
      var last :- Prepare(ress[|ress| - 1], params[|ress| - 1].value);
      Ok(front + [last])
  }

  lemma {:induction false} NonePrepared(ress: seq<Resource>, params: seq<CommandValue>)
    requires ress == [] && params == []
    ensures PrepareAll(ress, params) == Ok([])
  {
  }

  lemma {:induction false} PrepareOneMore(ress: seq<Resource>, params: seq<CommandValue>, i: nat)
    requires |ress| == |params| && i < |ress|
    requires PrepareAll(ress[..i], params[..i]).Ok? && Prepare(ress[i], params[i].value).Ok?
    ensures PrepareAll(ress[..i + 1], params[..i + 1])
         == Ok(PrepareAll(ress[..i], params[..i]).value + [Prepare(ress[i], params[i].value).value])
  {
    hide Prepare;
    assert ress[..i + 1][..i] == ress[..i] && params[..i + 1][..i] == params[..i];
  }

  lemma {:induction false} BadParam(ress: seq<Resource>, params: seq<CommandValue>, i: nat)
    requires |ress| == |params| && i < |ress| && Prepare(ress[i], params[i].value).Err?
    ensures PrepareAll(ress, params).Err?
    decreases |ress|
  {
    if i < |ress| - 1 { BadParam(ress[..|ress| - 1], params[..|ress| - 1], i); }
  }

  // ----- the handlers -----

  predicate ReadableRequests(reqs: seq<CommandRequest>) {
    && reqs != []
    && (forall r :: r in reqs ==> WellTyped(r))
    && Readable(ResourcesOf(reqs))
  }

  /** The decode loop of `HandleReadBatch`. */
  method DecodeLoop(resList: array<Resource>, reqs: seq<CommandRequest>)
    returns (cvList: seq<CommandValue>, failed: bool)
    requires resList.Length == |reqs|
    modifies resList
    ensures (cvList, failed) == Gather(Reports(reqs, old(resList[..])))
  {
    ghost var ress := resList[..];
    ghost var results := Reports(reqs, ress);
    cvList := [];
    for i := 0 to |reqs|
      invariant |cvList| == i && forall j :: 0 <= j < i ==> results[j] == Ok(cvList[j])
      invariant forall j :: i <= j < |reqs| ==> resList[j] == ress[j]
    {
      GatherPrefix(results, i, cvList);
      if resList[i].decoder != "" {
        var v := DecodeRData(resList[i].decoder, resList[i].value);
        if v.Err? { return cvList, true; }
        resList[i] := resList[i].(value := v.value);
      }
      var cv := NewCommandValue(reqs[i].name, reqs[i].kind, resList[i].value);
      assert results[i] == cv;
      if cv.Err? { return cvList, true; }
      cvList := cvList + [cv.value];
    }
    GatherPrefix(results, |reqs|, cvList);
    return cvList, false;
  }

  /** `HandleReadBatch`: the reports of what the device holds, up to the first that fails; nothing but the error if the
      read itself failed, which it does only if the line does or no device could answer it. */
  method HandleReadBatch(client: Client, reqs: seq<CommandRequest>, line: Line)
    returns (cvList: seq<CommandValue>, failed: bool)
    requires client.device.Valid() && ReadableRequests(reqs)
    ensures var ress := ResourcesOf(reqs);
            (cvList, failed) == if line.Up? && Answerable(ress)
                                then Gather(Reports(reqs, BatchRead(client.device.Now(), ress))) else ([], true)
  {
    hide Answerable, BatchRead, Reports, Report, Gather, ResourceOf;
    var resList := NewResourceN(reqs);
    var read := client.ReadBatch(resList, line);
    if read.Err? { return [], true; }
    cvList, failed := DecodeLoop(resList, reqs);
  }

  /** `HandleReadSingle`. */
  method HandleReadSingle(client: Client, req: CommandRequest, line: Line) returns (r: Result<CommandValue>)
    requires client.device.Valid() && ReadableRequests([req])
    ensures WellTyped(req) && Addressable(ResourceOf(req)) && ResourceOf(req).length >= 1
    ensures var res := ResourceOf(req);
            r == if line.Up? && InAddressSpace(res)
                 then Report(req, res.(value := SingleValue(client.device.Now(), TableType(res.args), res))) else Err
  {
    assert req in [req] && ResourcesOf([req])[0] in ResourcesOf([req]);
    var res := NewResource(req);
    assert ResourcesOf([req]) == [res];
    var cell := new Resource[1](_ => res);
    assert [cell[0]] == [res];
    var read := client.ReadSingle(cell, 0, line);
    if read.Err? { return Err; }
    return Report(req, cell[0]);
  }

  /** The encode loop of `HandleWriteBatch`. */
  method EncodeLoop(resList: array<Resource>, params: seq<CommandValue>) returns (ok: bool)
    requires resList.Length == |params|
    modifies resList
    ensures ok <==> PrepareAll(old(resList[..]), params).Ok?
    ensures ok ==> PrepareAll(old(resList[..]), params) == Ok(resList[..])
  {
    hide PrepareAll, EncodeWData, HasKind;
    ghost var ress := resList[..];
    NonePrepared(ress[..0], params[..0]);
    for i := 0 to |params|
      invariant PrepareAll(ress[..i], params[..i]) == Ok(resList[..i])
      invariant forall j :: i <= j < |params| ==> resList[j] == ress[j]
    {
      resList[i] := resList[i].(value := params[i].value);
      if resList[i].encoder != "" {
        var ws := EncodeWData(resList[i].encoder, params[i].value);
        if ws.Err? {
          BadParam(ress, params, i);
          return false;
        }
        resList[i] := resList[i].(value := U16s(ws.value));
      }
      assert Prepare(ress[i], params[i].value) == Ok(resList[i]);
      PrepareOneMore(ress, params, i);
      assert resList[..i + 1] == resList[..i] + [resList[i]];
    }
    assert ress[..|params|] == ress && params[..|params|] == params && resList[..|params|] == resList[..];
    return true;
  }

  lemma {:induction false} PreparedAddresses(ress: seq<Resource>, params: seq<CommandValue>)
    requires |ress| == |params| && PrepareAll(ress, params).Ok?
    requires forall r :: r in ress ==> Addressable(r)
    ensures forall p :: p in PrepareAll(ress, params).value ==> Addressable(p)
  {
    var points := PrepareAll(ress, params).value;
    forall p | p in points ensures Addressable(p) {
      var i :| 0 <= i < |points| && points[i] == p;
      assert Prepare(ress[i], params[i].value) == Ok(p) && ress[i] in ress;
    }
  }

  /** The batch write the handler asks for is one that a device can carry out: every value can be encoded, and the
      client accepts the batch. */
  predicate Acceptable(reqs: seq<CommandRequest>, params: seq<CommandValue>): (acceptable: bool)
    requires |params| == |reqs| && forall q :: q in reqs ==> WellTyped(q)
    ensures acceptable ==> reqs != []
  {
    && PrepareAll(ResourcesOf(reqs), params).Ok?
    && var points := PrepareAll(ResourcesOf(reqs), params).value;
       points != [] && BatchAccepted(TableType(points[0].args), points)
  }

  /** `HandleWriteBatch`: a value that cannot be encoded stops everything before the device is touched. It succeeds
      exactly if the line is up and the batch is acceptable, and the device is written exactly if the request reaches it
      and is acceptable. */
  method HandleWriteBatch(client: Client, reqs: seq<CommandRequest>, params: seq<CommandValue>, line: Line)
    returns (r: Result<()>)
    requires client.device.Valid() && |params| == |reqs|
    requires forall q :: q in reqs ==> WellTyped(q)
    requires forall p :: p in ResourcesOf(reqs) ==> Addressable(p)
    modifies client.device.co`memory, client.device.hr`memory
    ensures r.Ok? <==> line.Up? && Acceptable(reqs, params)
    ensures line.RequestLost? || !Acceptable(reqs, params) ==> client.device.Now() == old(client.device.Now())
    ensures !line.RequestLost? && Acceptable(reqs, params) ==>
              var points := PrepareAll(ResourcesOf(reqs), params).value;
              && (forall p :: p in points ==> Addressable(p))
              && WritesInOneGo(points, old(client.device.co.memory), old(client.device.hr.memory),
                               client.device.co.memory, client.device.hr.memory, true)
              && var table := TableType(points[0].args);
                 && BatchCells(table, points).Ok?
                 && BatchStart(points) + |BatchCells(table, points).value| <= WRAP16
                 && client.device.Now().Of(table) ==
                    Store(old(client.device.Now().Of(table)), BatchStart(points), BatchCells(table, points).value)
  {
    var resList := NewResourceN(reqs);
    var ok := EncodeLoop(resList, params);
    if !ok { return Err; }
    PreparedAddresses(ResourcesOf(reqs), params);
    r := client.WriteBatch(resList[..], line);
  }
}
