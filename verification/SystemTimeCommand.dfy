/** The System-Time command of res/profiles/modbus.test.profile.json: setting a device's clock and reading it. */
module SystemTimeCommand {
  import opened GoTypes
  import opened RegisterCodecs
  import opened Registers
  import opened ModbusDevice
  import opened ModbusPoints
  import opened ModbusReads
  import opened ModbusClient
  import opened Connector
  import opened EndToEnd

  function RegisterAttributes(address: nat, length: nat): map<string, Any> {
    map["primaryTable" := Str("HOLDING_REGISTERS"), "address" := Num(address), "length" := Num(length)]
  }

  const TIME_FIELDS := ["year", "month", "day", "hour", "minute", "second"]

  function TimeRequest(i: nat): CommandRequest
    requires i < 6
  {
    if i == 0 then
      CommandRequest("year", "Uint32", RegisterAttributes(8300, 2)
                                       ["decodeFunc" := Str("toUint32")]["encodeFunc" := Str("toUint16Slice")])
    else CommandRequest(TIME_FIELDS[i], "Uint16", RegisterAttributes(8301 + i, 1))
  }

  /** The command of that name in res/profiles/modbus.test.profile.json. */
  function SystemTime(): (reqs: seq<CommandRequest>)
    ensures |reqs| == 6
  {
    seq(6, i requires 0 <= i < 6 => TimeRequest(i))
  }

  /** Year, then month, day, hour, minute and second. */
  function Time(year: u32, rest: seq<u16>): (params: seq<CommandValue>)
    requires |rest| == 5
    ensures |params| == 6
  {
    seq(6, i requires 0 <= i < 6 =>
      if i == 0 then CommandValue("year", "Uint32", U32(year))
      else CommandValue(TIME_FIELDS[i], "Uint16", U16(rest[i - 1])))
  }

  lemma RegisterResource(req: CommandRequest, address: nat, length: nat, decoder: string, encoder: string)
    requires address < WRAP16 && length < WRAP16 && (decoder == "" <==> encoder == "")
    requires req.attributes ==
             if decoder == "" then RegisterAttributes(address, length)
             else RegisterAttributes(address, length)["decodeFunc" := Str(decoder)]["encodeFunc" := Str(encoder)]
    ensures WellTyped(req) &&
            var res := ResourceOf(req);
            && res.address == Num(address) && res.length == length && res.value == Nil
            && res.decoder == decoder && res.encoder == encoder
            && TableType(res.args) == HoldingRegisters
  {
    assert req.attributes["length"] == Num(length) && req.attributes["address"] == Num(address);
    assert ResourceOf(req).args["primaryTable"] == Str("HOLDING_REGISTERS");
  }

  /** Carried there and back without change. */
  predicate CarriedAsIs(req: CommandRequest, v: Any)
    requires WellTyped(req)
  {
    Carries(HoldingRegisters, req, v) && Normal(ResourceOf(req).encoder, v) == v
  }

  lemma TimeResource(i: nat)
    requires i < 6
    ensures WellTyped(TimeRequest(i))
    ensures var res := ResourceOf(TimeRequest(i));
            && res.address == Num(if i == 0 then 8300 else 8301 + i)
            && res.length == (if i == 0 then 2 else 1)
            && TableType(res.args) == HoldingRegisters
    ensures i == 0 ==> forall d: u32 :: CarriedAsIs(TimeRequest(i), U32(d))
    ensures i > 0 ==> forall w: u16 :: CarriedAsIs(TimeRequest(i), U16(w))
  {
    if i == 0 {
      RegisterResource(TimeRequest(i), 8300, 2, "toUint32", "toUint16Slice");
    } else {
      RegisterResource(TimeRequest(i), 8301 + i, 1, "", "");
    }
  }

  predicate TimeWindows(ress: seq<Resource>) {
    && |ress| == 6
    && forall i :: 0 <= i < 6 ==> && ress[i].address == Num(if i == 0 then 8300 else 8301 + i)
                                  && ress[i].length == (if i == 0 then 2 else 1)
  }

  lemma TimeServed(ress: seq<Resource>)
    requires TimeWindows(ress)
    ensures Readable(ress) && Answerable(ress)
    ensures forall r :: r in ress ==> Served(ress, r) && Addr(r) >= 1
  {
    forall r | r in ress ensures Unwrapped(r) && Addr(r) >= 8300 && r.length >= 1 {
      var i :| 0 <= i < |ress| && ress[i] == r;
    }
    SpanBounds(ress);
    assert ress[0] in ress;
    var p :| p in ress && LeastAddr(ress) == Addr(p);
    assert LeastAddr(ress) < GreatestEnd(ress) by { assert Add16(Addr(p), p.length) <= GreatestEnd(ress); }
  }

  lemma SystemTimeWindows()
    ensures forall r :: r in SystemTime() ==> WellTyped(r)
    ensures TimeWindows(ResourcesOf(SystemTime())) && TableType(ResourcesOf(SystemTime())[0].args) == HoldingRegisters
  {
    var reqs := SystemTime();
    forall i | 0 <= i < 6
      ensures WellTyped(reqs[i])
      ensures var res := ResourceOf(reqs[i]);
              && res.address == Num(if i == 0 then 8300 else 8301 + i) && res.length == (if i == 0 then 2 else 1)
              && TableType(res.args) == HoldingRegisters
    {
      TimeResource(i);
    }
  }

  lemma SystemTimeFits(year: u32, rest: seq<u16>)
    requires |rest| == 5
    ensures Writable(SystemTime(), Time(year, rest)) && TableFor(SystemTime()) == HoldingRegisters
    ensures Answerable(ResourcesOf(SystemTime())) && AllServed(SystemTime())
    ensures AllCarried(SystemTime(), Time(year, rest))
  {
    hide ResourceOf, Carries, Fills, TableType, Served, Answerable, Readable, TimeRequest, Normal, WellTyped,
         SystemTime, Time, TimeWindows, Addr, FollowsPrevious;
    SystemTimeWindows();
    TimeServed(ResourcesOf(SystemTime()));
    TimeAscends(ResourcesOf(SystemTime()));
    TimeCarried(year, rest);
  }

  lemma TimeAscends(ress: seq<Resource>)
    requires TimeWindows(ress)
    ensures forall i :: 0 < i < |ress| ==> FollowsPrevious(ress, i)
  {
    forall i | 0 < i < |ress| ensures FollowsPrevious(ress, i) {
      assert ress[i - 1].address == Num(8300 + if i == 1 then 0 else i);
    }
  }

  lemma TimeCarried(year: u32, rest: seq<u16>)
    requires |rest| == 5
    ensures forall i :: 0 <= i < 6 ==>
              && WellTyped(SystemTime()[i]) && CarriedAsIs(SystemTime()[i], Time(year, rest)[i].value)
              && Carries(HoldingRegisters, SystemTime()[i], Time(year, rest)[i].value)
              && Fills(HoldingRegisters, SystemTime()[i], Time(year, rest)[i].value)
  {
    hide Carries, Fills, TimeRequest, WellTyped, ResourceOf;
    forall i | 0 <= i < 6
      ensures WellTyped(SystemTime()[i]) && CarriedAsIs(SystemTime()[i], Time(year, rest)[i].value)
      ensures Carries(HoldingRegisters, SystemTime()[i], Time(year, rest)[i].value)
      ensures Fills(HoldingRegisters, SystemTime()[i], Time(year, rest)[i].value)
    {
      TimeResource(i);
      CarriedFills(HoldingRegisters, SystemTime()[i], Time(year, rest)[i].value);
    }
  }

  lemma TimeExpected(year: u32, rest: seq<u16>)
    requires |rest| == 5 && forall r :: r in SystemTime() ==> WellTyped(r)
    ensures ExpectedAll(SystemTime(), Time(year, rest)) == Time(year, rest)
  {
    var reqs, params := SystemTime(), Time(year, rest);
    hide TimeRequest, Carries, Normal, ResourceOf;
    TimeCarried(year, rest);
    forall i | 0 <= i < 6 ensures ExpectedAll(reqs, params)[i] == params[i] {
      TimeResource(i);
      assert CarriedAsIs(reqs[i], params[i].value) && params[i].name == reqs[i].name && params[i].kind == reqs[i].kind;
    }
  }

  /** Setting the clock and reading it back gives the same six values. */
  lemma SystemTimeRoundTrip(now: Snapshot, before: Memory, year: u32, rest: seq<u16>)
    requires |rest| == 5
    ensures var reqs, params := SystemTime(), Time(year, rest);
            && Writable(reqs, params) && Answerable(ResourcesOf(reqs))
            && PrepareAll(ResourcesOf(reqs), params).Ok?
            && (Written(HoldingRegisters, now, before, PrepareAll(ResourcesOf(reqs), params).value) ==>
                  Gather(Reports(reqs, BatchRead(now, ResourcesOf(reqs)))) == (params, false))
  {
    var reqs, params := SystemTime(), Time(year, rest);
    SystemTimeFits(year, rest);
    PreparedPoints(reqs, params);
    if Written(HoldingRegisters, now, before, PrepareAll(ResourcesOf(reqs), params).value) {
      WriteThenRead(now, before, reqs, params);
      TimeExpected(year, rest);
    }
  }

  lemma ClockFits()
    ensures ReadableRequests(SystemTime()) && LastFits(SystemTime())
  {
    hide ResourceOf, TableType, TimeRequest, WellTyped, SystemTime;
    SystemTimeWindows();
    TimeServed(ResourcesOf(SystemTime()));
  }

  /** The handlers themselves, over a line that is up: the clock can always be set, and is read back as set. */
  method SetAndReadClock(client: Client, year: u32, rest: seq<u16>)
    returns (written: Result<()>, cvList: seq<CommandValue>, failed: bool)
    requires client.device.Valid() && |rest| == 5
    modifies client.device.co`memory, client.device.hr`memory
    ensures written.Ok? && !failed && cvList == Time(year, rest)
  {
    SystemTimeFits(year, rest);
    ClockFits();
    TimeExpected(year, rest);
    hide ResourceOf, Time, SystemTime, LastFits;
    written, cvList, failed := WriteAndReadBack(client, SystemTime(), Time(year, rest), Up, Up);
  }
}
