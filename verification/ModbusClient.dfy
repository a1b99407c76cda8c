/** The client of pkg/adapter/modbus/modbus.go: single and batch operations on a connected device. */
module ModbusClient {
  import opened GoTypes
  import opened Registers
  import opened ModbusDevice
  import opened ModbusPoints
  import opened ModbusReads
  import opened ModbusWrites

  class Client {
    const device: Device

    constructor (device: Device)
      ensures this.device == device
    {
      this.device := device;
    }

    /** The four tables as the device holds them. */
    ghost function Tables(): Snapshot
      reads device.co, device.di, device.hr, device.ir
    {
      Snapshot(device.co.memory, device.di.memory, device.hr.memory, device.ir.memory)
    }

    /** `ReadSingle` on the point at index i. */
    method ReadSingle(points: array<Resource>, i: nat, line: Line) returns (r: Result<()>)
      requires device.Valid() && i < points.Length && Readable([points[i]])
      modifies points
      ensures Addressable(old(points[i])) && old(points[i]).length >= 1
      ensures r.Ok? <==> line.Up? && InAddressSpace(old(points[i]))
      ensures r.Err? ==> points[..] == old(points[..])
      ensures r.Ok? ==> var p := old(points[i]);
                        && points[..] ==
                             old(points[..])[i := p.(value := SingleValue(device.Now(), TableType(p.args), p))]
                        && ShowsOwnCells(Tables(), p, points[i].value)
    {
      var p := points[i];
      assert p in [points[i]];
      var data := device.Read(TableType(p.args), WireAddr(p), p.length, line);
      if data.Err? { return Err; }
      SingleShowsOwnCells(device.Now(), p);
      points[i] := p.(value := ExtractValue(data.value, p.length));
      return Ok(());
    }

    /** `ReadBatch`: one wide read on the table of the first point (an empty list panics on `points[0]`). */
    method ReadBatch(points: array<Resource>, line: Line) returns (r: Result<()>)
      requires device.Valid() && points.Length > 0 && Readable(points[..])
      modifies points
      ensures r.Ok? <==> line.Up? && Answerable(old(points[..]))
      ensures r.Err? ==> points[..] == old(points[..])
      ensures r.Ok? ==> points[..] == BatchRead(device.Now(), old(points[..]))
      ensures r.Ok? ==> OwnTablesRead(Tables(), old(points[..]), points[..])
    {
      ghost var before := points[..];
      var minAddr, quantity := CalculateBatchSpan(points[..]);
      var table := TableType(points[0].args);
      var data := device.Read(table, Sub16(minAddr, 1), quantity, line);
      if data.Err? { return Err; }
      assert data.value == BatchData(device.Now(), table, before);
      AssignResValues(points, minAddr, data.value);
      forall i | 0 <= i < points.Length ensures points[i] == BatchRead(device.Now(), before)[i] {
        BatchAgreesWithSingles(device.Now(), table, before, before[i]);
      }
      BatchReadsOwnTables(device.Now(), before);
      return Ok(());
    }

    /** `WriteSingle`: a coil takes only a bool, a register one or several words; the other tables are read-only. */
    method WriteSingle(p: Resource, line: Line) returns (r: Result<()>)
      requires device.Valid() && Addressable(p)
      modifies device.co`memory, device.hr`memory
      ensures r.Ok? <==> line.Up? && SingleAccepted(TableType(p.args), p)
      ensures line.RequestLost? ==> device.Now() == old(device.Now())
      ensures !line.RequestLost? ==>
                WritesOwnCells(p, old(device.co.memory), old(device.hr.memory), device.co.memory, device.hr.memory,
                               SingleAccepted(TableType(p.args), p))
      ensures !line.RequestLost? && SingleAccepted(TableType(p.args), p) ==>
                SingleWrite(TableType(p.args), old(device.Now().Of(TableType(p.args))), p)
                == (device.Now().Of(TableType(p.args)), true)
      ensures !SingleAccepted(TableType(p.args), p) ==> device.Now() == old(device.Now())
    {
      var table := TableType(p.args);
      SingleWritesOwnCells(p, device.co.memory, device.hr.memory);
      match table
      case Coils =>
        if !p.value.Bool? { return Err; }
        r := device.Write(Coils, WireAddr(p), [if p.value.b then 1 else 0], line);
      case HoldingRegisters =>
        var values := CellsOf(table, p.value);
        if values.Err? { return Err; }
        r := device.Write(HoldingRegisters, WireAddr(p), values.value, line);
      case _ =>
        return Err;
    }

    /** `WriteBatch`: one wide write of all values in list order, from the least address on. */
    method WriteBatch(points: seq<Resource>, line: Line) returns (r: Result<()>)
      requires device.Valid() && forall p :: p in points ==> Addressable(p)
      modifies device.co`memory, device.hr`memory
      ensures r.Ok? <==> line.Up? && points != [] && BatchAccepted(TableType(points[0].args), points)
      ensures line.RequestLost? || points == [] ==> device.Now() == old(device.Now())
      ensures !line.RequestLost? && points != [] ==>
                WritesInOneGo(points, old(device.co.memory), old(device.hr.memory),
                              device.co.memory, device.hr.memory, BatchAccepted(TableType(points[0].args), points))
      ensures !line.RequestLost? && points != [] && BatchAccepted(TableType(points[0].args), points) ==>
                BatchWrite(TableType(points[0].args), old(device.Now().Of(TableType(points[0].args))), points)
                == (device.Now().Of(TableType(points[0].args)), true)
      ensures points != [] && !BatchAccepted(TableType(points[0].args), points) ==> device.Now() == old(device.Now())
    {
      if |points| == 0 { return Err; }
      var minAddr, _ := CalculateBatchSpan(points);
      var table := TableType(points[0].args);
      var protocolAddr := Sub16(minAddr, 1);
      if !table.Coils? && !table.HoldingRegisters? { return Err; }
      var values := ToSliceBatch(table, points);
      if values.Err? { return Err; }
      r := device.Write(table, protocolAddr, values.value, line);
    }
  }

  /** The single writes in list order, for points of one table: what a batch write is measured against. */
  method WriteOneByOne(client: Client, table: Table, points: seq<Resource>, lines: seq<Line>) returns (r: Result<()>)
    requires client.device.Valid() && |lines| == |points|
    requires forall p :: p in points ==> Addressable(p) && TableType(p.args) == table
    modifies client.device.co`memory, client.device.hr`memory
    ensures r.Ok? <==> (forall line :: line in lines ==> line.Up?) && EachAccepted(table, points)
    ensures (forall line :: line in lines ==> line.Up?) ==>
              OneByOne(table, old(client.device.Now().Of(table)), points) == (client.device.Now().Of(table), r.Ok?)
    ensures r.Ok? ==>
              client.device.Now().Of(table) == StoreEach(old(client.device.Now().Of(table)), PiecesOf(table, points))
    ensures points != [] && !SingleAccepted(table, points[0]) ==> client.device.Now() == old(client.device.Now())
  {
    hide CellsOf, Store, StoreEach, TableType, WireAddr, SingleAccepted, WritesOwnCells;
    for i := 0 to |points|
      invariant EachAccepted(table, points[..i]) && forall j :: 0 <= j < i ==> lines[j].Up?
      invariant OneByOne(table, old(client.device.Now().Of(table)), points[..i]) ==
                (client.device.Now().Of(table), true)
      invariant i > 0 ==> SingleAccepted(table, points[0])
      invariant i == 0 ==> client.device.Now() == old(client.device.Now())
    {
      assert points[i] in points && lines[i] in lines;
      assert points[..i + 1] == points[..i] + [points[i]] && points[..i + 1][..i] == points[..i];
      r := client.WriteSingle(points[i], lines[i]);
      if r.Err? {
        if lines[i].Up? { RefusedInside(table, old(client.device.Now().Of(table)), points, i); }
        return r;
      }
    }
    assert points[..|points|] == points;
    AllAccepted(table, old(client.device.Now().Of(table)), points);
    return Ok(());
  }
}
