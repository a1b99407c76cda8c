/** Reading in one request what single reads would fetch one by one: pkg/adapter/modbus/modbus.go. */
module ModbusReads {
  import opened GoTypes
  import opened Registers
  import opened ModbusDevice
  import opened ModbusPoints

  /** `extractRegisterValue`: a slice for several cells, the bare value for one. */
  function ExtractValue(data: Data, length: u16): Any
    requires length > 1 || data.cells != []
  {
    if length > 1 then
      if data.isBit then Bools(seq(|data.cells|, i requires 0 <= i < |data.cells| => data.cells[i] != 0))
      else U16s(data.cells)
    else if data.isBit then Bool(data.cells[0] != 0)
    else U16(data.cells[0])
  }

  /** What reading one point alone gives. */
  function SingleValue(now: Snapshot, table: Table, p: Resource): Any
    requires Addressable(p) && p.length >= 1 && InAddressSpace(p)
  {
    ExtractValue(now.Read(table, WireAddr(p), p.length), p.length)
  }

  /** What the batch assigns to one point from the data read at `minAddr`. */
  function Assigned(p: Resource, minAddr: u16, data: Data): Resource
    requires Addressable(p) && p.length >= 1
  {
    var offset := Sub16(Addr(p), minAddr);
    if offset + p.length <= |data.cells|
    then p.(value := ExtractValue(data.(cells := data.cells[offset..offset + p.length]), p.length))
    else p
  }

  /** `assignResValues`. */
  method AssignResValues(points: array<Resource>, minAddr: u16, data: Data)
    requires Readable(points[..])
    modifies points
    ensures forall i :: 0 <= i < points.Length ==> points[i] == Assigned(old(points[i]), minAddr, data)
  {
    ghost var before := points[..];
    for i := 0 to points.Length
      invariant forall j :: 0 <= j < i ==> points[j] == Assigned(before[j], minAddr, data)
      invariant forall j :: i <= j < points.Length ==> points[j] == before[j]
    {
      var p := points[i];
      assert p == before[i] && before[i] in before;
      var offset := Sub16(Addr(p), minAddr);
      if offset + p.length <= |data.cells| {
        points[i] := p.(value := ExtractValue(data.(cells := data.cells[offset..offset + p.length]), p.length));
      }
    }
  }

  /** A point gets its value from the batch if its own window does not wrap, or if every window wraps and still
      ends inside the address space, at its last cell or the one before. */
  predicate Served(points: seq<Resource>, p: Resource)
    requires forall q :: q in points ==> Addressable(q)
  {
    Unwrapped(p) || forall q :: q in points ==> !Unwrapped(q) && InAddressSpace(q)
  }

  /** The wide read a batch asks for is one that a device can answer. */
  predicate Answerable(points: seq<Resource>)
    requires forall p :: p in points ==> Addressable(p)
  {
    var quantity := Sub16(GreatestEnd(points), LeastAddr(points));
    quantity >= 1 && Sub16(LeastAddr(points), 1) + quantity <= WRAP16
  }

  /** The data of that read. */
  function BatchData(now: Snapshot, table: Table, points: seq<Resource>): Data
    requires (forall p :: p in points ==> Addressable(p)) && Answerable(points)
  {
    now.Read(table, Sub16(LeastAddr(points), 1), Sub16(GreatestEnd(points), LeastAddr(points)))
  }

  lemma {:induction false} ServedWindow(points: seq<Resource>, p: Resource)
    requires Readable(points) && p in points && Answerable(points) && Served(points, p)
    ensures InAddressSpace(p)
    ensures Addr(p) - LeastAddr(points) + p.length <= Sub16(GreatestEnd(points), LeastAddr(points))
    ensures 0 <= Addr(p) - LeastAddr(points)
    ensures WireAddr(p) == Sub16(LeastAddr(points), 1) + (Addr(p) - LeastAddr(points))
  {
    SpanBounds(points);
    var q :| q in points && GreatestEnd(points) == Add16(Addr(q), q.length);
  }

  lemma {:induction false} UnservedWindow(points: seq<Resource>, p: Resource)
    requires Readable(points) && p in points && Answerable(points) && !Served(points, p)
    ensures Addr(p) - LeastAddr(points) + p.length > Sub16(GreatestEnd(points), LeastAddr(points))
  {
    SpanBounds(points);
    var q :| q in points && (Unwrapped(q) || !InAddressSpace(q));
    assert Add16(Addr(q), q.length) <= GreatestEnd(points) && LeastAddr(points) <= Addr(q);
  }

  /** A successful batch read gives each served point exactly the value of a single read on the same snapshot,
      and leaves the others as they were. Points may overlap and come in any order. */
  lemma {:induction false} BatchAgreesWithSingles(now: Snapshot, table: Table, points: seq<Resource>, p: Resource)
    requires Readable(points) && p in points && Answerable(points)
    ensures Served(points, p) ==> InAddressSpace(p)
    ensures Assigned(p, LeastAddr(points), BatchData(now, table, points))
         == if Served(points, p) then p.(value := SingleValue(now, table, p)) else p
  {
    var lo, top := LeastAddr(points), GreatestEnd(points);
    SpanBounds(points);
    assert lo <= Addr(p);
    if Served(points, p) { ServedWindow(points, p); } else { UnservedWindow(points, p); }
    hide Served, SingleValue, Assigned, LeastAddr, GreatestEnd;
    AssignedSlice(now, table, p, lo, Sub16(lo, 1), Sub16(top, lo));
  }

  /** A point takes its own cells from the wide read if they all lie inside it, and nothing otherwise. */
  lemma AssignedSlice(now: Snapshot, table: Table, p: Resource, lo: u16, start: nat, quantity: nat)
    requires Addressable(p) && p.length >= 1 && lo <= Addr(p) && start + quantity <= WRAP16
    ensures var offset := Addr(p) - lo;
            && (offset + p.length > quantity ==> Assigned(p, lo, now.Read(table, start, quantity)) == p)
            && (offset + p.length <= quantity && WireAddr(p) == start + offset ==>
                  && InAddressSpace(p)
                  && Assigned(p, lo, now.Read(table, start, quantity)) == p.(value := SingleValue(now, table, p)))
  {
    var offset := Addr(p) - lo;
    assert Sub16(Addr(p), lo) == offset;
    if offset + p.length <= quantity && WireAddr(p) == start + offset {
      hide ExtractValue;
      SubWindow(table.IsBit(), now.Of(table), start, quantity, offset, p.length);
    }
  }

  /** The points after a successful batch read. */
  function BatchRead(now: Snapshot, points: seq<Resource>): (after: seq<Resource>)
    requires points != [] && Readable(points) && Answerable(points)
    ensures |after| == |points|
  {
    seq(|points|, i requires 0 <= i < |points| =>
      if Served(points, points[i]) then
        ServedWindow(points, points[i]);
        points[i].(value := SingleValue(now, TableType(points[0].args), points[i]))
      else points[i])
  }

  /** Every served point of the table of the first one holds what a single read would give it: its own cells. */
  ghost predicate OwnTablesRead(now: Snapshot, before: seq<Resource>, after: seq<Resource>)
    requires before != [] && Readable(before) && Answerable(before) && |after| == |before|
  {
    forall i :: 0 <= i < |before| && Served(before, before[i])
                && TableType(before[i].args) == TableType(before[0].args) ==>
      && InAddressSpace(before[i])
      && after[i].value == SingleValue(now, TableType(before[i].args), before[i])
      && ShowsOwnCells(now, before[i], after[i].value)
  }

  lemma {:induction false} BatchReadsOwnTables(now: Snapshot, before: seq<Resource>)
    requires before != [] && Readable(before) && Answerable(before)
    ensures OwnTablesRead(now, before, BatchRead(now, before))
  {
    hide Served, SingleValue, TableType, Answerable, ShowsOwnCells;
    forall i | 0 <= i < |before| && Served(before, before[i])
      ensures InAddressSpace(before[i])
      ensures ShowsOwnCells(now, before[i], SingleValue(now, TableType(before[i].args), before[i]))
    {
      ServedWindow(before, before[i]);
      SingleShowsOwnCells(now, before[i]);
    }
  }

  /** Register 65534 with two cells ends at 0 in 16 bits: read together with 65530, which ends before the wrap, it is
      left without a value, though a single read would serve it. */
  lemma {:induction false} UnservedExample(now: Snapshot)
    ensures var points := [PointAt(65530, 3, Nil), PointAt(65534, 2, Nil)];
            && Readable(points) && Answerable(points) && InAddressSpace(points[1])
            && BatchRead(now, points)[1] == points[1]
            && BatchRead(now, points)[0].value == SingleValue(now, HoldingRegisters, points[0])
  {
    var p, q := PointAt(65530, 3, Nil), PointAt(65534, 2, Nil);
    LeastOfTwo(p, q);
    GreatestOfTwo(p, q);
    hide LeastAddr, GreatestEnd, SingleValue;
    assert forall x :: x in [p, q] ==> Addressable(x) && x.length >= 1;
    assert p in [p, q] && Unwrapped(p) && !Unwrapped(q);
  }

  // ----- cell by cell -----

  /** A coil or discrete input, on if its address is even as long as nothing was stored there. */
  predicate BitAt(memory: Memory, address: nat) {
    if address in memory then memory[address] != 0 else address % 2 == 0
  }

  /** A register, holding its own address as long as nothing was stored there. */
  function WordAt(memory: Memory, address: nat): int {
    if address in memory then memory[address] else address
  }

  predicate ShowsBits(v: Any, memory: Memory, at: nat, length: nat) {
    if length == 1 then v == Bool(BitAt(memory, at))
    else v.Bools? && |v.bs| == length && forall k :: 0 <= k < length ==> v.bs[k] == BitAt(memory, at + k)
  }

  predicate ShowsWords(v: Any, memory: Memory, at: nat, length: nat) {
    if length == 1 then v.U16? && v.w == WordAt(memory, at)
    else v.U16s? && |v.ws| == length && forall k :: 0 <= k < length ==> v.ws[k] == WordAt(memory, at + k)
  }

  /** The value shows the cells of the table the point names, from one below its address on: coils, discrete inputs or
      input registers if it names them, and holding registers otherwise. */
  predicate ShowsOwnCells(now: Snapshot, p: Resource, v: Any)
    requires Addressable(p)
  {
    var at := if p.address.n == 0 then 0xFFFF else p.address.n - 1;
    && (NamesTable(p, "COILS") ==> ShowsBits(v, now.co, at, p.length))
    && (NamesTable(p, "DISCRETES") ==> ShowsBits(v, now.di, at, p.length))
    && (NamesTable(p, "INPUT_REGISTERS") ==> ShowsWords(v, now.ir, at, p.length))
    && (NamesNoOther(p) ==> ShowsWords(v, now.hr, at, p.length))
  }

  lemma ExtractedBits(now: Snapshot, table: Table, start: nat, length: u16)
    requires table.IsBit() && start + length <= WRAP16 && length >= 1
    ensures ShowsBits(ExtractValue(now.Read(table, start, length), length), now.Of(table), start, length)
  {
    var cells := now.Read(table, start, length).cells;
    assert forall k :: 0 <= k < length ==> cells[k] == Cell(true, now.Of(table), start + k);
  }

  lemma ExtractedWords(now: Snapshot, table: Table, start: nat, length: u16)
    requires !table.IsBit() && start + length <= WRAP16 && length >= 1
    ensures ShowsWords(ExtractValue(now.Read(table, start, length), length), now.Of(table), start, length)
  {
    var cells := now.Read(table, start, length).cells;
    assert forall k :: 0 <= k < length ==> cells[k] == Cell(false, now.Of(table), start + k);
  }

  /** A single read shows the point's own cells. */
  lemma SingleShowsOwnCells(now: Snapshot, p: Resource)
    requires Addressable(p) && p.length >= 1 && InAddressSpace(p)
    ensures ShowsOwnCells(now, p, SingleValue(now, TableType(p.args), p))
  {
    hide ExtractValue, ShowsBits, ShowsWords;
    var table := TableType(p.args);
    if table.IsBit() {
      ExtractedBits(now, table, WireAddr(p), p.length);
    } else {
      ExtractedWords(now, table, WireAddr(p), p.length);
    }
  }

  // ----- points of different tables -----

  /** A snapshot with one non-empty table. */
  function Only(table: Table, memory: Memory): Snapshot {
    var none: Memory := map[];
    Snapshot(if table.Coils? then memory else none, if table.Discretes? then memory else none,
             if table.HoldingRegisters? then memory else none, if table.InputRegisters? then memory else none)
  }

  /** Reading a point from another table than its own gives its value, whatever the device holds, only if it is the
      same table. */
  lemma OnlyItsOwnTable(table: Table, other: Table, p: Resource)
    requires Addressable(p) && p.length >= 1 && InAddressSpace(p)
    ensures table == other <==> forall now: Snapshot :: SingleValue(now, table, p) == SingleValue(now, other, p)
  {
    if table != other && forall now: Snapshot :: SingleValue(now, table, p) == SingleValue(now, other, p) {
      var at := WireAddr(p);
      var plain := Cell(table.IsBit(), map[], at);
      var now := Only(table, map[at := if plain == 0 then 1 else 0]);
      assert SingleValue(now, table, p) == SingleValue(now, other, p);
      FirstCells(now, table, other, p);
    }
  }

  /** Equal values mean tables of one kind with the same first cell. */
  lemma FirstCells(now: Snapshot, table: Table, other: Table, p: Resource)
    requires Addressable(p) && p.length >= 1 && InAddressSpace(p)
    requires SingleValue(now, table, p) == SingleValue(now, other, p)
    ensures table.IsBit() == other.IsBit()
    ensures Cell(table.IsBit(), now.Of(table), WireAddr(p)) == Cell(other.IsBit(), now.Of(other), WireAddr(p))
  {
    var a, b := now.Read(table, WireAddr(p), p.length), now.Read(other, WireAddr(p), p.length);
    assert a.cells[0] == Cell(table.IsBit(), now.Of(table), WireAddr(p)) && (a.isBit ==> a.cells[0] <= 1);
    assert b.cells[0] == Cell(other.IsBit(), now.Of(other), WireAddr(p)) && (b.isBit ==> b.cells[0] <= 1);
    if p.length > 1 && a.isBit && b.isBit {
      var x, y := ExtractValue(a, p.length).bs, ExtractValue(b, p.length).bs;
      assert x[0] == (a.cells[0] != 0) && y[0] == (b.cells[0] != 0);
    }
  }
}
