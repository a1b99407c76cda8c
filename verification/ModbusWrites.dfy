/** Writing in one request what single writes would store one by one: pkg/adapter/modbus/modbus.go. */
module ModbusWrites {
  import opened GoTypes
  import opened Registers
  import opened ModbusDevice
  import opened ModbusPoints

  /** `conv.ToUint16Slice` and `conv.ToBoolSlice`: the cells a value writes to a table. */
  function CellsOf(table: Table, value: Any): Result<seq<u16>> {
    if table.Coils? then
      match value
      case Bool(b) => Ok([if b then 1 else 0])
      case Bools(bs) => Ok(seq(|bs|, i requires 0 <= i < |bs| => if bs[i] then 1 else 0))
      case _ => Err
    else
      match value
      case U16(w) => Ok([w])
      case U16s(ws) => Ok(ws)
      case _ => Err
  }

  /** `toUint16SliceBatch` and `toBoolSliceBatch`. */
  function BatchCells(table: Table, points: seq<Resource>): Result<seq<u16>> {
    if points == [] then Ok([])
    else
      var front :- BatchCells(table, points[..|points| - 1]);
      var last :- CellsOf(table, points[|points| - 1].value);
      Ok(front + last)
  }

  method ToSliceBatch(table: Table, points: seq<Resource>) returns (r: Result<seq<u16>>)
    ensures r == BatchCells(table, points)
  {
    var out: seq<u16> := [];
    for i := 0 to |points|
      invariant BatchCells(table, points[..i]) == Ok(out)
    {
      assert points[..i + 1][..i] == points[..i];
      var cells := CellsOf(table, points[i].value);
      if cells.Err? {
        BadPoint(table, points, i);
        return Err;
      }
      out := out + cells.value;
    }
    assert points[..|points|] == points;
    return Ok(out);
  }

  lemma {:induction false} BadPoint(table: Table, points: seq<Resource>, i: nat)
    requires i < |points| && CellsOf(table, points[i].value).Err?
    ensures BatchCells(table, points).Err?
    decreases |points|
  {
    if i < |points| - 1 { BadPoint(table, points[..|points| - 1], i); }
  }

  /** The pieces the points write one by one. */
  function PiecesOf(table: Table, points: seq<Resource>): (pieces: seq<Piece>)
    requires forall p :: p in points ==> Addressable(p) && CellsOf(table, p.value).Ok?
    ensures |pieces| == |points|
  {
    seq(|points|, i requires 0 <= i < |points| =>
      assert points[i] in points; Piece(WireAddr(points[i]), CellsOf(table, points[i].value).value))
  }

  lemma {:induction false} BatchCellsConcat(table: Table, points: seq<Resource>)
    requires forall p :: p in points ==> Addressable(p) && CellsOf(table, p.value).Ok?
    ensures BatchCells(table, points) == Ok(Concat(PiecesOf(table, points)))
  {
    if points != [] {
      var front := points[..|points| - 1];
      assert points[|points| - 1] in points;
      assert forall p :: p in front ==> p in points;
      BatchCellsConcat(table, front);
      assert PiecesOf(table, points)[..|points| - 1] == PiecesOf(table, front);
    }
  }

  /** Each point's cells begin at the address where the previous point's cells end. */
  predicate Consecutive(table: Table, points: seq<Resource>)
    requires forall p :: p in points ==> Addressable(p) && CellsOf(table, p.value).Ok?
  {
    forall i {:trigger points[i]} :: 0 < i < |points| ==>
      Addr(points[i]) == Addr(points[i - 1]) + |CellsOf(table, points[i - 1].value).value|
  }

  lemma ConsecutiveIsGapFree(table: Table, points: seq<Resource>)
    requires points != []
    requires forall p :: p in points ==> Addressable(p) && Addr(p) >= 1 && CellsOf(table, p.value).Ok?
    requires Consecutive(table, points)
    ensures GapFree(WireAddr(points[0]), PiecesOf(table, points))
  {
    var pieces := PiecesOf(table, points);
    forall i | 0 <= i < |pieces| ensures pieces[i].at == WireAddr(points[0]) + |Concat(pieces[..i])| {
      PrefixGapFree(table, points, i);
    }
  }

  lemma GapFreeIsConsecutive(table: Table, points: seq<Resource>, start: int)
    requires points != []
    requires forall p :: p in points ==> Addressable(p) && Addr(p) >= 1 && CellsOf(table, p.value).Ok?
    requires GapFree(start, PiecesOf(table, points))
    ensures Consecutive(table, points) && WireAddr(points[0]) == start
  {
    var pieces := PiecesOf(table, points);
    assert pieces[..0] == [] && pieces[0].at == start;
    forall i {:trigger points[i]} | 0 < i < |points|
      ensures Addr(points[i]) == Addr(points[i - 1]) + |CellsOf(table, points[i - 1].value).value|
    {
      ConcatPrefix(pieces, i - 1);
      assert pieces[i].at == start + |Concat(pieces[..i])|;
      assert pieces[i - 1].at == start + |Concat(pieces[..i - 1])|;
      assert points[i] in points && points[i - 1] in points;
    }
  }

  lemma {:induction false} PrefixGapFree(table: Table, points: seq<Resource>, i: nat)
    requires forall p :: p in points ==> Addressable(p) && Addr(p) >= 1 && CellsOf(table, p.value).Ok?
    requires Consecutive(table, points) && i < |points|
    ensures PiecesOf(table, points)[i].at == WireAddr(points[0]) + |Concat(PiecesOf(table, points)[..i])|
    decreases i
  {
    var pieces := PiecesOf(table, points);
    assert points[i] in points && points[0] in points;
    if i == 0 {
      assert pieces[..0] == [];
    } else {
      PrefixGapFree(table, points, i - 1);
      ConcatPrefix(pieces, i - 1);
      assert points[i - 1] in points;
    }
  }

  lemma {:induction false} LastFollows(table: Table, points: seq<Resource>)
    requires |points| >= 2
    requires forall p :: p in points ==> Addressable(p) && Addr(p) >= 1 && CellsOf(table, p.value).Ok?
    requires Consecutive(table, points)
    ensures forall p :: p in points[..|points| - 1] ==> p in points
    ensures Consecutive(table, points[..|points| - 1])
    ensures Addr(points[|points| - 2]) <= Addr(points[|points| - 1])
  {
    hide CellsOf;
    var n := |points| - 1;
    assert points[n] in points && points[n - 1] in points;
    assert Addr(points[n]) == Addr(points[n - 1]) + |CellsOf(table, points[n - 1].value).value|;
  }

  lemma {:induction false} FirstIsLeast(table: Table, points: seq<Resource>)
    requires points != []
    requires forall p :: p in points ==> Addressable(p) && Addr(p) >= 1 && CellsOf(table, p.value).Ok?
    requires Consecutive(table, points)
    ensures LeastAddr(points) == Addr(points[0]) <= Addr(points[|points| - 1])
  {
    hide CellsOf, Consecutive;
    var front := points[..|points| - 1];
    if front == [] {
      assert LeastAddr(front) == 0xFFFF;
    } else {
      LastFollows(table, points);
      assert front[0] == points[0] && front[|front| - 1] == points[|points| - 2];
      FirstIsLeast(table, front);
    }
  }

  /** After the batch write each point's own window holds the cells it contributed. */
  lemma {:induction false} ConsecutiveReadBack(memory: Memory, table: Table, points: seq<Resource>, i: nat)
    requires points != [] && i < |points|
    requires forall p :: p in points ==> Addressable(p) && Addr(p) >= 1 && CellsOf(table, p.value).Ok?
    requires Consecutive(table, points) && !table.Discretes?
    requires BatchCells(table, points).Ok?
    requires Sub16(LeastAddr(points), 1) + |BatchCells(table, points).value| <= WRAP16
    ensures var cells := CellsOf(table, points[i].value).value;
            && WireAddr(points[i]) + |cells| <= WRAP16
            && Window(table.IsBit(), Store(memory, Sub16(LeastAddr(points), 1), BatchCells(table, points).value),
                      WireAddr(points[i]), |cells|) == cells
  {
    hide CellsOf, Concat, Store, BatchCells, LeastAddr;
    BatchCellsConcat(table, points);
    FirstIsLeast(table, points);
    ConsecutiveIsGapFree(table, points);
    assert points[i] in points && points[0] in points;
    if table.Coils? { CoilPieces(points); }
    GapFreeReadBack(table.IsBit(), memory, WireAddr(points[0]), PiecesOf(table, points), i);
  }

  lemma CoilPieces(points: seq<Resource>)
    requires forall p :: p in points ==> Addressable(p) && CellsOf(Coils, p.value).Ok?
    ensures AreBits(PiecesOf(Coils, points))
  {
    forall piece, v | piece in PiecesOf(Coils, points) && v in piece.cells ensures v <= 1 {
      var i :| 0 <= i < |points| && PiecesOf(Coils, points)[i] == piece;
      assert points[i] in points;
    }
  }

  // ----- what a device does with the writes -----

  /** What a single write takes: one bool for a coil, one or several words for holding registers. */
  predicate TakesSingle(table: Table, value: Any): (taken: bool)
    ensures taken ==> CellsOf(table, value).Ok?
  {
    match table
    case Coils => value.Bool?
    case HoldingRegisters => CellsOf(table, value).Ok?
    case _ => false
  }

  /** A single write that nothing but a fault can refuse: the client takes the value, and at least one cell lands
      inside the address space. */
  predicate SingleAccepted(table: Table, p: Resource): (accepted: bool)
    ensures accepted ==> Addressable(p) && CellsOf(table, p.value).Ok? && CellsOf(table, p.value).value != []
  {
    && Addressable(p) && TakesSingle(table, p.value)
    && 1 <= |CellsOf(table, p.value).value|
    && WireAddr(p) + |CellsOf(table, p.value).value| <= WRAP16
  }

  predicate EachAccepted(table: Table, points: seq<Resource>): (accepted: bool)
    ensures accepted ==> forall p :: p in points ==>
                           Addressable(p) && CellsOf(table, p.value).Ok? && CellsOf(table, p.value).value != []
  {
    forall p :: p in points ==> SingleAccepted(table, p)
  }

  /** The table's memory after a single write, and whether the write went through. */
  function SingleWrite(table: Table, memory: Memory, p: Resource): (Memory, bool) {
    if SingleAccepted(table, p) then (Store(memory, WireAddr(p), CellsOf(table, p.value).value), true)
    else (memory, false)
  }

  /** Single writes in list order; a refused one ends it. */
  function OneByOne(table: Table, memory: Memory, points: seq<Resource>): (Memory, bool) {
    if points == [] then (memory, true)
    else
      var (before, ok) := OneByOne(table, memory, points[..|points| - 1]);
      if ok then SingleWrite(table, before, points[|points| - 1]) else (before, false)
  }

  /** A batch write that nothing but a fault can refuse. */
  predicate BatchAccepted(table: Table, points: seq<Resource>) {
    && points != [] && (forall p :: p in points ==> Addressable(p))
    && (table.Coils? || table.HoldingRegisters?)
    && BatchCells(table, points).Ok?
    && 1 <= |BatchCells(table, points).value|
    && BatchStart(points) + |BatchCells(table, points).value| <= WRAP16
  }

  /** The wire address a batch write starts at. */
  function BatchStart(points: seq<Resource>): u16
    requires forall p :: p in points ==> Addressable(p)
  {
    Sub16(LeastAddr(points), 1)
  }

  function BatchWrite(table: Table, memory: Memory, points: seq<Resource>): (Memory, bool) {
    if BatchAccepted(table, points)
    then (Store(memory, BatchStart(points), BatchCells(table, points).value), true)
    else (memory, false)
  }

  // ----- cell by cell -----

  /** The memory with these cells from `at` on, and as it was everywhere else. */
  ghost predicate CellsAt(before: Memory, after: Memory, at: nat, cells: seq<u16>) {
    && (forall a :: a in after <==> a in before || at <= a < at + |cells|)
    && (forall a :: a in after ==> after[a] == if at <= a < at + |cells| then cells[a - at] else before[a])
  }

  /** What one write does to coils and holding registers, from one below the point's address on: a coil takes one bool,
      a register one or several words that fit, and a point on one of the read-only tables is refused. */
  ghost predicate WritesOwnCells(p: Resource, co: Memory, hr: Memory, co': Memory, hr': Memory, ok: bool)
    requires Addressable(p)
  {
    var at := if p.address.n == 0 then 0xFFFF else p.address.n - 1;
    var v := p.value;
    && (NamesTable(p, "COILS") ==>
          && hr' == hr && (ok <==> v.Bool?)
          && if ok then CellsAt(co, co', at, [if v.b then 1 else 0]) else co' == co)
    && (NamesTable(p, "DISCRETES") || NamesTable(p, "INPUT_REGISTERS") ==> !ok && co' == co && hr' == hr)
    && (NamesNoOther(p) ==>
          && co' == co && (ok <==> v.U16? || (v.U16s? && v.ws != [] && at + |v.ws| <= WRAP16))
          && if ok then CellsAt(hr, hr', at, if v.U16? then [v.w] else v.ws) else hr' == hr)
  }

  lemma {:induction false} StoredCells(memory: Memory, at: nat, cells: seq<u16>)
    ensures CellsAt(memory, Store(memory, at, cells), at, cells)
  {
    StoreCells(memory, at, cells);
  }

  /** A single write writes the point's own cells. */
  lemma SingleWritesOwnCells(p: Resource, co: Memory, hr: Memory)
    requires Addressable(p)
    ensures var table := TableType(p.args);
            var co' := if table.Coils? then SingleWrite(table, co, p).0 else co;
            var hr' := if table.HoldingRegisters? then SingleWrite(table, hr, p).0 else hr;
            WritesOwnCells(p, co, hr, co', hr', SingleAccepted(table, p))
  {
    hide Store, CellsAt;
    var table := TableType(p.args);
    if SingleAccepted(table, p) {
      StoredCells(if table.Coils? then co else hr, WireAddr(p), CellsOf(table, p.value).value);
    }
  }

  /** What a batch write does: the first point names the table for all. */
  predicate WritesInOneGo(points: seq<Resource>, co: Memory, hr: Memory, co': Memory, hr': Memory, ok: bool)
    requires points != []
  {
    var first := points[0];
    && (NamesTable(first, "COILS") ==> hr' == hr && (co', ok) == BatchWrite(Coils, co, points))
    && (NamesTable(first, "DISCRETES") || NamesTable(first, "INPUT_REGISTERS") ==> !ok && co' == co && hr' == hr)
    && (NamesNoOther(first) ==> co' == co && (hr', ok) == BatchWrite(HoldingRegisters, hr, points))
  }

  // ----- changing contents -----

  /** Values that differ at most in their contents. */
  predicate SameForm(v: Any, w: Any) {
    match (v, w)
    case (Bool(_), Bool(_)) => true
    case (U16(_), U16(_)) => true
    case (Bools(b), Bools(c)) => |b| == |c|
    case (U16s(b), U16s(c)) => |b| == |c|
    case _ => v == w
  }

  /** The same points with other contents. */
  predicate SamePlaces(points: seq<Resource>, others: seq<Resource>) {
    |others| == |points| &&
    forall i :: 0 <= i < |points| ==>
      others[i] == points[i].(value := others[i].value) && SameForm(points[i].value, others[i].value)
  }

  /** The batch write cannot be told from the single writes: whatever the memory and whatever the contents of the
      values, both go through with the same result, or both are refused with the same result. */
  ghost predicate Interchangeable(table: Table, points: seq<Resource>) {
    forall memory: Memory, others: seq<Resource> :: SamePlaces(points, others) ==>
      BatchWrite(table, memory, others) == OneByOne(table, memory, others)
  }

  /** Every value could be written singly, the cells follow each other without gap, and the last one still lies in the
      address space. */
  predicate OneWriteWillDo(table: Table, points: seq<Resource>)
    requires forall p :: p in points ==> Addressable(p)
  {
    && (forall p :: p in points ==> TakesSingle(table, p.value) && CellsOf(table, p.value).value != [])
    && GapFree(BatchStart(points), PiecesOf(table, points))
    && BatchStart(points) + |Concat(PiecesOf(table, points))| <= WRAP16
  }

  // ----- when one write will do -----

  /** Nothing is written past a refused value. */
  lemma {:induction false} RefusedInside(table: Table, memory: Memory, points: seq<Resource>, i: nat)
    requires i < |points| && OneByOne(table, memory, points[..i]).1 && !SingleAccepted(table, points[i])
    ensures OneByOne(table, memory, points) == (OneByOne(table, memory, points[..i]).0, false)
    decreases |points|
  {
    hide SingleAccepted;
    var front := points[..|points| - 1];
    if i < |front| {
      assert front[..i] == points[..i];
      RefusedInside(table, memory, front, i);
    } else {
      assert front == points[..i];
    }
  }

  lemma {:induction false} AllAccepted(table: Table, memory: Memory, points: seq<Resource>)
    requires EachAccepted(table, points)
    ensures OneByOne(table, memory, points) == (StoreEach(memory, PiecesOf(table, points)), true)
  {
    if points != [] {
      var front, last := points[..|points| - 1], points[|points| - 1];
      assert last in points && forall p :: p in front ==> p in points;
      AllAccepted(table, memory, front);
      var pieces := PiecesOf(table, points);
      assert pieces[..|pieces| - 1] == PiecesOf(table, front);
    }
  }

  /** Inside the window of the batch every single write stays inside the address space. */
  lemma {:induction false} WillDoAccepted(table: Table, points: seq<Resource>)
    requires points != [] && (forall p :: p in points ==> Addressable(p)) && OneWriteWillDo(table, points)
    ensures BatchAccepted(table, points) && BatchCells(table, points) == Ok(Concat(PiecesOf(table, points)))
    ensures EachAccepted(table, points)
  {
    hide Concat, CellsOf, BatchCells, LeastAddr;
    var pieces := PiecesOf(table, points);
    BatchCellsConcat(table, points);
    assert points[0] in points;
    forall p | p in points ensures SingleAccepted(table, p) {
      var i :| 0 <= i < |points| && points[i] == p;
      ConcatPrefix(pieces, i);
      assert pieces[i].at == BatchStart(points) + |Concat(pieces[..i])|;
    }
    ConcatPrefix(pieces, 0);
  }

  /** Where one write will do, it leaves the memory the single writes leave, and changes no cell outside its own
      window. */
  lemma {:induction false} BatchWriteAgreesWithSingles(table: Table, memory: Memory, points: seq<Resource>)
    requires points != [] && (forall p :: p in points ==> Addressable(p)) && OneWriteWillDo(table, points)
    ensures BatchWrite(table, memory, points) == OneByOne(table, memory, points)
    ensures var (after, ok) := BatchWrite(table, memory, points);
            var window := |Concat(PiecesOf(table, points))|;
            && ok
            && forall a :: a in memory && !(BatchStart(points) <= a < BatchStart(points) + window) ==>
                             a in after && after[a] == memory[a]
  {
    var pieces := PiecesOf(table, points);
    WillDoAccepted(table, points);
    AllAccepted(table, memory, points);
    hide Concat, Store, StoreEach, OneByOne, BatchAccepted;
    OneStoreForAll(memory, BatchStart(points), pieces);
    StoreCells(memory, BatchStart(points), Concat(pieces));
  }

  // ----- the same places -----

  lemma SameFormCells(table: Table, v: Any, w: Any)
    requires SameForm(v, w)
    ensures TakesSingle(table, v) == TakesSingle(table, w)
    ensures CellsOf(table, v).Ok? == CellsOf(table, w).Ok?
    ensures CellsOf(table, v).Ok? ==> |CellsOf(table, v).value| == |CellsOf(table, w).value|
  {
  }

  lemma {:induction false} SamePlacesCells(table: Table, points: seq<Resource>, others: seq<Resource>)
    requires SamePlaces(points, others) && forall p :: p in points ==> Addressable(p)
    ensures forall p :: p in others ==> Addressable(p)
    ensures LeastAddr(others) == LeastAddr(points)
    ensures BatchCells(table, points).Ok? == BatchCells(table, others).Ok?
    ensures BatchCells(table, points).Ok? ==> |BatchCells(table, points).value| == |BatchCells(table, others).value|
  {
    hide CellsOf, TakesSingle, SameForm, LeastAddr;
    SamePlacesLeast(points, others);
    if points != [] {
      var n := |points| - 1;
      assert points[n] in points && forall p :: p in points[..n] ==> p in points;
      SamePlacesCells(table, points[..n], others[..n]);
      SameFormCells(table, points[n].value, others[n].value);
    }
  }

  lemma {:induction false} SamePlacesLeast(points: seq<Resource>, others: seq<Resource>)
    requires SamePlaces(points, others) && forall p :: p in points ==> Addressable(p)
    ensures forall p :: p in others ==> Addressable(p)
    ensures LeastAddr(others) == LeastAddr(points)
  {
    hide SameForm, LeastAddr;
    forall i | 0 <= i < |points| ensures Addressable(others[i]) && others[i].address == points[i].address {
      assert points[i] in points;
    }
    assert forall p :: p in points + others ==> p in points || p in others;
    LeastByAddresses(points, others);
  }

  /** Whether writes are refused does not depend on the contents. */
  lemma SamePlacesAccepted(table: Table, points: seq<Resource>, others: seq<Resource>)
    requires points != [] && SamePlaces(points, others) && forall p :: p in points ==> Addressable(p)
    ensures BatchAccepted(table, others) == BatchAccepted(table, points)
    ensures SingleAccepted(table, others[0]) == SingleAccepted(table, points[0])
  {
    SamePlacesCells(table, points, others);
    SameFormCells(table, points[0].value, others[0].value);
  }

  lemma {:induction false} SamePlacesWillDo(table: Table, points: seq<Resource>, others: seq<Resource>)
    requires SamePlaces(points, others) && forall p :: p in points ==> Addressable(p)
    requires OneWriteWillDo(table, points)
    ensures (forall p :: p in others ==> Addressable(p)) && OneWriteWillDo(table, others)
  {
    hide Concat, CellsOf, BatchCells, LeastAddr, TakesSingle, SameForm;
    SamePlacesCells(table, points, others);
    forall i | 0 <= i < |points|
      ensures TakesSingle(table, others[i].value) && CellsOf(table, others[i].value).Ok?
      ensures |CellsOf(table, others[i].value).value| == |CellsOf(table, points[i].value).value|
    {
      assert points[i] in points;
      SameFormCells(table, points[i].value, others[i].value);
    }
    assert SameShape(PiecesOf(table, points), PiecesOf(table, others));
    GapFreeByShape(BatchStart(points), PiecesOf(table, points), PiecesOf(table, others));
    SameLength(PiecesOf(table, points), PiecesOf(table, others));
  }

  // ----- only then -----

  lemma {:induction false} RefusedAtOnce(table: Table, memory: Memory, points: seq<Resource>)
    requires points != [] && !SingleAccepted(table, points[0])
    ensures OneByOne(table, memory, points) == (memory, false)
  {
    if |points| > 1 {
      RefusedAtOnce(table, memory, points[..|points| - 1]);
    } else {
      assert points[..0] == [];
    }
  }

  /** An accepted first write shows. */
  lemma {:induction false} FirstLeavesTrace(table: Table, memory: Memory, points: seq<Resource>)
    requires points != [] && SingleAccepted(table, points[0])
    ensures WireAddr(points[0]) in OneByOne(table, memory, points).0
  {
    var front, last := points[..|points| - 1], points[|points| - 1];
    var before := OneByOne(table, memory, front).0;
    if SingleAccepted(table, last) { StoreCells(before, WireAddr(last), CellsOf(table, last.value).value); }
    hide Store, CellsOf;
    if |points| > 1 {
      FirstLeavesTrace(table, memory, front);
    } else {
      assert front == [] && points[0] == last;
    }
  }

  lemma {:induction false} ThroughMeansAccepted(table: Table, memory: Memory, points: seq<Resource>)
    requires OneByOne(table, memory, points).1
    ensures EachAccepted(table, points)
  {
    if points != [] {
      ThroughMeansAccepted(table, memory, points[..|points| - 1]);
      assert forall p :: p in points ==> p in points[..|points| - 1] || p == points[|points| - 1];
    }
  }

  /** A value of the same form with these cells. */
  function WithCells(value: Any, cells: seq<u16>): Any
    requires cells != []
  {
    match value
    case Bool(_) => Bool(cells[0] != 0)
    case U16(_) => U16(cells[0])
    case U16s(_) => U16s(cells)
    case _ => value
  }

  lemma WithCellsFits(table: Table, value: Any, cells: seq<u16>)
    requires TakesSingle(table, value) && |cells| == |CellsOf(table, value).value| >= 1
    requires forall c :: c in cells ==> c <= 1
    ensures SameForm(value, WithCells(value, cells))
    ensures CellsOf(table, WithCells(value, cells)) == Ok(cells)
  {
    assert cells[0] in cells;
    if |cells| == 1 { assert cells == [cells[0]]; }
  }

  /** The same points with the contents that mark the i-th. */
  function MarkedPoints(table: Table, points: seq<Resource>, i: nat): (others: seq<Resource>)
    requires EachAccepted(table, points)
    ensures |others| == |points|
  {
    seq(|points|, j requires 0 <= j < |points| =>
      assert points[j] in points;
      points[j].(value := WithCells(points[j].value, Marks(|CellsOf(table, points[j].value).value|, i == j))))
  }

  lemma MarkedPlaces(table: Table, points: seq<Resource>, i: nat)
    requires EachAccepted(table, points)
    ensures SamePlaces(points, MarkedPoints(table, points, i))
    ensures EachAccepted(table, MarkedPoints(table, points, i))
    ensures PiecesOf(table, MarkedPoints(table, points, i)) == Marked(PiecesOf(table, points), i)
  {
    hide CellsOf, WithCells, SameForm, Marks;
    var others := MarkedPoints(table, points, i);
    forall j | 0 <= j < |points|
      ensures SameForm(points[j].value, others[j].value) && TakesSingle(table, others[j].value)
      ensures CellsOf(table, others[j].value) == Ok(Marks(|CellsOf(table, points[j].value).value|, i == j))
    {
      assert points[j] in points;
      WithCellsFits(table, points[j].value, Marks(|CellsOf(table, points[j].value).value|, i == j));
      SameFormCells(table, points[j].value, others[j].value);
    }
  }

  /** If batch and single writes agree on the marked contents, the marked point begins where the cells before it end. */
  lemma {:induction false} AgreementLocates(table: Table, points: seq<Resource>, i: nat)
    requires i < |points| && EachAccepted(table, points) && BatchAccepted(table, points)
    requires Interchangeable(table, points)
    ensures PiecesOf(table, points)[i].at == BatchStart(points) + |Concat(PiecesOf(table, points)[..i])|
  {
    hide CellsOf, Concat, Store, StoreEach, OneByOne, LeastAddr, SamePlaces, MarkedPoints, Marked, BatchCells;
    var others := MarkedPoints(table, points, i);
    var empty: Memory := map[];
    MarkedPlaces(table, points, i);
    SamePlacesAccepted(table, points, others);
    SamePlacesCells(table, points, others);
    AllAccepted(table, empty, others);
    BatchCellsConcat(table, others);
    assert BatchWrite(table, empty, others) == OneByOne(table, empty, others);
    assert points[i] in points;
    MarkLocates(BatchStart(points), PiecesOf(table, points), i);
  }

  lemma {:induction false} InterchangeableWillDo(table: Table, points: seq<Resource>)
    requires points != [] && forall p :: p in points ==> Addressable(p)
    requires Interchangeable(table, points) && BatchAccepted(table, points)
    ensures OneWriteWillDo(table, points)
  {
    hide CellsOf, Concat, OneByOne, LeastAddr, BatchCells, Store, StoreEach;
    var empty: Memory := map[];
    ItselfInPlace(points);
    assert BatchWrite(table, empty, points) == OneByOne(table, empty, points);
    ThroughMeansAccepted(table, empty, points);
    BatchCellsConcat(table, points);
    forall i | 0 <= i < |points|
      ensures PiecesOf(table, points)[i].at == BatchStart(points) + |Concat(PiecesOf(table, points)[..i])|
    {
      AgreementLocates(table, points, i);
    }
  }

  lemma ItselfInPlace(points: seq<Resource>)
    ensures SamePlaces(points, points)
  {
  }

  /** A batch write can stand in for the single writes exactly if one write will do, or if both are refused before
      anything is stored. */
  lemma {:induction false} BatchWriteExactly(table: Table, points: seq<Resource>)
    requires points != [] && forall p :: p in points ==> Addressable(p)
    ensures Interchangeable(table, points) <==>
              || OneWriteWillDo(table, points)
              || (!BatchAccepted(table, points) && !SingleAccepted(table, points[0]))
  {
    hide OneWriteWillDo, BatchAccepted, SingleAccepted, OneByOne, SamePlaces;
    if OneWriteWillDo(table, points) || (!BatchAccepted(table, points) && !SingleAccepted(table, points[0])) {
      forall memory: Memory, others: seq<Resource> | SamePlaces(points, others)
        ensures BatchWrite(table, memory, others) == OneByOne(table, memory, others)
      {
        AgreesInPlace(table, memory, points, others);
      }
    }
    if Interchangeable(table, points) {
      if BatchAccepted(table, points) {
        InterchangeableWillDo(table, points);
      } else {
        InterchangeableRefused(table, points);
      }
    }
  }

  lemma {:induction false} InterchangeableRefused(table: Table, points: seq<Resource>)
    requires points != [] && (forall p :: p in points ==> Addressable(p))
    requires Interchangeable(table, points) && !BatchAccepted(table, points)
    ensures !SingleAccepted(table, points[0])
  {
    hide BatchAccepted, SingleAccepted, OneByOne, SamePlaces;
    var empty: Memory := map[];
    ItselfInPlace(points);
    assert BatchWrite(table, empty, points) == OneByOne(table, empty, points);
    if SingleAccepted(table, points[0]) {
      FirstLeavesTrace(table, empty, points);
    }
  }

  lemma {:induction false} AgreesInPlace(table: Table, memory: Memory, points: seq<Resource>, others: seq<Resource>)
    requires points != [] && (forall p :: p in points ==> Addressable(p)) && SamePlaces(points, others)
    requires OneWriteWillDo(table, points) || (!BatchAccepted(table, points) && !SingleAccepted(table, points[0]))
    ensures BatchWrite(table, memory, others) == OneByOne(table, memory, others)
  {
    hide OneWriteWillDo, BatchAccepted, SingleAccepted, OneByOne, BatchCells, LeastAddr, SameForm;
    if OneWriteWillDo(table, points) {
      SamePlacesWillDo(table, points, others);
      BatchWriteAgreesWithSingles(table, memory, others);
    } else {
      SamePlacesAccepted(table, points, others);
      RefusedAtOnce(table, memory, others);
    }
  }

  /** With addresses from 1, gap-free is what the addresses show: each point begins where the previous one ends. */
  lemma {:induction false} WillDoByAddresses(table: Table, points: seq<Resource>)
    requires points != [] && forall p :: p in points ==> Addressable(p) && Addr(p) >= 1
    ensures OneWriteWillDo(table, points) <==>
              && (forall p :: p in points ==> TakesSingle(table, p.value) && CellsOf(table, p.value).value != [])
              && Consecutive(table, points)
              && BatchCells(table, points).Ok?
              && WireAddr(points[0]) + |BatchCells(table, points).value| <= WRAP16
  {
    hide Concat, LeastAddr, BatchCells, CellsOf, GapFree, Consecutive, TakesSingle;
    if forall p :: p in points ==> TakesSingle(table, p.value) && CellsOf(table, p.value).value != [] {
      GapFreeByAddresses(table, points);
      BatchCellsConcat(table, points);
    }
  }

  lemma {:induction false} GapFreeByAddresses(table: Table, points: seq<Resource>)
    requires points != []
    requires forall p :: p in points ==> Addressable(p) && Addr(p) >= 1 && CellsOf(table, p.value).Ok?
    ensures GapFree(BatchStart(points), PiecesOf(table, points)) <==> Consecutive(table, points)
    ensures Consecutive(table, points) ==> BatchStart(points) == WireAddr(points[0])
  {
    hide CellsOf, Concat, LeastAddr, GapFree, Consecutive;
    assert points[0] in points;
    if Consecutive(table, points) {
      ConsecutiveIsGapFree(table, points);
      FirstIsLeast(table, points);
    }
    if GapFree(BatchStart(points), PiecesOf(table, points)) {
      GapFreeIsConsecutive(table, points, BatchStart(points));
    }
  }

  // ----- where it fails -----

  lemma {:induction false} TwoWrites(table: Table, memory: Memory, p: Resource, q: Resource)
    ensures OneByOne(table, memory, [p, q]) ==
            if SingleAccepted(table, p) then SingleWrite(table, SingleWrite(table, memory, p).0, q) else (memory, false)
  {
    hide SingleAccepted;
    assert [p, q][..1] == [p] && [p][..0] == [];
    assert OneByOne(table, memory, []) == (memory, true);
    assert OneByOne(table, memory, [p]) == SingleWrite(table, memory, p);
  }

  lemma {:induction false} BatchOfOne(table: Table, p: Resource)
    ensures BatchCells(table, [p]) == CellsOf(table, p.value)
  {
    assert [p][..0] == [];
    assert BatchCells(table, []) == Ok([]);
    if CellsOf(table, p.value).Ok? { assert [] + CellsOf(table, p.value).value == CellsOf(table, p.value).value; }
  }

  lemma {:induction false} TwoCells(table: Table, p: Resource, q: Resource, v: u16, w: u16)
    requires CellsOf(table, p.value) == Ok([v]) && CellsOf(table, q.value) == Ok([w])
    ensures BatchCells(table, [p, q]) == Ok([v, w])
  {
    assert [p, q][..1] == [p];
    BatchOfOne(table, p);
    assert [v] + [w] == [v, w];
  }

  lemma {:induction false} StoreOne(memory: Memory, at: int, v: u16)
    ensures Store(memory, at, [v]) == memory[at := v]
  {
    assert [v][..0] == [];
  }

  lemma {:induction false} StoreTwo(memory: Memory, at: int, v: u16, w: u16)
    ensures Store(memory, at, [v, w]) == memory[at := v][at + 1 := w]
  {
    assert [v, w][..1] == [v];
    StoreOne(memory, at, v);
  }

  /** Registers 1 and 3, one word each: the batch puts the second word into register 2. */
  lemma {:induction false} GapExample()
    ensures var points := [PointAt(1, 1, U16(7)), PointAt(3, 1, U16(9))];
            && BatchWrite(HoldingRegisters, map[], points) == (map[0 := 7, 1 := 9], true)
            && OneByOne(HoldingRegisters, map[], points) == (map[0 := 7, 2 := 9], true)
  {
    var p, q := PointAt(1, 1, U16(7)), PointAt(3, 1, U16(9));
    TwoWrites(HoldingRegisters, map[], p, q);
    TwoCells(HoldingRegisters, p, q, 7, 9);
    LeastOfTwo(p, q);
    StoreOne(map[], 0, 7);
    StoreOne(map[0 := 7], 2, 9);
    StoreTwo(map[], 0, 7, 9);
    hide OneByOne, BatchCells, LeastAddr, Store;
    assert forall x :: x in [p, q] ==> Addressable(x);
  }

  /** Two coils in one value: the batch stores both, a single write takes only one bool. */
  lemma {:induction false} CoilSliceExample()
    ensures var points := [PointAt(1, 2, Bools([true, true]))];
            && BatchWrite(Coils, map[], points) == (map[0 := 1, 1 := 1], true)
            && OneByOne(Coils, map[], points) == (map[], false)
  {
    var p := PointAt(1, 2, Bools([true, true]));
    assert [p][..0] == [];
    assert LeastAddr([]) == 0xFFFF && LeastAddr([p]) == 1;
    assert CellsOf(Coils, p.value).value == [1, 1];
    BatchOfOne(Coils, p);
    StoreTwo(map[], 0, 1, 1);
    RefusedAtOnce(Coils, map[], [p]);
  }

  /** Three registers from 65530 and six from 65533: the batch leaves the address space and stores nothing, the first
      single write goes through. */
  lemma {:induction false} AddressSpaceExample()
    ensures var points := [PointAt(65530, 3, U16s([1, 2, 3])), PointAt(65533, 6, U16s([4, 5, 6, 7, 8, 9]))];
            && BatchWrite(HoldingRegisters, map[], points) == (map[], false)
            && OneByOne(HoldingRegisters, map[], points) == (map[65529 := 1, 65530 := 2, 65531 := 3], false)
  {
    var p, q := PointAt(65530, 3, U16s([1, 2, 3])), PointAt(65533, 6, U16s([4, 5, 6, 7, 8, 9]));
    TwoWrites(HoldingRegisters, map[], p, q);
    LeastOfTwo(p, q);
    assert [p, q][..1] == [p];
    BatchOfOne(HoldingRegisters, p);
    assert BatchCells(HoldingRegisters, [p, q]) == Ok([1, 2, 3] + [4, 5, 6, 7, 8, 9]);
    assert [1, 2, 3][..2] == [1, 2];
    StoreTwo(map[], 65529, 1, 2);
    assert Store(map[], 65529, [1, 2, 3]) == Store(map[], 65529, [1, 2])[65531 := 3];
    hide OneByOne, BatchCells, LeastAddr, Store;
    assert forall x :: x in [p, q] ==> Addressable(x);
  }
}
