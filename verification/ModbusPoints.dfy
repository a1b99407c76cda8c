/** The points of a batch and the span they cover: pkg/adapter/modbus/modbus.go. */
module ModbusPoints {
  import opened GoTypes
  import opened ModbusDevice

  /** `getTableType`: holding registers unless a known table is named. */
  function TableType(args: map<string, Any>): Table {
    if "primaryTable" !in args || !args["primaryTable"].Str? then HoldingRegisters
    else
      match args["primaryTable"].s
      case "COILS" => Coils
      case "DISCRETES" => Discretes
      case "INPUT_REGISTERS" => InputRegisters
      case _ => HoldingRegisters
  }

  predicate NamesTable(p: Resource, name: string) {
    "primaryTable" in p.args && p.args["primaryTable"] == Str(name)
  }

  /** Any other name, no name, or one that is not text. */
  predicate NamesNoOther(p: Resource) {
    !NamesTable(p, "COILS") && !NamesTable(p, "DISCRETES") && !NamesTable(p, "INPUT_REGISTERS")
  }

  /** `res.Address.(float64)` panics on any other type. */
  predicate Addressable(p: Resource) {
    p.address.Num? && p.address.n < WRAP16
  }

  /** The 1-based address of a point. */
  function Addr(p: Resource): u16
    requires Addressable(p)
  {
    p.address.n
  }

  /** The wire address of a point. */
  function WireAddr(p: Resource): u16
    requires Addressable(p)
  {
    Sub16(Addr(p), 1)
  }

  predicate InAddressSpace(p: Resource)
    requires Addressable(p)
  {
    WireAddr(p) + p.length <= WRAP16
  }

  /** Points the engine can read: addressed, and at least one cell long (a zero length panics on `v[0]`). */
  predicate Readable(points: seq<Resource>) {
    forall p :: p in points ==> Addressable(p) && p.length >= 1
  }

  // ----- spans -----

  function LeastAddr(points: seq<Resource>): u16
    requires forall p :: p in points ==> Addressable(p)
  {
    if points == [] then 0xFFFF
    else
      var least := LeastAddr(points[..|points| - 1]);
      var addr := Addr(points[|points| - 1]);
      if addr < least then addr else least
  }

  /** The greatest end, each end computed in 16 bits. */
  function GreatestEnd(points: seq<Resource>): u16
    requires forall p :: p in points ==> Addressable(p)
  {
    if points == [] then 0
    else
      var greatest := GreatestEnd(points[..|points| - 1]);
      var end := Add16(Addr(points[|points| - 1]), points[|points| - 1].length);
      if end > greatest then end else greatest
  }

  /** `calculateBatchSpan`. */
  method CalculateBatchSpan(points: seq<Resource>) returns (minAddr: u16, quantity: u16)
    requires forall p :: p in points ==> Addressable(p)
    ensures minAddr == LeastAddr(points)
    ensures quantity == Sub16(GreatestEnd(points), LeastAddr(points))
  {
    minAddr := 0xFFFF;
    var maxEnd: u16 := 0;
    for i := 0 to |points|
      invariant minAddr == LeastAddr(points[..i]) && maxEnd == GreatestEnd(points[..i])
    {
      assert points[..i + 1][..i] == points[..i] && points[i] in points;
      var addr, length := Addr(points[i]), points[i].length;
      if addr < minAddr { minAddr := addr; }
      var endAddr := Add16(addr, length);
      if endAddr > maxEnd { maxEnd := endAddr; }
    }
    assert points[..|points|] == points;
    quantity := Sub16(maxEnd, minAddr);
  }

  /** The end of the point's window does not wrap around 16 bits. */
  predicate Unwrapped(p: Resource) {
    Addressable(p) && Addr(p) + p.length < WRAP16
  }

  lemma {:induction false} SpanBounds(points: seq<Resource>)
    requires forall p :: p in points ==> Addressable(p)
    ensures forall p :: p in points ==> LeastAddr(points) <= Addr(p) && Add16(Addr(p), p.length) <= GreatestEnd(points)
    ensures points != [] ==> exists p :: p in points && LeastAddr(points) == Addr(p)
    ensures points != [] ==> exists p :: p in points && GreatestEnd(points) == Add16(Addr(p), p.length)
  {
    if points != [] {
      var front, last := points[..|points| - 1], points[|points| - 1];
      SpanBounds(front);
      assert last in points;
      assert forall p :: p in front ==> p in points;
      assert forall p :: p in points ==> p in front || p == last;
      if front == [] {
        assert GreatestEnd(front) == 0;
      } else {
        var p :| p in front && LeastAddr(front) == Addr(p);
        var q :| q in front && GreatestEnd(front) == Add16(Addr(q), q.length);
        assert p in points && q in points;
      }
    }
  }

  /** Only the addresses matter. */
  lemma {:induction false} LeastByAddresses(points: seq<Resource>, others: seq<Resource>)
    requires |others| == |points| && forall p :: p in points + others ==> Addressable(p)
    requires forall i :: 0 <= i < |points| ==> others[i].address == points[i].address
    ensures LeastAddr(others) == LeastAddr(points)
  {
    hide LeastAddr;
    LastLeast(points);
    LastLeast(others);
    if points != [] {
      var n := |points| - 1;
      LeastByAddresses(points[..n], others[..n]);
    }
  }

  lemma {:induction false} LastLeast(points: seq<Resource>)
    requires forall p :: p in points ==> Addressable(p)
    ensures var n := |points| - 1;
            LeastAddr(points) ==
            if points == [] then 0xFFFF
            else if Addr(points[n]) < LeastAddr(points[..n]) then Addr(points[n]) else LeastAddr(points[..n])
  {
  }

  predicate InWindow(p: Resource, a: int)
    requires Addressable(p)
  {
    Addr(p) <= a < Addr(p) + p.length
  }

  /** The interval [lo, hi) holds every cell of every point. */
  ghost predicate Covers(lo: int, hi: int, points: seq<Resource>)
    requires forall p :: p in points ==> Addressable(p)
  {
    forall p, a: int :: p in points && InWindow(p, a) ==> lo <= a < hi
  }

  /** Without wrap-around the span is a tight cover: every window lies inside it, and no smaller interval holds
      them all. */
  lemma {:induction false} SpanIsTightCover(points: seq<Resource>)
    requires points != [] && Readable(points)
    requires forall p :: p in points ==> Unwrapped(p)
    ensures var lo := LeastAddr(points);
            var hi := lo + Sub16(GreatestEnd(points), LeastAddr(points));
            Covers(lo, hi, points) && forall l: int, h: int :: Covers(l, h, points) ==> l <= lo && hi <= h
  {
    SpanBounds(points);
    var lo, top := LeastAddr(points), GreatestEnd(points);
    var p :| p in points && lo == Addr(p);
    var q :| q in points && top == Add16(Addr(q), q.length);
    assert lo < top by { assert Add16(Addr(p), p.length) <= top; }
    forall l: int, h: int | Covers(l, h, points) ensures l <= lo && top <= h {
      assert InWindow(p, lo) && InWindow(q, top - 1);
    }
  }

  // ----- two points -----

  /** A point of the default table. */
  function PointAt(address: nat, length: u16, value: Any): Resource {
    Resource("", Num(address), length, value, "", "", "", map[])
  }

  lemma {:induction false} LeastOfTwo(p: Resource, q: Resource)
    requires Addressable(p) && Addressable(q) && Addr(p) <= Addr(q)
    ensures LeastAddr([p, q]) == Addr(p)
  {
    assert [p, q][..1] == [p] && [p][..0] == [];
    assert LeastAddr([]) == 0xFFFF;
    assert LeastAddr([p]) == Addr(p);
  }

  lemma {:induction false} GreatestOfTwo(p: Resource, q: Resource)
    requires Addressable(p) && Addressable(q)
    ensures var e, f := Add16(Addr(p), p.length), Add16(Addr(q), q.length);
            GreatestEnd([p, q]) == if e < f then f else e
  {
    assert [p, q][..1] == [p] && [p][..0] == [];
    assert GreatestEnd([]) == 0;
    assert GreatestEnd([p]) == Add16(Addr(p), p.length);
  }
}
