/** The device at the other end of a Modbus connection: four tables, each a data block of simulator/modbus.py. */
module ModbusDevice {
  import opened GoTypes
  import opened Registers

  datatype Table = Coils | Discretes | HoldingRegisters | InputRegisters {
    predicate IsBit() { Coils? || Discretes? }
  }

  /** What a read returns: a `[]bool` or a `[]uint16`. Bits are kept as 0 and 1. */
  datatype Data = Data(isBit: bool, cells: seq<u16>)

  /** What becomes of one request: it is carried out and answered; it is lost, or refused for its size, before it
      reaches the device; or it is carried out and its answer is lost. */
  datatype Line = Up | RequestLost | AnswerLost

  /** The contents of the four tables at one instant. */
  datatype Snapshot = Snapshot(co: Memory, di: Memory, hr: Memory, ir: Memory) {
    function Of(table: Table): Memory {
      match table
      case Coils => co
      case Discretes => di
      case HoldingRegisters => hr
      case InputRegisters => ir
    }

    /** `quantity` cells of one table, from a wire address on. */
    function Read(table: Table, start: nat, quantity: nat): Data
      requires start + quantity <= WRAP16
    {
      Data(table.IsBit(), Window(table.IsBit(), Of(table), start, quantity))
    }
  }

  /** `JsonDataBlock`: cells by physical address, handed out under addresses one higher. The parent class's address
      check is switched off, so the address space itself is the callers' bound. */
  class JsonDataBlock {
    const isBit: bool
    var memory: Memory

    constructor (isBit: bool, memory: Memory)
      ensures this.isBit == isBit && this.memory == memory
    {
      this.isBit := isBit;
      this.memory := memory;
    }

    method GetValues(address: nat, count: nat) returns (values: seq<u16>)
      requires 1 <= address && address - 1 + count <= WRAP16
      ensures values == Window(isBit, memory, address - 1, count)
      ensures memory == map[] ==> forall k :: 0 <= k < count ==>
                values[k] == if !isBit then address - 1 + k else if (address - 1 + k) % 2 == 0 then 1 else 0
    {
      var physical := address - 1;
      values := [];
      for i := 0 to count
        invariant values == Window(isBit, memory, physical, i)
      {
        values := values + [Cell(isBit, memory, physical + i)];
      }
      assert forall k :: 0 <= k < count ==> values[k] == Cell(isBit, memory, physical + k);
    }

    method SetValues(address: nat, values: seq<u16>)
      requires 1 <= address
      modifies this`memory
      ensures memory == Store(old(memory), address - 1, values)
    {
      var physical := address - 1;
      for i := 0 to |values|
        invariant memory == Store(old(memory), physical, values[..i])
      {
        memory := memory[physical + i := values[i]];
        assert values[..i + 1][..i] == values[..i];
      }
      assert values[..|values|] == values;
    }
  }

  /** A connected device. It answers every request that reaches it and stays inside the 16-bit address space.
      The holding and input tables may share one block, as in the simulator. */
  class Device {
    const co: JsonDataBlock
    const di: JsonDataBlock
    const hr: JsonDataBlock
    const ir: JsonDataBlock

    constructor (co: JsonDataBlock, di: JsonDataBlock, hr: JsonDataBlock, ir: JsonDataBlock)
      requires co.isBit && di.isBit && !hr.isBit && !ir.isBit
      ensures Valid() && this.co == co && this.di == di && this.hr == hr && this.ir == ir
    {
      this.co, this.di, this.hr, this.ir := co, di, hr, ir;
    }

    ghost predicate Valid() {
      co.isBit && di.isBit && !hr.isBit && !ir.isBit
    }

    ghost function Now(): Snapshot
      reads co, di, hr, ir
    {
      Snapshot(co.memory, di.memory, hr.memory, ir.memory)
    }

    method Read(table: Table, start: u16, quantity: u16, line: Line) returns (r: Result<Data>)
      requires Valid()
      ensures r == if line.Up? && 1 <= quantity && start + quantity <= WRAP16
                   then Ok(Now().Read(table, start, quantity)) else Err
    {
      if !line.Up? { return Err; }
      if quantity == 0 || start + quantity > WRAP16 { return Err; }
      var block := match table case Coils => co case Discretes => di
                   case HoldingRegisters => hr case InputRegisters => ir;
      var cells := block.GetValues(start + 1, quantity);
      return Ok(Data(table.IsBit(), cells));
    }

    /** Writes coils or holding registers. */
    method Write(table: Table, start: u16, cells: seq<u16>, line: Line) returns (r: Result<()>)
      requires Valid() && (table.Coils? || table.HoldingRegisters?)
      modifies co`memory, hr`memory
      ensures r.Ok? <==> line.Up? && 1 <= |cells| && start + |cells| <= WRAP16
      ensures var stored := !line.RequestLost? && 1 <= |cells| && start + |cells| <= WRAP16;
              && co.memory == (if stored && table.Coils? then Store(old(co.memory), start, cells) else old(co.memory))
              && hr.memory == (if stored && table.HoldingRegisters? then Store(old(hr.memory), start, cells)
                               else old(hr.memory))
    {
      if line.RequestLost? || |cells| == 0 || start + |cells| > WRAP16 { return Err; }
      var block := if table.Coils? then co else hr;
      block.SetValues(start + 1, cells);
      if line.AnswerLost? { return Err; }
      return Ok(());
    }
  }
}
