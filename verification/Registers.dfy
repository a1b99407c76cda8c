/** Device memory: windows of cells, and merging consecutive writes into one. */
module Registers {
  import opened GoTypes

  /** Cells by wire address; bit cells hold 0 or 1. */
  type Memory = map<int, u16>

  /** `JsonDataBlock.getValues` for one cell: stored cells as stored, other cells derived from their address. */
  function Cell(isBit: bool, memory: Memory, address: u16): (v: u16)
    ensures isBit ==> v <= 1
  {
    if address in memory then
      if isBit then (if memory[address] != 0 then 1 else 0) else memory[address]
    else if isBit then (if address % 2 == 0 then 1 else 0)
    else address
  }

  function Window(isBit: bool, memory: Memory, start: nat, count: nat): (cells: seq<u16>)
    requires start + count <= WRAP16
    ensures |cells| == count
  {
    seq<u16>(count, i requires 0 <= i < count => Cell(isBit, memory, start + i))
  }

  /** `setValues`: consecutive cells from `start`. */
  function Store(memory: Memory, start: int, values: seq<u16>): Memory {
    if values == [] then memory
    else Store(memory, start, values[..|values| - 1])[start + |values| - 1 := values[|values| - 1]]
  }

  lemma {:induction false} StoreCells(memory: Memory, start: int, values: seq<u16>)
    ensures forall a :: a in Store(memory, start, values) <==> a in memory || start <= a < start + |values|
    ensures forall a :: start <= a < start + |values| ==> Store(memory, start, values)[a] == values[a - start]
    ensures forall a :: a in memory && !(start <= a < start + |values|) ==> Store(memory, start, values)[a] == memory[a]
  {
    if values != [] {
      StoreCells(memory, start, values[..|values| - 1]);
    }
  }

  /** A window inside what was written reads back as written; a window apart from it is untouched. */
  lemma {:induction false} WindowAfterStore(isBit: bool, memory: Memory, start: nat, values: seq<u16>,
                                            at: nat, count: nat)
    requires at + count <= WRAP16
    requires isBit ==> forall v :: v in values ==> v <= 1
    ensures start <= at && at + count <= start + |values| ==>
              Window(isBit, Store(memory, start, values), at, count) == values[at - start..at - start + count]
    ensures at + count <= start || start + |values| <= at ==>
              Window(isBit, Store(memory, start, values), at, count) == Window(isBit, memory, at, count)
  {
    hide Store, Window, Cell;
    StoreCells(memory, start, values);
    var after := Store(memory, start, values);
    if start <= at && at + count <= start + |values| {
      var part := values[at - start..at - start + count];
      assert forall v :: v in part ==> v in values;
      WindowOfStored(isBit, after, at, part);
    }
    if at + count <= start || start + |values| <= at {
      WindowAgrees(isBit, after, memory, at, count);
    }
  }

  lemma WindowOfStored(isBit: bool, memory: Memory, at: nat, part: seq<u16>)
    requires at + |part| <= WRAP16
    requires forall a :: at <= a < at + |part| ==> a in memory && memory[a] == part[a - at]
    requires isBit ==> forall v :: v in part ==> v <= 1
    ensures Window(isBit, memory, at, |part|) == part
  {
    var w := Window(isBit, memory, at, |part|);
    forall i | 0 <= i < |part| ensures w[i] == part[i] {
      assert w[i] == Cell(isBit, memory, at + i) && part[i] in part;
    }
  }

  lemma WindowAgrees(isBit: bool, m1: Memory, m2: Memory, at: nat, count: nat)
    requires at + count <= WRAP16
    requires forall a :: at <= a < at + count ==> (a in m1 <==> a in m2) && (a in m1 ==> m1[a] == m2[a])
    ensures Window(isBit, m1, at, count) == Window(isBit, m2, at, count)
  {
    var w1, w2 := Window(isBit, m1, at, count), Window(isBit, m2, at, count);
    forall i | 0 <= i < count ensures w1[i] == w2[i] {
      assert w1[i] == Cell(isBit, m1, at + i) && w2[i] == Cell(isBit, m2, at + i);
    }
  }

  /** A window of a window is a window. */
  lemma SubWindow(isBit: bool, memory: Memory, start: nat, count: nat, offset: nat, length: nat)
    requires start + count <= WRAP16 && offset + length <= count
    ensures Window(isBit, memory, start, count)[offset..offset + length]
         == Window(isBit, memory, start + offset, length)
  {
  }

  // ----- many writes, one write -----

  /** The cells one point writes, from its wire address on. */
  datatype Piece = Piece(at: int, cells: seq<u16>)

  /** Writing the pieces one after the other. */
  function StoreEach(memory: Memory, pieces: seq<Piece>): Memory {
    if pieces == [] then memory
    else
      var last := pieces[|pieces| - 1];
      Store(StoreEach(memory, pieces[..|pieces| - 1]), last.at, last.cells)
  }

  /** All cells in list order. */
  function Concat(pieces: seq<Piece>): seq<u16> {
    if pieces == [] then [] else Concat(pieces[..|pieces| - 1]) + pieces[|pieces| - 1].cells
  }

  /** Each piece begins where the cells of those before it end. */
  predicate GapFree(start: int, pieces: seq<Piece>) {
    forall i {:trigger pieces[i]} :: 0 <= i < |pieces| ==> pieces[i].at == start + |Concat(pieces[..i])|
  }

  lemma {:induction false} ConcatPrefix(pieces: seq<Piece>, i: nat)
    requires i < |pieces|
    ensures Concat(pieces[..i]) + pieces[i].cells <= Concat(pieces)
    ensures Concat(pieces[..i + 1]) == Concat(pieces[..i]) + pieces[i].cells
    decreases |pieces|
  {
    assert pieces[..i + 1][..i] == pieces[..i];
    var front := pieces[..|pieces| - 1];
    if i < |pieces| - 1 {
      ConcatPrefix(front, i);
      assert front[..i] == pieces[..i];
    } else {
      assert front == pieces[..i];
    }
  }

  lemma {:induction false} StoreConcat(memory: Memory, start: int, a: seq<u16>, b: seq<u16>)
    ensures Store(memory, start, a + b) == Store(Store(memory, start, a), start + |a|, b)
  {
    if b == [] {
      assert a + b == a;
    } else {
      StoreConcat(memory, start, a, b[..|b| - 1]);
      assert (a + b)[..|a + b| - 1] == a + b[..|b| - 1];
    }
  }

  /** Gap-free pieces can be written as one. */
  lemma {:induction false} OneStoreForAll(memory: Memory, start: int, pieces: seq<Piece>)
    requires GapFree(start, pieces)
    ensures Store(memory, start, Concat(pieces)) == StoreEach(memory, pieces)
  {
    if pieces != [] {
      var front, last := pieces[..|pieces| - 1], pieces[|pieces| - 1];
      forall i | 0 <= i < |front| ensures front[i].at == start + |Concat(front[..i])| {
        assert front[..i] == pieces[..i] && front[i] == pieces[i];
      }
      OneStoreForAll(memory, start, front);
      assert pieces[|pieces| - 1].at == start + |Concat(front)|;
      StoreConcat(memory, start, Concat(front), last.cells);
    }
  }

  /** After the merged write each piece reads back from its own place. */
  lemma {:induction false} GapFreeReadBack(isBit: bool, memory: Memory, start: nat, pieces: seq<Piece>, i: nat)
    requires GapFree(start, pieces) && i < |pieces| && (isBit ==> AreBits(pieces))
    requires start + |Concat(pieces)| <= WRAP16
    ensures start <= pieces[i].at && pieces[i].at + |pieces[i].cells| <= WRAP16
    ensures Window(isBit, Store(memory, start, Concat(pieces)), pieces[i].at, |pieces[i].cells|) == pieces[i].cells
  {
    hide Store, Window, Concat;
    var base := |Concat(pieces[..i])|;
    ConcatPrefix(pieces, i);
    assert pieces[i].at == start + base;
    assert Concat(pieces)[base..base + |pieces[i].cells|] == pieces[i].cells;
    if isBit { ConcatBits(pieces); }
    WindowAfterStore(isBit, memory, start, Concat(pieces), start + base, |pieces[i].cells|);
  }

  predicate AreBits(pieces: seq<Piece>) {
    forall p, v :: p in pieces && v in p.cells ==> v <= 1
  }

  lemma {:induction false} ConcatBits(pieces: seq<Piece>)
    requires AreBits(pieces)
    ensures forall v :: v in Concat(pieces) ==> v <= 1
  {
    if pieces != [] {
      var front, last := pieces[..|pieces| - 1], pieces[|pieces| - 1];
      assert last in pieces && forall p :: p in front ==> p in pieces;
      ConcatBits(front);
    }
  }

  // ----- only gap-free pieces can -----

  predicate SameShape(p: seq<Piece>, q: seq<Piece>) {
    |p| == |q| && forall i :: 0 <= i < |p| ==> p[i].at == q[i].at && |p[i].cells| == |q[i].cells|
  }

  lemma {:induction false} SameLength(p: seq<Piece>, q: seq<Piece>)
    requires SameShape(p, q)
    ensures |Concat(p)| == |Concat(q)|
  {
    if p != [] {
      SameLength(p[..|p| - 1], q[..|q| - 1]);
    }
  }

  /** The same places, with a 1 in the first cell of the i-th piece and 0 everywhere else. */
  function Marked(pieces: seq<Piece>, i: nat): (r: seq<Piece>)
    ensures SameShape(pieces, r)
  {
    seq(|pieces|, j requires 0 <= j < |pieces| =>
      Piece(pieces[j].at, Marks(|pieces[j].cells|, i == j)))
  }

  function Marks(count: nat, first: bool): (cells: seq<u16>)
    ensures |cells| == count
    ensures forall k :: 0 <= k < count ==> cells[k] == if first && k == 0 then 1 else 0
  {
    seq<u16>(count, k requires 0 <= k < count => if first && k == 0 then 1 else 0)
  }

  /** In the merged write the mark sits where the cells of the earlier pieces end. */
  lemma MarkInConcat(pieces: seq<Piece>, i: nat)
    requires i < |pieces| && pieces[i].cells != []
    ensures |Concat(pieces[..i])| < |Concat(Marked(pieces, i))|
    ensures Concat(Marked(pieces, i))[|Concat(pieces[..i])|] == 1
  {
    hide Concat;
    var marked := Marked(pieces, i);
    ConcatPrefix(marked, i);
    SameLength(pieces[..i], marked[..i]);
    var base := |Concat(marked[..i])|;
    assert (Concat(marked[..i]) + marked[i].cells)[base] == marked[i].cells[0] == 1;
  }

  /** Written in turn, the mark can only sit where its own piece puts it. */
  lemma {:induction false} MarkOrigin(pieces: seq<Piece>, i: nat, n: nat, address: int)
    requires i < |pieces| && n <= |pieces|
    requires var after := StoreEach(map[], Marked(pieces, i)[..n]); address in after && after[address] == 1
    ensures address == pieces[i].at
  {
    if n > 0 {
      var marked := Marked(pieces, i);
      var last, before := marked[n - 1], StoreEach(map[], marked[..n - 1]);
      assert marked[..n][..n - 1] == marked[..n - 1] && marked[..n][n - 1] == last;
      StoreCells(before, last.at, last.cells);
      hide Store;
      if last.at <= address < last.at + |last.cells| {
        assert last.cells[address - last.at] == 1;
      } else {
        MarkOrigin(pieces, i, n - 1, address);
      }
    }
  }

  /** If merging the marked write goes unnoticed, the marked piece begins where the cells before it end. */
  lemma {:induction false} MarkLocates(start: int, pieces: seq<Piece>, i: nat)
    requires i < |pieces| && pieces[i].cells != []
    requires Store(map[], start, Concat(Marked(pieces, i))) == StoreEach(map[], Marked(pieces, i))
    ensures pieces[i].at == start + |Concat(pieces[..i])|
  {
    hide Store, StoreEach, Concat;
    var marked := Marked(pieces, i);
    var empty: Memory := map[];
    MarkInConcat(pieces, i);
    StoreCells(empty, start, Concat(marked));
    assert marked[..|pieces|] == marked;
    MarkOrigin(pieces, i, |pieces|, start + |Concat(pieces[..i])|);
  }

  /** Merging the writes is unobservable: for any memory, and any values the cells can hold in the same places. */
  ghost predicate MergeIsFaithful(isBit: bool, start: int, pieces: seq<Piece>) {
    forall memory: Memory, others: seq<Piece> :: SameShape(pieces, others) && (isBit ==> AreBits(others)) ==>
      Store(memory, start, Concat(others)) == StoreEach(memory, others)
  }

  /** The merged write has the effect of the separate writes, whatever the memory and whatever the values, exactly
      for gap-free pieces; bits are enough to tell. */
  lemma {:induction false} MergeExactlyGapFree(isBit: bool, start: int, pieces: seq<Piece>)
    requires forall p :: p in pieces ==> p.cells != []
    ensures GapFree(start, pieces) <==> MergeIsFaithful(isBit, start, pieces)
  {
    hide Store, StoreEach, Concat;
    if GapFree(start, pieces) {
      forall memory: Memory, others: seq<Piece> | SameShape(pieces, others) && (isBit ==> AreBits(others))
        ensures Store(memory, start, Concat(others)) == StoreEach(memory, others)
      {
        GapFreeByShape(start, pieces, others);
        OneStoreForAll(memory, start, others);
      }
    }
    if MergeIsFaithful(isBit, start, pieces) {
      forall i | 0 <= i < |pieces| ensures pieces[i].at == start + |Concat(pieces[..i])| {
        assert pieces[i] in pieces;
        assert AreBits(Marked(pieces, i));
        var empty: Memory := map[];
        assert Store(empty, start, Concat(Marked(pieces, i))) == StoreEach(empty, Marked(pieces, i));
        MarkLocates(start, pieces, i);
      }
    }
  }

  lemma {:induction false} GapFreeByShape(start: int, pieces: seq<Piece>, others: seq<Piece>)
    requires GapFree(start, pieces) && SameShape(pieces, others)
    ensures GapFree(start, others)
  {
    hide Concat;
    forall i | 0 <= i < |others| ensures others[i].at == start + |Concat(others[..i])| {
      assert pieces[i].at == start + |Concat(pieces[..i])|;
      SameLength(pieces[..i], others[..i]);
    }
  }
}
