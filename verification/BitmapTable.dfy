/** The byte-packed bitmap with one row per tuple and one bit column per branch. */
module BitmapTable {
  import opened Wrappers

  const BITS_PER_BYTE: nat := 8

  // ----- one byte

  function TestBit(section: bv8, i: nat): bool
    requires i < 8
  {
    (section >> i) & 1 == 1
  }

  /** Replaces bit `i` by the masked-exclusive-or update. */
  function AssignBit(section: bv8, i: nat, value: bool): bv8
    requires i < 8
  {
    var spread: bv8 := if value then 0xFF else 0;
    section ^ ((spread ^ section) & (1 << i))
  }

  lemma AssignBitSetsOneBit(section: bv8, i: nat, value: bool, j: nat)
    requires i < 8 && j < 8
    ensures TestBit(AssignBit(section, i, value), j) == if i == j then value else TestBit(section, j)
  {
    var spread: bv8 := if value then 0xFF else 0;
    TestsMask(section, j);
    TestsMask(AssignBit(section, i, value), j);
    MasksDiffer(i, j);
    MaskedUpdate(section, spread, 1 << i, 1 << j);
  }

  lemma TestsMask(section: bv8, j: nat)
    requires j < 8
    ensures TestBit(section, j) <==> section & (1 << j) != 0
  {
    if {
      case j == 0 => case j == 1 => case j == 2 => case j == 3 =>
      case j == 4 => case j == 5 => case j == 6 => case j == 7 =>
    }
  }

  lemma MasksDiffer(i: nat, j: nat)
    requires i < 8 && j < 8
    ensures var mask, other: bv8 := 1 << i, 1 << j;
            mask != 0 && (i != j ==> mask & other == 0)
  {
    if {
      case j == 0 => case j == 1 => case j == 2 => case j == 3 =>
      case j == 4 => case j == 5 => case j == 6 => case j == 7 =>
    }
  }

  /** The update takes the masked bits from `spread` and leaves the others. */
  lemma MaskedUpdate(section: bv8, spread: bv8, mask: bv8, other: bv8)
    ensures (section ^ ((spread ^ section) & mask)) & mask == spread & mask
    ensures mask & other == 0 ==> (section ^ ((spread ^ section) & mask)) & other == section & other
  {
  }

  // ----- the packed matrix

  function Cell(row: seq<bv8>, column: nat): bool
    requires column < 8 * |row|
  {
    TestBit(row[column / 8], column % 8)
  }

  function WithCell(row: seq<bv8>, column: nat, value: bool): (r: seq<bv8>)
    requires column < 8 * |row|
    ensures |r| == |row|
    ensures forall c | 0 <= c < 8 * |row| :: Cell(r, c) == if c == column then value else Cell(row, c)
  {
    var r := row[column / 8 := AssignBit(row[column / 8], column % 8, value)];
    assert forall c | 0 <= c < 8 * |row| :: Cell(r, c) == (if c == column then value else Cell(row, c)) by {
      forall c | 0 <= c < 8 * |row| ensures Cell(r, c) == if c == column then value else Cell(row, c) {
        if c / 8 == column / 8 {
          AssignBitSetsOneBit(row[column / 8], column % 8, value, c % 8);
        }
      }
    }
    r
  }

  /** The first `width` columns of every row, as booleans. */
  ghost function Unpacked(data: seq<seq<bv8>>, width: nat): seq<seq<bool>>
    requires forall t | 0 <= t < |data| :: width <= 8 * |data[t]|
  {
    seq(|data|, t requires 0 <= t < |data| => seq(width, c requires 0 <= c < width => Cell(data[t], c)))
  }

  class BitmapTable {
    var availableCount: nat
    var columnCount: nat
    var data: seq<seq<bv8>>

    ghost predicate Valid()
      reads this
    {
      && availableCount % BITS_PER_BYTE == 0
      && columnCount <= availableCount
      && forall t | 0 <= t < |data| :: 8 * |data[t]| == availableCount
    }

    /** The abstract value: a matrix of rows by columns. */
    ghost function Matrix(): (m: seq<seq<bool>>)
      reads this
      requires Valid()
      ensures |m| == |data| && forall t | 0 <= t < |m| :: |m[t]| == columnCount
    {
      Unpacked(data, columnCount)
    }

    constructor (columnCountHint: nat)
      ensures Valid() && columnCount == 0 && Matrix() == []
      ensures columnCountHint <= availableCount < columnCountHint + 8
    {
      var bytesPerTuple := (columnCountHint + 7) / 8;
      availableCount := bytesPerTuple * 8;
      columnCount := 0;
      data := [];
    }

    function IsSet(tid: nat, column: nat): (b: bool)
      reads this
      requires Valid() && tid < |data| && column < columnCount
      ensures b == Matrix()[tid][column]
    {
      TestBit(data[tid][column / 8], column % 8)
    }

    method Set(tid: nat, column: nat, value: bool)
      requires Valid() && tid < |data| && column < columnCount
      modifies this`data
      ensures Valid()
      ensures Matrix() == old(Matrix()[tid := Matrix()[tid][column := value]])
      ensures data == old(data)[tid := WithCell(old(data)[tid], column, value)]
    {
      data := data[tid := WithCell(data[tid], column, value)];
      UnpackedSet(old(data), columnCount, tid, column, value);
    }

    method AddRow()
      requires Valid()
      modifies this`data
      ensures Valid()
      ensures Matrix() == old(Matrix()) + [seq(columnCount, _ => false)]
    {
      var row := seq(availableCount / 8, _ => 0);
      data := data + [row];
      assert forall c | 0 <= c < columnCount :: !Cell(row, c) by {
        forall c | 0 <= c < columnCount ensures !Cell(row, c) { ZeroByteIsClear(c % 8); }
      }
      var zeros := seq(columnCount, _ => false);
      forall t | 0 <= t < |data| ensures Matrix()[t] == (old(Matrix()) + [zeros])[t] {
        if t == |old(data)| {
          assert Matrix()[t] == zeros;
        }
      }
    }

    /** None stands for the exception thrown when the bitmap has no free column; the column counter
        has been incremented by then. */
    method AddColumn() returns (column: Option<nat>)
      requires Valid()
      modifies this
      ensures availableCount == old(availableCount) && columnCount == old(columnCount) + 1
      ensures column == if old(columnCount) < availableCount then Some(old(columnCount)) else None
      ensures column.None? ==> data == old(data)
      ensures column.Some? ==> Valid() && Matrix() == WithColumn(old(Matrix()), seq(|old(data)|, _ => false))
    {
      var index := columnCount;
      columnCount := columnCount + 1;
      if columnCount > availableCount { return None; }
      ghost var bits := seq(|data|, _ => false);
      var tid := 0;
      while tid < |data|
        invariant tid <= |data| == |old(data)| && Valid()
        invariant columnCount == index + 1 && availableCount == old(availableCount)
        invariant ColumnFilled(data, old(data), index, bits, tid)
      {
        Set(tid, index, false);
        tid := tid + 1;
      }
      UnpackedColumn(data, old(data), index, bits);
      return Some(index);
    }

    method CloneColumn(original: nat) returns (column: Option<nat>)
      requires Valid() && original < columnCount
      modifies this
      ensures availableCount == old(availableCount) && columnCount == old(columnCount) + 1
      ensures column == if old(columnCount) < availableCount then Some(old(columnCount)) else None
      ensures column.None? ==> data == old(data)
      ensures column.Some? ==>
                Valid() && Matrix() == WithColumn(old(Matrix()), ColumnOf(old(Matrix()), original))
    {
      var index := columnCount;
      columnCount := columnCount + 1;
      if columnCount > availableCount { return None; }
      ghost var bits := ColumnOf(old(Matrix()), original);
      var tid := 0;
      while tid < |data|
        invariant tid <= |data| == |old(data)| && Valid()
        invariant columnCount == index + 1 && availableCount == old(availableCount)
        invariant ColumnFilled(data, old(data), index, bits, tid)
      {
        var bit := IsSet(tid, original);
        Set(tid, index, bit);
        tid := tid + 1;
      }
      UnpackedColumn(data, old(data), index, bits);
      return Some(index);
    }
  }

  ghost function ColumnOf(m: seq<seq<bool>>, column: nat): seq<bool>
    requires forall t | 0 <= t < |m| :: column < |m[t]|
  {
    seq(|m|, t requires 0 <= t < |m| => m[t][column])
  }

  ghost function WithColumn(m: seq<seq<bool>>, bits: seq<bool>): seq<seq<bool>>
    requires |m| == |bits|
  {
    seq(|m|, t requires 0 <= t < |m| => m[t] + [bits[t]])
  }

  /** The first `done` rows of `data` hold `bits` in column `index`; nothing left of it changed. */
  ghost predicate ColumnFilled(data: seq<seq<bv8>>, before: seq<seq<bv8>>, index: nat, bits: seq<bool>, done: nat)
  {
    && done <= |data| == |before| == |bits|
    && (forall t | 0 <= t < |data| :: index < 8 * |data[t]| == 8 * |before[t]|)
    && (forall t, c | 0 <= t < |data| && 0 <= c < index :: Cell(data[t], c) == Cell(before[t], c))
    && (forall t | 0 <= t < done :: Cell(data[t], index) == bits[t])
  }

  lemma UnpackedSet(data: seq<seq<bv8>>, width: nat, tid: nat, column: nat, value: bool)
    requires forall t | 0 <= t < |data| :: width <= 8 * |data[t]|
    requires tid < |data| && column < width
    ensures var m := Unpacked(data, width);
            Unpacked(data[tid := WithCell(data[tid], column, value)], width) == m[tid := m[tid][column := value]]
  {
    var m := Unpacked(data, width);
    var after := Unpacked(data[tid := WithCell(data[tid], column, value)], width);
    assert after[tid] == m[tid][column := value];
  }

  lemma UnpackedColumn(data: seq<seq<bv8>>, before: seq<seq<bv8>>, index: nat, bits: seq<bool>)
    requires ColumnFilled(data, before, index, bits, |data|)
    ensures Unpacked(data, index + 1) == WithColumn(Unpacked(before, index), bits)
  {
    var after, m := Unpacked(data, index + 1), Unpacked(before, index);
    forall t | 0 <= t < |data| ensures after[t] == m[t] + [bits[t]] {}
  }

  lemma ZeroByteIsClear(i: nat)
    requires i < 8
    ensures !TestBit(0, i)
  {}
}
