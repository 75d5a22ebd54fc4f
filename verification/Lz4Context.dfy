/** The compression state that lives across calls: a hash table of 4096 words, seen as 32-bit or as 16-bit
    indices, and the offset at which the next block starts. */
module Lz4Context {

  type u32 = x: int | 0 <= x < 0x1_0000_0000

  datatype TableType = ClearedTable | ByU32 | ByU16

  const WORDS := 4096
  const KB := 1024
  const GB := 1024 * 1024 * 1024
  const MAX_INPUT_SIZE := 0x7E000000

  function TableSize(t: TableType): nat {
    if t == ByU16 then 2 * WORDS else WORDS
  }

  /** The index stored for hash `h`: a whole word, or the low or high half of one. */
  function Index(words: seq<u32>, t: TableType, h: nat): nat
    requires |words| == WORDS && h < TableSize(t)
  {
    if t == ByU16 then
      if h % 2 == 0 then words[h / 2] % 65536 else words[h / 2] / 65536
    else words[h]
  }

  function Indices(words: seq<u32>, t: TableType): (r: seq<nat>)
    requires |words| == WORDS
    ensures |r| == TableSize(t)
    ensures forall h :: 0 <= h < TableSize(t) ==> r[h] == Index(words, t, h)
  {
    seq(TableSize(t), h requires 0 <= h < TableSize(t) => Index(words, t, h))
  }

  class Stream {
    const hashTable: array<u32>
    var currentOffset: nat
    var tableType: TableType
    var dictSize: nat

    /** Between calls: a cleared table is all zero and starts at offset 0; otherwise every index lies below the
        offset at which the next block starts. */
    ghost predicate Valid()
      reads this, hashTable
    {
      && hashTable.Length == WORDS
      && currentOffset <= GB + 64 * KB + MAX_INPUT_SIZE
      && if tableType == ClearedTable then currentOffset == 0 && forall w :: 0 <= w < WORDS ==> hashTable[w] == 0
         else 0 < currentOffset && forall h :: 0 <= h < TableSize(tableType) ==> Entries(tableType)[h] < currentOffset
    }

    ghost function Entries(t: TableType): (r: seq<nat>)
      requires hashTable.Length == WORDS
      reads hashTable
      ensures |r| == TableSize(t)
    {
      Indices(hashTable[..], t)
    }

    constructor ()
      ensures Valid() && fresh(hashTable)
      ensures tableType == ClearedTable && currentOffset == 0 && dictSize == 0
    {
      hashTable := new u32[WORDS](_ => 0);
      currentOffset, tableType, dictSize := 0, ClearedTable, 0;
    }

    method GetIndex(h: nat, t: TableType) returns (idx: nat)
      requires hashTable.Length == WORDS && h < TableSize(t)
      ensures idx == Entries(t)[h]
    {
      if t == ByU16 {
        var word := hashTable[h / 2];
        idx := if h % 2 == 0 then word % 65536 else word / 65536;
      } else {
        idx := hashTable[h];
      }
    }

    method PutIndex(idx: nat, h: nat, t: TableType)
      requires hashTable.Length == WORDS && h < TableSize(t)
      requires idx < if t == ByU16 then 65536 else 0x1_0000_0000
      modifies hashTable
      ensures Entries(t) == old(Entries(t))[h := idx]
    {
      ghost var was := hashTable[..];
      if t == ByU16 {
        var word := hashTable[h / 2];
        hashTable[h / 2] := if h % 2 == 0 then word / 65536 * 65536 + idx else idx * 65536 + word % 65536;
      } else {
        hashTable[h] := idx;
      }
      forall k | 0 <= k < TableSize(t)
        ensures Index(hashTable[..], t, k) == if k == h then idx else Index(was, t, k)
      {
        if t == ByU16 && k / 2 == h / 2 && k != h {
          assert k % 2 != h % 2;
        }
      }
    }

    method ClearHash(h: nat, t: TableType)
      requires hashTable.Length == WORDS && h < TableSize(t)
      modifies hashTable
      ensures Entries(t) == old(Entries(t))[h := 0]
    {
      PutIndex(0, h, t);
    }

    method Zero()
      requires hashTable.Length == WORDS
      modifies hashTable
      ensures forall w :: 0 <= w < WORDS ==> hashTable[w] == 0
    {
      forall w | 0 <= w < WORDS {
        hashTable[w] := 0;
      }
    }

    /** The table cannot be used as it is: it is of another type, or its indices would get too large, or the input is
        large enough for resetting it not to matter. */
    ghost predicate Outdated(inputSize: nat, t: TableType)
      reads this
    {
      && tableType != ClearedTable
      && (tableType != t || inputSize >= 4096
          || (t == ByU16 && currentOffset + inputSize >= 65535) || (t == ByU32 && currentOffset > GB))
    }

    /** Where the next block will start, and what it will find in the table. */
    ghost function StartFor(inputSize: nat, t: TableType): nat
      reads this
    {
      if Outdated(inputSize, t) || currentOffset == 0 then 0
      else if t == ByU32 then currentOffset + 65536
      else currentOffset
    }

    ghost function EntriesFor(inputSize: nat, t: TableType): (r: seq<nat>)
      requires hashTable.Length == WORDS
      reads this, hashTable
      ensures |r| == TableSize(t)
    {
      if Outdated(inputSize, t) || tableType == ClearedTable then Zeros(t) else Entries(t)
    }

    /** Gets the table ready for a block of `inputSize` bytes indexed as `t`, resetting it only if it must. */
    method PrepareTable(inputSize: nat, t: TableType)
      requires Valid() && t != ClearedTable
      modifies this, hashTable
      ensures hashTable.Length == WORDS && dictSize == 0 && Valid()
      ensures tableType == t || tableType == ClearedTable
      ensures Prepared(Entries(t), t, currentOffset)
      ensures t == ByU16 ==> currentOffset == 0 || currentOffset + inputSize < 0xFFFF
      ensures t == ByU32 ==> currentOffset <= GB + 64 * KB && (currentOffset == 0 || inputSize < 4 * KB)
      ensures currentOffset == old(StartFor(inputSize, t)) && Entries(t) == old(EntriesFor(inputSize, t))
    {
      if tableType != ClearedTable {
        if tableType != t
           || (t == ByU16 && currentOffset + inputSize >= 0xFFFF)
           || (t == ByU32 && currentOffset > GB)
           || inputSize >= 4 * KB {
          Zero();
          currentOffset := 0;
          tableType := ClearedTable;
        }
      }
      ghost var previous := currentOffset;
      if currentOffset != 0 && t == ByU32 {
        currentOffset := currentOffset + 64 * KB;
      }
      dictSize := 0;
      if tableType == ClearedTable {
        assert forall h :: 0 <= h < TableSize(t) ==> Entries(t)[h] == 0;
        assert Entries(t) == Zeros(t);
      }
      assert tableType != ClearedTable ==> forall h :: 0 <= h < TableSize(t) ==> Entries(t)[h] < previous;
    }
  }

  function Zeros(t: TableType): seq<nat> {
    seq(TableSize(t), _ => 0)
  }

  /** What a block that starts at `start` may find in the table: with a zero offset nothing but zeros; in a 32-bit
      table, only indices more than the maximal match distance behind. */
  ghost predicate Prepared(tbl: seq<nat>, t: TableType, start: nat) {
    forall h :: 0 <= h < |tbl| ==>
      && (start == 0 ==> tbl[h] == 0)
      && (start > 0 ==> tbl[h] < start)
      && (start > 0 && t == ByU32 ==> tbl[h] + 64 * KB < start)
  }
}
