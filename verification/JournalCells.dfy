/** The packed form of the journal: four 2-bit cells per byte, changed by masked byte operations. */
module JournalCells {
  import opened JournalTile

  // The two bits of each slot; the slot of a block is its index modulo 4.
  function Mask(slot: nat): bv8
    requires slot < 4
  {
    if slot == 0 then 0x03 else if slot == 1 then 0x0C else if slot == 2 then 0x30 else 0xC0
  }

  // A generation, moved to its slot.
  function Placed(g: Gen, slot: nat): bv8
    requires slot < 4
  {
    var v := GenByte(g);
    if slot == 0 then v else if slot == 1 then v << 2 else if slot == 2 then v << 4 else v << 6
  }

  // The generation in one of the four slots of a byte.
  function SlotOf(b: bv8, slot: nat): Gen
    requires slot < 4
  {
    var m := b & Mask(slot);
    var v := if slot == 0 then m else if slot == 1 then m >> 2 else if slot == 2 then m >> 4 else m >> 6;
    if v == 0 then 0 else if v == 1 then 1 else if v == 2 then 2 else 3
  }

  function PowerOf4(slot: nat): bv8
    requires slot < 4
  {
    if slot == 0 then 1 else if slot == 1 then 4 else if slot == 2 then 16 else 64
  }

  function GenByte(g: Gen): bv8 {
    if g == 0 then 0 else if g == 1 then 1 else if g == 2 then 2 else 3
  }

  lemma DigitsOfByte(b: bv8)
    ensures b & 0x03 == b % 4 && (b & 0x0C) >> 2 == b / 4 % 4
    ensures (b & 0x30) >> 4 == b / 16 % 4 && (b & 0xC0) >> 6 == b / 64 % 4
  {
  }

  // The cells of a byte are its four digits to the base 4, the lowest first.
  lemma CellIsDigit(b: bv8, slot: nat)
    requires slot < 4
    ensures GenByte(SlotOf(b, slot)) == b / PowerOf4(slot) % 4
  {
    DigitsOfByte(b);
    if slot == 0 {
    } else if slot == 1 {
    } else if slot == 2 {
    } else {
    }
  }

  lemma PlacedIsDigit(g: Gen, slot: nat)
    requires slot < 4
    ensures Placed(g, slot) == PowerOf4(slot) * GenByte(g) && SlotOf(Placed(g, slot), slot) == g
  {
  }

  function Busy(b: bv8, slot: nat): bv8
    requires slot < 4
  {
    b & !Mask(slot)
  }

  function Commit(b: bv8, slot: nat, g: Gen): bv8
    requires slot < 4
  {
    b | (Placed(g, slot) & Mask(slot))
  }

  // Clearing a cell leaves the three others of its byte alone.
  lemma BusyIsLocal(b: bv8, slot: nat, other: nat)
    requires slot < 4 && other < 4
    ensures SlotOf(Busy(b, slot), other) == if other == slot then 0 else SlotOf(b, other)
  {
  }

  // Committing by or: the generation itself if the cell is 0, and in any case only that cell.
  lemma CommitIsLocal(b: bv8, slot: nat, g: Gen, other: nat)
    requires slot < 4 && other < 4
    ensures SlotOf(Commit(b, slot, g), other) == if other == slot then OrGen(SlotOf(b, slot), g) else SlotOf(b, other)
  {
    if other == slot { CommitOwn(b, slot, g); } else { CommitOther(b, slot, g, other); }
  }

  lemma CommitOwn(b: bv8, slot: nat, g: Gen)
    requires slot < 4
    ensures SlotOf(Commit(b, slot, g), slot) == OrGen(SlotOf(b, slot), g)
  {
  }

  lemma CommitOther(b: bv8, slot: nat, g: Gen, other: nat)
    requires slot < 4 && other < 4 && slot != other
    ensures SlotOf(Commit(b, slot, g), other) == SlotOf(b, other)
  {
  }

  // ---- Counting the cells that name a generation ----

  function Bit(b: bool): nat {
    if b then 1 else 0
  }

  // The number of one bits.
  function Popcount8(b: bv8): nat {
    Bit(b & 0x01 != 0) + Bit(b & 0x02 != 0) + Bit(b & 0x04 != 0) + Bit(b & 0x08 != 0) +
    Bit(b & 0x10 != 0) + Bit(b & 0x20 != 0) + Bit(b & 0x40 != 0) + Bit(b & 0x80 != 0)
  }

  function ByteOfWord(w: bv64, k: nat): bv8
    requires k < 8
  {
    var v := if k == 0 then w else if k == 1 then w >> 8 else if k == 2 then w >> 16 else if k == 3 then w >> 24
             else if k == 4 then w >> 32 else if k == 5 then w >> 40 else if k == 6 then w >> 48 else w >> 56;
    (v & 0xFF) as bv8
  }

  function Popcount64(w: bv64): nat {
    Popcount8(ByteOfWord(w, 0)) + Popcount8(ByteOfWord(w, 1)) + Popcount8(ByteOfWord(w, 2)) +
    Popcount8(ByteOfWord(w, 3)) + Popcount8(ByteOfWord(w, 4)) + Popcount8(ByteOfWord(w, 5)) +
    Popcount8(ByteOfWord(w, 6)) + Popcount8(ByteOfWord(w, 7))
  }

  // The word that a copy of eight bytes yields on a little-endian machine.
  function WordOf(s: seq<bv8>): bv64
    requires |s| == 8
  {
    (s[0] as bv64) | (s[1] as bv64 << 8) | (s[2] as bv64 << 16) | (s[3] as bv64 << 24) |
    (s[4] as bv64 << 32) | (s[5] as bv64 << 40) | (s[6] as bv64 << 48) | (s[7] as bv64 << 56)
  }

  function FoldByte(b: bv8): bv8 {
    (b | (b >> 1)) & 0x55
  }

  function FoldWord(w: bv64): bv64 {
    (w | (w >> 1)) & 0x5555_5555_5555_5555
  }

  function CellsSet(b: bv8): nat {
    Bit(SlotOf(b, 0) != 0) + Bit(SlotOf(b, 1) != 0) + Bit(SlotOf(b, 2) != 0) + Bit(SlotOf(b, 3) != 0)
  }

  lemma FoldByteCounts(b: bv8)
    ensures Popcount8(FoldByte(b)) == CellsSet(b)
  {
  }

  // No cell straddles a byte, so folding a word folds each of its bytes.
  lemma FoldWordIsBytewise(w: bv64)
    ensures ByteOfWord(FoldWord(w), 0) == FoldByte(ByteOfWord(w, 0))
    ensures ByteOfWord(FoldWord(w), 1) == FoldByte(ByteOfWord(w, 1))
    ensures ByteOfWord(FoldWord(w), 2) == FoldByte(ByteOfWord(w, 2))
    ensures ByteOfWord(FoldWord(w), 3) == FoldByte(ByteOfWord(w, 3))
    ensures ByteOfWord(FoldWord(w), 4) == FoldByte(ByteOfWord(w, 4))
    ensures ByteOfWord(FoldWord(w), 5) == FoldByte(ByteOfWord(w, 5))
    ensures ByteOfWord(FoldWord(w), 6) == FoldByte(ByteOfWord(w, 6))
    ensures ByteOfWord(FoldWord(w), 7) == FoldByte(ByteOfWord(w, 7))
  {
  }

  lemma WordBytes(s: seq<bv8>, k: nat)
    requires |s| == 8 && k < 8
    ensures ByteOfWord(WordOf(s), k) == s[k]
  {
  }

  lemma FoldWordCounts(s: seq<bv8>)
    requires |s| == 8
    ensures Popcount64(FoldWord(WordOf(s))) == CellsSet(s[0]) + CellsSet(s[1]) + CellsSet(s[2]) + CellsSet(s[3])
                                             + CellsSet(s[4]) + CellsSet(s[5]) + CellsSet(s[6]) + CellsSet(s[7])
  {
    hide Popcount8, FoldByte, FoldWord, WordOf, ByteOfWord, CellsSet;
    FoldWordIsBytewise(WordOf(s));
    forall k: nat | k < 8 ensures ByteOfWord(WordOf(s), k) == s[k] { WordBytes(s, k); }
    forall k: nat | k < 8 ensures Popcount8(FoldByte(s[k])) == CellsSet(s[k]) { FoldByteCounts(s[k]); }
  }

  // ---- The cells of the whole file ----

  function CellAt(bytes: seq<bv8>, i: nat): Gen
    requires i < 4 * |bytes|
  {
    SlotOf(bytes[i / 4], i % 4)
  }

  // The number of cells among the first n that name a generation.
  function CountSet(bytes: seq<bv8>, n: nat): nat
    requires n <= 4 * |bytes|
  {
    if n == 0 then 0 else CountSet(bytes, n - 1) + Bit(CellAt(bytes, n - 1) != 0)
  }

  lemma CellInByte(bytes: seq<bv8>, k: nat, slot: nat)
    requires k < |bytes| && slot < 4
    ensures CellAt(bytes, 4 * k + slot) == SlotOf(bytes[k], slot)
  {
    hide SlotOf;
    assert (4 * k + slot) / 4 == k && (4 * k + slot) % 4 == slot;
  }

  lemma CountNext(bytes: seq<bv8>, n: nat)
    requires n < 4 * |bytes|
    ensures CountSet(bytes, n + 1) == CountSet(bytes, n) + Bit(CellAt(bytes, n) != 0)
  {
  }

  lemma CountNextByte(bytes: seq<bv8>, k: nat)
    requires k < |bytes|
    ensures CountSet(bytes, 4 * k + 4) == CountSet(bytes, 4 * k) + CellsSet(bytes[k])
  {
    hide SlotOf, CellAt, CountSet, Bit;
    forall slot: nat | slot < 4 ensures CellAt(bytes, 4 * k + slot) == SlotOf(bytes[k], slot) {
      CellInByte(bytes, k, slot);
    }
    CountNext(bytes, 4 * k);
    CountNext(bytes, 4 * k + 1);
    CountNext(bytes, 4 * k + 2);
    CountNext(bytes, 4 * k + 3);
    assert CellAt(bytes, 4 * k + 0) == SlotOf(bytes[k], 0);
  }

  // The count is the number of blocks whose cell names a generation.
  lemma {:induction false} CountIsCardinality(bytes: seq<bv8>, n: nat)
    requires n <= 4 * |bytes|
    ensures CountSet(bytes, n) == |set i | 0 <= i < n && CellAt(bytes, i) != 0|
  {
    hide CellAt;
    if n > 0 {
      CountIsCardinality(bytes, n - 1);
      var before := set i | 0 <= i < n - 1 && CellAt(bytes, i) != 0;
      var now := set i | 0 <= i < n && CellAt(bytes, i) != 0;
      assert now == if CellAt(bytes, n - 1) != 0 then before + {n - 1} else before;
    }
  }

  // Cells that are 0 count as nothing.
  lemma {:induction false} SpareCountNothing(bytes: seq<bv8>, n: nat, m: nat)
    requires n <= m <= 4 * |bytes| && forall i | n <= i < m :: CellAt(bytes, i) == 0
    ensures CountSet(bytes, m) == CountSet(bytes, n)
    decreases m
  {
    if n < m {
      SpareCountNothing(bytes, n, m - 1);
      assert CellAt(bytes, m - 1) == 0;
    }
  }
}
