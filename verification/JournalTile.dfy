/** Content generations, and the content that a generation prescribes for a journal block. */
module JournalTile {
  import opened Arith
  import opened Word64

  // 0 means uninitialized or being written; 1..3 are rotating content generations.
  type Gen = g: nat | g <= 3

  function NextGen(prev: Gen): (g: Gen)
    ensures g != 0 && g != prev
  {
    if prev == 0 then 1 else prev % 3 + 1
  }

  // Rotation has period three and never stands still: three consecutive generations of a
  // block that already holds one are all the generations there are.
  lemma RotationVisitsAll(g: Gen)
    requires g != 0
    ensures {g, NextGen(g), NextGen(NextGen(g))} == {1, 2, 3}
    ensures NextGen(NextGen(NextGen(g))) == g
  {
    assert g == 1 || g == 2 || g == 3;
  }

  // The bitwise or of two 2-bit cell values.
  function OrGen(a: Gen, b: Gen): Gen {
    if a == 0 then b else if b == 0 || a == b then a else 3
  }

  // ---- The 64-bit content value ----

  const SEED_FACTOR: nat := 0x9E37_79B9_7F4A_7C15
  const GEN_FACTOR: nat := 0xBF58_476D_1CE4_E5B9
  const MIX_FACTOR_A: nat := 0xFF51_AFD7_ED55_8CCD
  const MIX_FACTOR_B: nat := 0xC4CE_B9FE_1A85_EC53

  function XorShift(x: u64): u64 {
    ShiftBound(x, 33);
    Xor64(x, ShiftRight(x, 33))
  }

  function MixA(x: u64): u64 {
    WrapMul(x, MIX_FACTOR_A)
  }

  function MixB(x: u64): u64 {
    WrapMul(x, MIX_FACTOR_B)
  }

  function Avalanche(x: u64): u64 {
    XorShift(MixB(XorShift(MixA(XorShift(x)))))
  }

  function TileValue(offset: u64, seed: u64, g: Gen): u64 {
    Avalanche(Xor64(Xor64(offset, WrapMul(seed, SEED_FACTOR)), WrapMul(g, GEN_FACTOR)))
  }

  lemma ShiftBound(x: nat, k: nat)
    ensures ShiftRight(x, k) <= x
  {
    var p, q := Pow2(k), ShiftRight(x, k);
    MulLe(1, p, q);
    assert p * q <= x;
  }

  lemma XorShiftInjective(x: u64, y: u64)
    ensures XorShift(x) == XorShift(y) ==> x == y
  {
    XorShiftUndone(x);
    XorShiftUndone(y);
  }

  // The upper 33 bits pass unchanged and give back the lower ones.
  lemma XorShiftUndone(x: u64)
    ensures XorShift(XorShift(x)) == x
  {
    var high := ShiftRight(x, 33);
    ShiftBound(x, 33);
    Pow2Of64();
    assert ShiftRight(high, 33) == 0;
    XorShiftRight(x, high, 33);
    XorZero(high);
    XorCancels(x, high);
  }

  lemma MixInjective(x: u64, y: u64)
    ensures MixA(x) == MixA(y) ==> x == y
    ensures MixB(x) == MixB(y) ==> x == y
  {
    WrapMulInjective(x, y, MIX_FACTOR_A, 0x4F74_430C_22A5_4005);
    WrapMulInjective(x, y, MIX_FACTOR_B, 0x9CB4_B2F8_1293_37DB);
  }

  lemma AvalancheInjective(x: u64, y: u64)
    ensures Avalanche(x) == Avalanche(y) ==> x == y
  {
    hide XorShift, MixA, MixB;
    var x1, y1 := XorShift(x), XorShift(y);
    var x2, y2 := XorShift(MixA(x1)), XorShift(MixA(y1));
    XorShiftInjective(x, y);
    MixInjective(x1, y1);
    XorShiftInjective(MixA(x1), MixA(y1));
    MixInjective(x2, y2);
    XorShiftInjective(MixB(x2), MixB(y2));
  }

  // With the other two inputs fixed, the value determines the generation, the offset and the
  // seed: stale, misdirected and foreign content are all told apart.
  lemma TileInjectiveInGen(offset: u64, seed: u64, g: Gen, h: Gen)
    ensures TileValue(offset, seed, g) == TileValue(offset, seed, h) ==> g == h
  {
    hide Avalanche, Xor64, WrapMul;
    var a, x, y := Xor64(offset, WrapMul(seed, SEED_FACTOR)), WrapMul(g, GEN_FACTOR), WrapMul(h, GEN_FACTOR);
    AvalancheInjective(Xor64(a, x), Xor64(a, y));
    Xor64Injective(x, y, a);
    WrapMulInjective(g, h, GEN_FACTOR, 0x96DE_1B17_3F11_9089);
  }

  lemma TileInjectiveInOffset(offset: u64, other: u64, seed: u64, g: Gen)
    ensures TileValue(offset, seed, g) == TileValue(other, seed, g) ==> offset == other
  {
    hide Avalanche, Xor64, WrapMul;
    var s, x := WrapMul(seed, SEED_FACTOR), WrapMul(g, GEN_FACTOR);
    AvalancheInjective(Xor64(Xor64(offset, s), x), Xor64(Xor64(other, s), x));
    Xor64Injective(Xor64(offset, s), Xor64(other, s), x);
    Xor64Injective(offset, other, s);
  }

  lemma TileInjectiveInSeed(offset: u64, seed: u64, other: u64, g: Gen)
    ensures TileValue(offset, seed, g) == TileValue(offset, other, g) ==> seed == other
  {
    hide Avalanche, Xor64, WrapMul;
    var s, t, x := WrapMul(seed, SEED_FACTOR), WrapMul(other, SEED_FACTOR), WrapMul(g, GEN_FACTOR);
    AvalancheInjective(Xor64(Xor64(offset, s), x), Xor64(Xor64(offset, t), x));
    Xor64Injective(Xor64(offset, s), Xor64(offset, t), x);
    Xor64Injective(s, t, offset);
    WrapMulInjective(seed, other, SEED_FACTOR, 0xF1DE_83E1_9937_733D);
  }

  lemma GenTopBits(g: Gen)
    ensures ShiftRight(WrapMul(g, GEN_FACTOR), 61) == [0, 5, 3, 1][g]
  {
    Pow2Of61();
    var products := [0, 0xBF58_476D_1CE4_E5B9, 0x7EB0_8EDA_39C9_CB72, 0x3E08_D647_56AE_B12B];
    assert g == 0 || g == 1 || g == 2 || g == 3;
    assert WrapMul(g, GEN_FACTOR) == products[g];
    hide WrapMul, Pow2;
  }

  lemma Pow2Of61()
    ensures Pow2(61) == 0x2000_0000_0000_0000
  {
    Pow2Of64();
    assert Pow2(64) == 2 * Pow2(63) && Pow2(63) == 2 * Pow2(62) && Pow2(62) == 2 * Pow2(61);
  }

  // The upper three bits do not depend on an offset below 2^61.
  lemma TopBits(offset: u64, s: u64, x: u64)
    requires offset < 0x2000_0000_0000_0000
    ensures ShiftRight(Xor64(Xor64(offset, s), x), 61) == Xor(ShiftRight(s, 61), ShiftRight(x, 61))
  {
    Pow2Of61();
    assert ShiftRight(offset, 61) == 0;
    XorShiftRight(Xor64(offset, s), x, 61);
    XorShiftRight(offset, s, 61);
    hide Xor, ShiftRight;
    var t := ShiftRight(s, 61);
    XorCommutes(0, t);
    XorZero(t);
  }

  // On targets below 2 EiB the value determines offset and generation together.
  lemma TileInjectiveInBoth(offset: u64, other: u64, seed: u64, g: Gen, h: Gen)
    requires offset < 0x2000_0000_0000_0000 && other < 0x2000_0000_0000_0000
    ensures TileValue(offset, seed, g) == TileValue(other, seed, h) ==> offset == other && g == h
  {
    TileInjectiveInOffset(offset, other, seed, g);
    var s, x, y := WrapMul(seed, SEED_FACTOR), WrapMul(g, GEN_FACTOR), WrapMul(h, GEN_FACTOR);
    GenTopBits(g);
    GenTopBits(h);
    hide Avalanche, Xor, Xor64, WrapMul, ShiftRight;
    AvalancheInjective(Xor64(Xor64(offset, s), x), Xor64(Xor64(other, s), y));
    TopBits(offset, s, x);
    TopBits(other, s, y);
    var top, a, b := ShiftRight(s, 61), ShiftRight(x, 61), ShiftRight(y, 61);
    XorCommutes(top, a);
    XorCommutes(top, b);
    XorInjective(a, b, top);
  }

  // ---- The content of a whole journal block: the value, repeated ----

  function BlockContent(offset: u64, seed: u64, g: Gen, size: nat): (content: seq<byte>)
    ensures |content| == size
  {
    var tile := BytesOf(TileValue(offset, seed, g), 8);
    seq(size, i requires 0 <= i < size => tile[i % 8])
  }

  // Each aligned word of the content is the value, and the bytes behind the last one go on as
  // if another word followed.
  lemma ContentWord(offset: u64, seed: u64, g: Gen, size: nat, w: nat)
    requires 8 * w + 8 <= size
    ensures BlockContent(offset, seed, g, size)[8 * w..8 * w + 8] == BytesOf(TileValue(offset, seed, g), 8)
  {
    hide TileValue, BytesOf;
    var tile := BytesOf(TileValue(offset, seed, g), 8);
    forall k | 0 <= k < 8 ensures BlockContent(offset, seed, g, size)[8 * w + k] == tile[k] {
      assert (8 * w + k) % 8 == k;
    }
  }

  lemma ContentGoesOn(offset: u64, seed: u64, g: Gen, size: nat, longer: nat)
    requires size <= longer
    ensures BlockContent(offset, seed, g, size) == BlockContent(offset, seed, g, longer)[..size]
    ensures forall i | 8 <= i < size ::
      BlockContent(offset, seed, g, size)[i] == BlockContent(offset, seed, g, size)[i - 8]
  {
    hide TileValue, BytesOf;
    forall i | 8 <= i < size ensures (i - 8) % 8 == i % 8 {}
  }

  lemma WordsDiffer(x: u64, y: u64)
    ensures BytesOf(x, 8) == BytesOf(y, 8) <==> x == y
  {
    Pow2Of64();
    BytesInjective(x, y, 8);
  }

  // Words of two contents agree only if the values do.
  lemma ContentWordsMeet(offset: u64, seed: u64, g: Gen, size: nat, w: nat,
                         offset': u64, seed': u64, g': Gen, size': nat, w': nat)
    requires 8 * w + 8 <= size && 8 * w' + 8 <= size'
    ensures (BlockContent(offset, seed, g, size)[8 * w..8 * w + 8]
             == BlockContent(offset', seed', g', size')[8 * w'..8 * w' + 8])
            <==> TileValue(offset, seed, g) == TileValue(offset', seed', g')
  {
    hide TileValue, BytesOf, BlockContent;
    ContentWord(offset, seed, g, size, w);
    ContentWord(offset', seed', g', size', w');
    WordsDiffer(TileValue(offset, seed, g), TileValue(offset', seed', g'));
  }

  // A rewrite changes every whole word of the content that
  // belongs into a block.
  lemma ContentTellsGenerationsApart(offset: u64, seed: u64, g: Gen, h: Gen, size: nat, w: nat)
    requires g != h && 8 * w + 8 <= size
    ensures BlockContent(offset, seed, g, size)[8 * w..8 * w + 8] != BlockContent(offset, seed, h, size)[8 * w..8 * w + 8]
  {
    hide TileValue, BlockContent;
    ContentWordsMeet(offset, seed, g, size, w, offset, seed, h, size, w);
    TileInjectiveInGen(offset, seed, g, h);
  }
}
