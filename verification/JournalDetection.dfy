/**
 * What the verification of a read finds: if as little as one word of a journal block was left
 * behind by another generation, was meant for another block or belongs to another journal, the
 * read reports it.
 */
module JournalDetection {
  import opened Arith
  import opened Word64
  import opened JournalTile
  import opened JournalProtocol
  import opened JournalSafety

  // The offset that goes into the content of a block.
  function Address(c: Setup, b: BlockId): u64
    requires IsBlock(c, b)
  {
    var j := c.journals[b.journal];
    (j.offset + b.index * j.blockSize) % WORD
  }

  function Seed(c: Setup, b: BlockId): u64
    requires IsBlock(c, b)
  {
    c.journals[b.journal].seed
  }

  // The end of a journal's target range.
  function End(j: JournalInfo): nat {
    j.offset + j.numBlocks * j.blockSize
  }

  predicate HasWord(c: Setup, b: BlockId, w: nat) {
    IsBlock(c, b) && 8 * w + 8 <= c.journals[b.journal].blockSize
  }

  function WordAt(content: seq<byte>, w: nat): seq<byte>
    requires 8 * w + 8 <= |content|
  {
    content[8 * w..8 * w + 8]
  }

  // No word of the one content is a word of the other.
  ghost predicate Apart(c: Setup, b: BlockId, g: Gen, d: BlockId, h: Gen) {
    forall w: nat, v: nat | HasWord(c, b, w) && HasWord(c, d, v) ::
      WordAt(Expected(c, b, g), w) != WordAt(Expected(c, d, h), v)
  }

  lemma ApartByValue(c: Setup, b: BlockId, g: Gen, d: BlockId, h: Gen)
    requires IsBlock(c, b) && IsBlock(c, d)
    requires TileValue(Address(c, b), Seed(c, b), g) != TileValue(Address(c, d), Seed(c, d), h)
    ensures Apart(c, b, g, d, h)
  {
    hide TileValue, BlockContent;
    forall w: nat, v: nat | HasWord(c, b, w) && HasWord(c, d, v)
      ensures WordAt(Expected(c, b, g), w) != WordAt(Expected(c, d, h), v)
    {
      ContentWordsMeet(Address(c, b), Seed(c, b), g, c.journals[b.journal].blockSize, w,
                       Address(c, d), Seed(c, d), h, c.journals[d.journal].blockSize, v);
    }
  }

  lemma SameRemainder(a: nat, k: nat)
    requires k < WORD && (a + k) % WORD == a % WORD
    ensures k == 0
  {
  }

  lemma BlockStart(index: nat, other: nat, num: nat, size: nat)
    requires index < other < num && size > 0
    ensures index * size < other * size && (other - index) * size <= num * size - size
    ensures index * size + (other - index) * size == other * size
  {
    MulLe(other - index, num - 1, size);
    MulLe(1, other - index, size);
  }

  lemma OrderedAddressesDiffer(c: Setup, b: BlockId, d: BlockId)
    requires IsBlock(c, b) && IsBlock(c, d) && b.journal == d.journal && b.index < d.index
    requires var j := c.journals[b.journal]; j.blockSize > 0 && j.numBlocks * j.blockSize <= WORD
    ensures Address(c, b) != Address(c, d)
  {
    var j := c.journals[b.journal];
    BlockStart(b.index, d.index, j.numBlocks, j.blockSize);
    var from, gap := j.offset + b.index * j.blockSize, (d.index - b.index) * j.blockSize;
    if (from + gap) % WORD == from % WORD { SameRemainder(from, gap); }
  }

  lemma AddressesDiffer(c: Setup, b: BlockId, d: BlockId)
    requires IsBlock(c, b) && IsBlock(c, d) && b.journal == d.journal && b != d
    requires var j := c.journals[b.journal]; j.blockSize > 0 && j.numBlocks * j.blockSize <= WORD
    ensures Address(c, b) != Address(c, d)
  {
    if b.index < d.index { OrderedAddressesDiffer(c, b, d); } else { OrderedAddressesDiffer(c, d, b); }
  }

  lemma AddressBelowEnd(c: Setup, b: BlockId)
    requires IsBlock(c, b) && End(c.journals[b.journal]) <= WORD
    ensures Address(c, b) <= End(c.journals[b.journal])
    ensures c.journals[b.journal].blockSize > 0 ==> Address(c, b) < End(c.journals[b.journal])
  {
    var j := c.journals[b.journal];
    MulLe(b.index + 1, j.numBlocks, j.blockSize);
    assert (b.index + 1) * j.blockSize == b.index * j.blockSize + j.blockSize;
  }

  // Leftovers of another generation of the same block.
  lemma GenerationsApart(c: Setup, b: BlockId, g: Gen, h: Gen)
    requires IsBlock(c, b) && g != h
    ensures Apart(c, b, g, b, h)
  {
    hide Apart, TileValue;
    TileInjectiveInGen(Address(c, b), Seed(c, b), g, h);
    ApartByValue(c, b, g, b, h);
  }

  // What was meant for another block of the journal: of the same generation on any target, of
  // any generation on a target that ends below 2 EiB.
  lemma BlocksApart(c: Setup, b: BlockId, g: Gen, d: BlockId, h: Gen)
    requires IsBlock(c, b) && IsBlock(c, d) && b.journal == d.journal && b != d
    requires var j := c.journals[b.journal]; j.blockSize > 0 && j.numBlocks * j.blockSize <= WORD
    requires g == h || End(c.journals[b.journal]) <= 0x2000_0000_0000_0000
    ensures Apart(c, b, g, d, h)
  {
    hide Apart, TileValue;
    AddressesDiffer(c, b, d);
    if g == h {
      TileInjectiveInOffset(Address(c, b), Address(c, d), Seed(c, b), g);
    } else {
      AddressBelowEnd(c, b);
      AddressBelowEnd(c, d);
      hide Address;
      TileInjectiveInBoth(Address(c, b), Address(c, d), Seed(c, b), g, h);
    }
    ApartByValue(c, b, g, d, h);
  }

  // What another journal would have there.
  lemma SeedsApart(c: Setup, b: BlockId, d: BlockId, g: Gen)
    requires IsBlock(c, b) && IsBlock(c, d) && Address(c, b) == Address(c, d) && Seed(c, b) != Seed(c, d)
    ensures Apart(c, b, g, d, g)
  {
    hide Apart, TileValue, Address;
    TileInjectiveInSeed(Address(c, b), Seed(c, b), Seed(c, d), g);
    ApartByValue(c, b, g, d, g);
  }

  // The eight bytes that a read got for a word of its i-th block.
  ghost predicate Got(io: IO, i: nat, w: nat, word: seq<byte>) {
    |word| == 8 && forall k | 0 <= k < 8 :: (i, 8 * w + k) in io.buf && io.buf[(i, 8 * w + k)] == word[k]
  }

  // One misplaced word is enough: the read does not pass its verification.
  lemma MisplacedWordIsFound(c: Setup, io: IO, i: nat, w: nat, d: BlockId, h: Gen, v: nat)
    requires InJournal(c, io) && |io.gens| == io.num && i < io.num && io.gens[i] != 0
    requires HasWord(c, Block(c, io, i), w) && HasWord(c, d, v) && Apart(c, Block(c, io, i), io.gens[i], d, h)
    requires Got(io, i, w, WordAt(Expected(c, d, h), v))
    ensures !Verifies(c, io)
  {
    hide Expected;
    var b := Block(c, io, i);
    var want, got := WordAt(Expected(c, b, io.gens[i]), w), WordAt(Expected(c, d, h), v);
    assert want != got;
    var k :| 0 <= k < 8 && want[k] != got[k];
    assert (i, 8 * w + k) in io.buf;
    assert want[k] == Expected(c, b, io.gens[i])[8 * w + k];
  }
}
