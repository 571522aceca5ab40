/** The storage-block layout of the Panasonic V5 raw encoding.

    The compressed image is a sequence of serialization blocks of 0x4000 bytes.
    Each block is stored as two sections split at byte 0x2008: the first
    section holds the later pixels [a..b] of the block, the second section the
    earlier pixels [0..a-1]. Reading a block linearly means swapping the two
    sections back; the result is then cut into 16-byte pixel data blocks. */
module PanasonicDecompressorV5 {
  import opened BitOps

  type Byte = bv8

  /** Size in bytes of one serialization block. */
  const SerializationBlockSize: Uint32 := 0x4000

  /** All low bits set: selects the position of an offset inside its block. */
  const SerializationBlockSizeMask: Uint32 := 0x3FFF

  /** Byte at which a stored block is split into its two sections. */
  const SectionSplitOffset: Uint32 := 0x2008

  /** Size in bytes of one pixel data block. */
  const PixelDataBlockSize: Uint32 := 16

  /** Length of the second stored section, which holds the earlier pixels
      [0..a-1]; it is also where the later pixels start once unswapped. */
  const EarlierPixelsSize: nat := SerializationBlockSize - SectionSplitOffset

  /** Number of whole pixel data blocks in one serialization block. */
  const PixelDataBlocksPerBlock: nat := SerializationBlockSize / PixelDataBlockSize

  /** The constants are consistent with each other: the mask is the block size
      minus one, the block size is a power of two, the split point lies
      strictly inside a block and pixel data blocks tile a block exactly. */
  lemma BlockConstants()
    ensures SerializationBlockSize == Pow2(14)
    ensures SerializationBlockSizeMask == SerializationBlockSize - 1
    ensures 0 < SectionSplitOffset < SerializationBlockSize
    ensures SectionSplitOffset == 0x2008 && EarlierPixelsSize == 0x1FF8
    ensures SerializationBlockSize % PixelDataBlockSize == 0
    ensures PixelDataBlocksPerBlock == 1024
  {
  }

  /** Position of stream offset `o` inside its serialization block, as
      `o & SerializationBlockSizeMask`, the use the mask is declared for. */
  function InBlockOffset(o: Uint32): (r: nat)
    ensures r < SerializationBlockSize
    ensures r == o % SerializationBlockSize
  {
    LowMaskIsModulo(o, 14);
    BitAnd(o, SerializationBlockSizeMask)
  }

  /** Offset of the start of the serialization block that holds offset `o`. */
  function BlockStart(o: nat): (r: nat)
    ensures r <= o < r + SerializationBlockSize
    ensures r % SerializationBlockSize == 0
  {
    o - o % SerializationBlockSize
  }

  // ---------------------------------------------------------------------------
  // One block: the two sections and the swap between stored and linear order
  // ---------------------------------------------------------------------------

  /** Stored bytes [0..section_split_offset-1]: the later pixels [a..b]. */
  function FirstSection(block: seq<Byte>): (r: seq<Byte>)
    requires |block| == SerializationBlockSize
    ensures |r| == SectionSplitOffset
  {
    block[..SectionSplitOffset]
  }

  /** Stored bytes [section_split_offset..SerializationBlockSize-1]: the earlier
      pixels [0..a-1]. */
  function SecondSection(block: seq<Byte>): (r: seq<Byte>)
    requires |block| == SerializationBlockSize
    ensures |r| == EarlierPixelsSize
  {
    block[SectionSplitOffset..]
  }

  /** The stored byte that holds linear (pixel-order) byte `i` of a block. */
  function PhysicalIndex(i: nat): (p: nat)
    requires i < SerializationBlockSize
    ensures p < SerializationBlockSize
    ensures p < SectionSplitOffset <==> i >= EarlierPixelsSize
  {
    if i < EarlierPixelsSize then SectionSplitOffset + i else i - EarlierPixelsSize
  }

  /** The linear (pixel-order) byte that stored byte `p` of a block holds. */
  function LogicalIndex(p: nat): (i: nat)
    requires p < SerializationBlockSize
    ensures i < SerializationBlockSize
    ensures i < EarlierPixelsSize <==> p >= SectionSplitOffset
  {
    if p < SectionSplitOffset then EarlierPixelsSize + p else p - SectionSplitOffset
  }

  /** The two index maps are inverse bijections of [0, SerializationBlockSize). */
  lemma IndexMapsInverse(i: nat)
    requires i < SerializationBlockSize
    ensures LogicalIndex(PhysicalIndex(i)) == i
    ensures PhysicalIndex(LogicalIndex(i)) == i
  {
  }

  /** The layout described for a stored block: stored bytes
      [0..section_split_offset-1] are the linear bytes from EarlierPixelsSize on
      (pixels [a..b]), stored bytes from section_split_offset on are the linear
      bytes [0..EarlierPixelsSize-1] (pixels [0..a-1]). */
  ghost predicate StoredAs(stored: seq<Byte>, linear: seq<Byte>)
    requires |stored| == SerializationBlockSize && |linear| == SerializationBlockSize
    ensures StoredAs(stored, linear) ==>
      stored[0] == linear[EarlierPixelsSize] && stored[SectionSplitOffset] == linear[0]
  {
    (forall p | 0 <= p < SectionSplitOffset :: stored[p] == linear[EarlierPixelsSize + p]) &&
    (forall p | SectionSplitOffset <= p < SerializationBlockSize ::
       stored[p] == linear[p - SectionSplitOffset])
  }

  /** Reads one stored block in linear order: the two sections swapped. */
  function Unswap(block: seq<Byte>): (r: seq<Byte>)
    requires |block| == SerializationBlockSize
    ensures |r| == SerializationBlockSize
    ensures forall i | 0 <= i < SerializationBlockSize :: r[i] == block[PhysicalIndex(i)]
  {
    SecondSection(block) + FirstSection(block)
  }

  /** Stores one block of linear bytes: the inverse swap, splitting the linear
      bytes at SerializationBlockSize - section_split_offset. */
  function Swap(linear: seq<Byte>): (r: seq<Byte>)
    requires |linear| == SerializationBlockSize
    ensures |r| == SerializationBlockSize
    ensures forall p | 0 <= p < SerializationBlockSize :: r[p] == linear[LogicalIndex(p)]
  {
    linear[EarlierPixelsSize..] + linear[..EarlierPixelsSize]
  }

  /** Unswapping yields the linear bytes exactly when the block is stored in
      the described layout. */
  lemma UnswapMatchesLayout(stored: seq<Byte>, linear: seq<Byte>)
    requires |stored| == SerializationBlockSize && |linear| == SerializationBlockSize
    ensures Unswap(stored) == linear <==> StoredAs(stored, linear)
  {
    var u := Unswap(stored);
    if u == linear {
      forall p | 0 <= p < SerializationBlockSize
        ensures stored[p] == linear[LogicalIndex(p)]
      {
        IndexMapsInverse(p);
      }
    }
    if StoredAs(stored, linear) {
      forall i | 0 <= i < SerializationBlockSize
        ensures u[i] == linear[i]
      {
        if i < EarlierPixelsSize {
          assert stored[SectionSplitOffset + i] == linear[i];
        } else {
          assert stored[i - EarlierPixelsSize] == linear[i];
        }
      }
    }
  }

  /** Swap produces the described layout of its linear bytes. */
  lemma SwapStoresLayout(linear: seq<Byte>)
    requires |linear| == SerializationBlockSize
    ensures StoredAs(Swap(linear), linear)
  {
    var s := Swap(linear);
    forall p | 0 <= p < SectionSplitOffset
      ensures s[p] == linear[EarlierPixelsSize + p]
    {
      assert LogicalIndex(p) == EarlierPixelsSize + p;
    }
  }

  /** Swapping an unswapped block back restores the stored block. */
  lemma SwapUnswap(block: seq<Byte>)
    requires |block| == SerializationBlockSize
    ensures Swap(Unswap(block)) == block
  {
    var s := Swap(Unswap(block));
    forall p | 0 <= p < SerializationBlockSize
      ensures s[p] == block[p]
    {
      IndexMapsInverse(p);
    }
  }

  /** Unswapping a swapped block restores the linear bytes. */
  lemma UnswapSwap(linear: seq<Byte>)
    requires |linear| == SerializationBlockSize
    ensures Unswap(Swap(linear)) == linear
  {
    var u := Unswap(Swap(linear));
    forall i | 0 <= i < SerializationBlockSize
      ensures u[i] == linear[i]
    {
      IndexMapsInverse(i);
    }
  }

  /** Unswap is a permutation: no byte is dropped or duplicated. */
  lemma UnswapIsPermutation(block: seq<Byte>)
    requires |block| == SerializationBlockSize
    ensures multiset(Unswap(block)) == multiset(block)
  {
    assert block == FirstSection(block) + SecondSection(block);
  }

  /** Unswapping is injective: two different stored blocks never read alike. */
  lemma UnswapInjective(b1: seq<Byte>, b2: seq<Byte>)
    requires |b1| == SerializationBlockSize && |b2| == SerializationBlockSize
    ensures Unswap(b1) == Unswap(b2) ==> b1 == b2
  {
    SwapUnswap(b1);
    SwapUnswap(b2);
  }

  // ---------------------------------------------------------------------------
  // A stream of whole blocks
  // ---------------------------------------------------------------------------

  /** The stored byte that holds linear byte `o` of a stream of blocks. */
  function StreamPhysicalIndex(o: nat): (p: nat)
    ensures BlockStart(p) == BlockStart(o)
  {
    BlockStart(o) + PhysicalIndex(o % SerializationBlockSize)
  }

  lemma StreamPhysicalIndexShift(o: nat)
    requires o >= SerializationBlockSize
    ensures StreamPhysicalIndex(o) == SerializationBlockSize + StreamPhysicalIndex(o - SerializationBlockSize)
  {
    assert (o - SerializationBlockSize) % SerializationBlockSize == o % SerializationBlockSize;
  }

  /** Reads a stream of whole stored blocks in linear order, block by block. */
  function UnswapStream(input: seq<Byte>): (r: seq<Byte>)
    requires |input| % SerializationBlockSize == 0
    ensures |r| == |input|
    ensures forall o | 0 <= o < |r| :: StreamPhysicalIndex(o) < |input| && r[o] == input[StreamPhysicalIndex(o)]
    decreases |input|
  {
    if |input| == 0 then []
    else
      var head := Unswap(input[..SerializationBlockSize]);
      var rest := UnswapStream(input[SerializationBlockSize..]);
      assert forall o | 0 <= o < |input| ::
        StreamPhysicalIndex(o) < |input| && (head + rest)[o] == input[StreamPhysicalIndex(o)] by {
        forall o | 0 <= o < |input|
          ensures StreamPhysicalIndex(o) < |input| && (head + rest)[o] == input[StreamPhysicalIndex(o)]
        {
          if o < SerializationBlockSize {
            assert StreamPhysicalIndex(o) == PhysicalIndex(o);
          } else {
            StreamPhysicalIndexShift(o);
          }
        }
      }
      head + rest
  }

  /** Stream byte `o` is found by masking `o` to its place in the block and
      mapping that place through the section swap. */
  lemma StreamByteByMask(input: seq<Byte>, o: Uint32)
    requires |input| % SerializationBlockSize == 0 && o < |input|
    ensures o - InBlockOffset(o) + PhysicalIndex(InBlockOffset(o)) < |input|
    ensures UnswapStream(input)[o] == input[o - InBlockOffset(o) + PhysicalIndex(InBlockOffset(o))]
  {
    MaskedStreamIndex(o);
    var r := UnswapStream(input);
    assert r[o] == input[StreamPhysicalIndex(o)];
  }

  /** Masking gives the same stored index as the stream-level index map. */
  lemma MaskedStreamIndex(o: Uint32)
    ensures o - InBlockOffset(o) + PhysicalIndex(InBlockOffset(o)) == StreamPhysicalIndex(o)
  {
    var m := InBlockOffset(o);
    assert m == o % SerializationBlockSize;
    assert BlockStart(o) == o - m;
  }

  /** Block k of the linear stream is the unswapped block k of the input. */
  lemma {:induction false} UnswapStreamBlock(input: seq<Byte>, k: nat)
    requires |input| % SerializationBlockSize == 0
    requires (k + 1) * SerializationBlockSize <= |input|
    ensures UnswapStream(input)[k * SerializationBlockSize .. (k + 1) * SerializationBlockSize]
         == Unswap(input[k * SerializationBlockSize .. (k + 1) * SerializationBlockSize])
    decreases k
  {
    var rest := input[SerializationBlockSize..];
    assert UnswapStream(input) == Unswap(input[..SerializationBlockSize]) + UnswapStream(rest);
    if k > 0 {
      UnswapStreamBlock(rest, k - 1);
      var lo := (k - 1) * SerializationBlockSize;
      assert lo + SerializationBlockSize == k * SerializationBlockSize;
      SliceOfDrop(input, SerializationBlockSize, lo, lo + SerializationBlockSize);
      SliceOfDrop(UnswapStream(input), SerializationBlockSize, lo, lo + SerializationBlockSize);
    }
  }

  /** Slicing the suffix from `d` on is slicing the original, shifted by `d`. */
  lemma SliceOfDrop<T>(s: seq<T>, d: nat, lo: nat, hi: nat)
    requires d <= |s| && lo <= hi <= |s| - d
    ensures s[d..][lo..hi] == s[d + lo .. d + hi]
  {
  }

  // ---------------------------------------------------------------------------
  // Pixel data blocks
  // ---------------------------------------------------------------------------

  /** Cuts linear bytes into consecutive 16-byte pixel data blocks. */
  function PixelDataBlocks(data: seq<Byte>): (r: seq<seq<Byte>>)
    requires |data| % PixelDataBlockSize == 0
    ensures |r| == |data| / PixelDataBlockSize
    ensures forall j | 0 <= j < |r| ::
      |r[j]| == PixelDataBlockSize &&
      r[j] == data[j * PixelDataBlockSize .. (j + 1) * PixelDataBlockSize]
    decreases |data|
  {
    if |data| == 0 then []
    else
      var rest := data[PixelDataBlockSize..];
      var tail := PixelDataBlocks(rest);
      PixelDataBlocksCons(data, tail);
      [data[..PixelDataBlockSize]] + tail
  }

  /** Prepending the first 16 bytes to the pixel data blocks of the rest gives
      the pixel data blocks of the whole. */
  lemma PixelDataBlocksCons(data: seq<Byte>, tail: seq<seq<Byte>>)
    requires |data| >= PixelDataBlockSize
    requires |tail| == (|data| - PixelDataBlockSize) / PixelDataBlockSize
    requires forall j | 0 <= j < |tail| ::
      tail[j] == data[PixelDataBlockSize..][j * PixelDataBlockSize .. (j + 1) * PixelDataBlockSize]
    ensures |[data[..PixelDataBlockSize]] + tail| == |data| / PixelDataBlockSize
    ensures forall j | 0 <= j < 1 + |tail| ::
      |([data[..PixelDataBlockSize]] + tail)[j]| == PixelDataBlockSize &&
      ([data[..PixelDataBlockSize]] + tail)[j] == data[j * PixelDataBlockSize .. (j + 1) * PixelDataBlockSize]
  {
    var r := [data[..PixelDataBlockSize]] + tail;
    forall j | 1 <= j < 1 + |tail|
      ensures r[j] == data[j * PixelDataBlockSize .. (j + 1) * PixelDataBlockSize]
    {
      SliceOfDrop(data, PixelDataBlockSize, (j - 1) * PixelDataBlockSize, j * PixelDataBlockSize);
    }
  }

  /** Concatenates a sequence of pixel data blocks. */
  function Concat(blocks: seq<seq<Byte>>): seq<Byte>
  {
    if |blocks| == 0 then [] else blocks[0] + Concat(blocks[1..])
  }

  /** The pixel data blocks cover the bytes exactly, in order. */
  lemma {:induction false} ConcatPixelDataBlocks(data: seq<Byte>)
    requires |data| % PixelDataBlockSize == 0
    ensures Concat(PixelDataBlocks(data)) == data
    decreases |data|
  {
    if |data| > 0 {
      var rest := data[PixelDataBlockSize..];
      ConcatPixelDataBlocks(rest);
      assert PixelDataBlocks(data)[1..] == PixelDataBlocks(rest);
      assert data == data[..PixelDataBlockSize] + rest;
    }
  }

  /** One unswapped block holds exactly 1024 whole pixel data blocks. */
  lemma BlockTiling(block: seq<Byte>)
    requires |block| == SerializationBlockSize
    ensures |PixelDataBlocks(Unswap(block))| == 1024
    ensures Concat(PixelDataBlocks(Unswap(block))) == Unswap(block)
  {
    ConcatPixelDataBlocks(Unswap(block));
  }

  /** Where each pixel data block of an unswapped block was stored. The split
      point 0x2008 is not a multiple of 16, so pixel data block 511 is the one
      that starts in the second stored section and ends in the first. */
  lemma PixelDataBlockStorage(block: seq<Byte>, j: nat)
    requires |block| == SerializationBlockSize && j < PixelDataBlocksPerBlock
    ensures j < 511 ==>
      PixelDataBlocks(Unswap(block))[j] == block[SectionSplitOffset + 16 * j .. SectionSplitOffset + 16 * j + 16]
    ensures j == 511 ==>
      PixelDataBlocks(Unswap(block))[j] == block[SerializationBlockSize - 8..] + block[..8]
    ensures j > 511 ==>
      PixelDataBlocks(Unswap(block))[j] == block[16 * j - EarlierPixelsSize .. 16 * j - EarlierPixelsSize + 16]
  {
    var u := Unswap(block);
    var pd := PixelDataBlocks(u)[j];
    if j < 511 {
      var expected := block[SectionSplitOffset + 16 * j .. SectionSplitOffset + 16 * j + 16];
      forall t | 0 <= t < 16 ensures pd[t] == expected[t] {
        assert pd[t] == u[16 * j + t];
      }
    } else if j == 511 {
      var expected := block[SerializationBlockSize - 8..] + block[..8];
      forall t | 0 <= t < 16 ensures pd[t] == expected[t] {
        assert pd[t] == u[16 * j + t];
      }
    } else {
      var expected := block[16 * j - EarlierPixelsSize .. 16 * j - EarlierPixelsSize + 16];
      forall t | 0 <= t < 16 ensures pd[t] == expected[t] {
        assert pd[t] == u[16 * j + t];
      }
    }
  }
}
