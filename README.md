# Panasonic V5 storage-block layout

This project models the storage-block layout that the rawspeed
`PanasonicDecompressorV5` decoder reads. The compressed image of an RW2 file is a
sequence of serialization blocks of `SerializationBlockSize` = 0x4000 bytes.
Each block is stored as two sections split at `section_split_offset` = 0x2008:

- stored bytes `[0..0x2007]` hold the later pixels `[a..b]`;
- stored bytes `[0x2008..0x3FFF]` hold the earlier pixels `[0..a-1]`.

Reading a block linearly means swapping the two sections back. The linear block
is then cut into `PixelDataBlockSize` = 16-byte pixel data blocks. Offsets are
placed inside their block by masking with `SerializationBlockSizeMask` = 0x3FFF.

Files:

- `bit_ops.dfy` (module `BitOps`): the `uint32` type, powers of two and a bitwise
  AND on naturals. It proves that AND with `2^k - 1` equals the remainder modulo `2^k`.
- `panasonic_v5.dfy` (module `PanasonicDecompressorV5`): the constants, the two
  sections, and the swap between stored and linear order, for one block and for a
  stream of whole blocks. It also holds the cut into pixel data blocks, the index
  maps and the lemmas relating them.

The header declares `SerializationBlockSizeMask` for `offset & mask` on a `uint32`
offset; the `&` itself is not in the header. Here `&` is modelled on naturals, bit
by bit (`BitOps.BitAnd`), for offsets below 2^32, where no wrap-around occurs.

## Model

| member | source | states |
|---|---|---|
| BitOps.LowMaskIsModulo | src/librawspeed/decompressors/PanasonicDecompressorV5.h:34-35 | a mask whose k low bits are all set keeps exactly the offset modulo 2^k, for every offset |
| PanasonicDecompressorV5.BlockConstants | src/librawspeed/decompressors/PanasonicDecompressorV5.h:33-47 | the block size is 2^14 and the mask is the block size minus one. The split 0x2008 lies strictly inside the block, so the second section has 0x1FF8 bytes. 16 divides the block size, giving 1024 pixel data blocks per block |
| BitOps.BitAnd | src/librawspeed/decompressors/PanasonicDecompressorV5.h:34-35 | the bitwise AND that the mask is declared for, defined one bit at a time; its result never exceeds either operand |
| PanasonicDecompressorV5.InBlockOffset | src/librawspeed/decompressors/PanasonicDecompressorV5.h:33-35 | masking a uint32 offset with SerializationBlockSizeMask gives its remainder modulo SerializationBlockSize, a position inside the block |
| PanasonicDecompressorV5.BlockStart | src/librawspeed/decompressors/PanasonicDecompressorV5.h:33-35 | the start of the block that holds an offset is block-aligned and at most one block below the offset |
| PanasonicDecompressorV5.FirstSection | src/librawspeed/decompressors/PanasonicDecompressorV5.h:40-45 | the first stored section (later pixels) is section_split_offset bytes long |
| PanasonicDecompressorV5.SecondSection | src/librawspeed/decompressors/PanasonicDecompressorV5.h:40-45 | the second stored section (earlier pixels) is SerializationBlockSize - section_split_offset bytes long |
| PanasonicDecompressorV5.PhysicalIndex | src/librawspeed/decompressors/PanasonicDecompressorV5.h:40-42 | each linear byte index maps to a stored index inside the block. The index lands in the first stored section exactly when the byte is one of the later pixels |
| PanasonicDecompressorV5.LogicalIndex | src/librawspeed/decompressors/PanasonicDecompressorV5.h:40-42 | each stored byte index maps to a linear index inside the block. The linear index is one of the earlier pixels exactly when the stored byte is in the second section |
| PanasonicDecompressorV5.IndexMapsInverse | src/librawspeed/decompressors/PanasonicDecompressorV5.h:40-44 | the stored-to-linear and linear-to-stored index maps are inverse bijections of the block |
| PanasonicDecompressorV5.StoredAs | src/librawspeed/decompressors/PanasonicDecompressorV5.h:40-42 | the bytes/pixels diagram written out: stored bytes [0..split-1] are pixels [a..b] (linear bytes from 0x1FF8 on), stored bytes [split..end] are pixels [0..a-1]. So stored byte 0 is pixel a, and stored byte 0x2008 is pixel 0 |
| PanasonicDecompressorV5.Unswap | src/librawspeed/decompressors/PanasonicDecompressorV5.h:37-45 | reading a block in linear order keeps its length. Linear byte i < 0x1FF8 is stored byte 0x2008 + i, and linear byte i >= 0x1FF8 is stored byte i - 0x1FF8 |
| PanasonicDecompressorV5.Swap | src/librawspeed/decompressors/PanasonicDecompressorV5.h:37-44 | storing a linear block, split at SerializationBlockSize - section_split_offset, keeps its length. Stored byte p is linear byte LogicalIndex(p) |
| PanasonicDecompressorV5.UnswapMatchesLayout | src/librawspeed/decompressors/PanasonicDecompressorV5.h:37-45 | unswapping a stored block yields given linear bytes if and only if the block holds pixels [a..b] in bytes [0..split-1] and pixels [0..a-1] in bytes [split..end] |
| PanasonicDecompressorV5.SwapStoresLayout | src/librawspeed/decompressors/PanasonicDecompressorV5.h:37-45 | storing linear bytes produces exactly the described two-section layout |
| PanasonicDecompressorV5.SwapUnswap | src/librawspeed/decompressors/PanasonicDecompressorV5.h:37-44 | swapping an unswapped block back restores the stored block |
| PanasonicDecompressorV5.UnswapSwap | src/librawspeed/decompressors/PanasonicDecompressorV5.h:37-44 | unswapping a stored linear block restores the linear bytes |
| PanasonicDecompressorV5.UnswapIsPermutation | src/librawspeed/decompressors/PanasonicDecompressorV5.h:40-44 | unswapping keeps the multiset of bytes: no byte is dropped or duplicated |
| PanasonicDecompressorV5.UnswapInjective | src/librawspeed/decompressors/PanasonicDecompressorV5.h:40-44 | two different stored blocks never unswap to the same linear bytes |
| PanasonicDecompressorV5.StreamPhysicalIndex | src/librawspeed/decompressors/PanasonicDecompressorV5.h:33-45 | the stream-level index map: linear stream byte o is stored at its block start plus PhysicalIndex(o mod 0x4000), and it never leaves the block that holds o |
| PanasonicDecompressorV5.UnswapStream | src/librawspeed/decompressors/PanasonicDecompressorV5.h:33-45 | reading a stream of whole blocks keeps its length. Linear byte o comes from the same block, at the block start plus PhysicalIndex(o mod block size) |
| PanasonicDecompressorV5.StreamByteByMask | src/librawspeed/decompressors/PanasonicDecompressorV5.h:33-45 | linear stream byte o is found by masking o with SerializationBlockSizeMask and mapping that position through the section swap |
| PanasonicDecompressorV5.UnswapStreamBlock | src/librawspeed/decompressors/PanasonicDecompressorV5.h:33-45 | linear bytes [k*0x4000, (k+1)*0x4000) of the stream are the unswapped stored block k |
| PanasonicDecompressorV5.PixelDataBlocks | src/librawspeed/decompressors/PanasonicDecompressorV5.h:47 | cutting bytes into pixel data blocks gives length/16 blocks. Pixel data block j is 16 bytes long and is bytes [16j, 16j+16) |
| PanasonicDecompressorV5.ConcatPixelDataBlocks | src/librawspeed/decompressors/PanasonicDecompressorV5.h:47 | the pixel data blocks, concatenated in order, give back the bytes exactly |
| PanasonicDecompressorV5.BlockTiling | src/librawspeed/decompressors/PanasonicDecompressorV5.h:33-47 | one unswapped block is tiled by exactly 1024 whole pixel data blocks, with nothing left over |
| PanasonicDecompressorV5.PixelDataBlockStorage | src/librawspeed/decompressors/PanasonicDecompressorV5.h:37-47 | pixel data blocks 0..510 of a block are stored inside the second section, and blocks 512..1023 inside the first. Because 0x2008 is not a multiple of 16, block 511 is stored as the last 8 bytes of the block followed by the first 8 |

## Left out

- `DataPump` (the bit-level sample extraction) is only declared in the header. Its bit order and its per-block sample counts are not part of this model.
- `decompressThreaded` and the `AbstractParallelizedDecompressor` base are left out. They cover thread and row partitioning and writes into the external `RawImage` buffer, and their bodies are not part of this model.
- The constructor's checks of `bps` and of `encodedDataSize` are left out. Only its signature is part of this model.
- The `ByteStream` input is left out. It is I/O over a library that is not part of this model, so the compressed input is modelled as a `seq<bv8>`.
- UnswapStream: takes only input whose length is a multiple of the block size. The handling of a short final block belongs to `DataPump` and is not part of this model.
- Unswap: takes exactly one block of `SerializationBlockSize` bytes, the unit the layout is defined on.
- InBlockOffset: models the `uint32` mask on naturals below 2^32. No arithmetic that could wrap around is modelled.
