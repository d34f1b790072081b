# ManhuntRIBber core in Dafny

This project models the audio core of ManhuntRIBber, a converter between the
RIB container of the game Manhunt and 16-bit PCM WAV. A RIB file is a run of
64 KiB interleave blocks. Each block holds one 64 KiB segment per channel,
channel 0 first. Each segment is a run of fixed-size IMA ADPCM frames
("chunks"): a 4-byte header followed by two 4-bit codes per byte.

Three modules, one per part of the source:

- `ByteOrder` (byteorder.dfy) models `byteswap.h`. A value of a fixed-width
  integer type is the sequence of bytes it occupies in memory. `byteswap` is
  a method with the same loop as the source, and `convert_be` and
  `convert_le` are functions of the host's byte order, which is a parameter.
- `Adpcm` (adpcm.dfy) models `adpcm_decoder.cpp`.
  - It holds the step and index tables and the int16 clip.
  - The nibble expansion is a method that updates a `ChannelStatus` object
    in place. It is specified by a function `Expand` on a `ChannelState`
    value.
  - The frame decoder is a method that appends to a sample sequence. It is
    specified by `FrameSamples`, which threads the state nibble by nibble.
- `RibCodec` (codec.dfy) models `codec.cpp` and `codec.h`.
  - The `Codec` class holds the fields of `codec.h`. Its constructor derives
    the geometry.
  - `Decode` walks blocks, then channels, then chunks. It decodes every
    chunk, then writes the channels' samples interleaved through
    `convert_le`.
  - `Encode` slices each channel into frames and threads one channel state
    through them. It then writes the channels' encoded buffers block by
    block.
  - The specification functions (`Chunk`, `SegmentSamples`, `Interleaved`,
    `Pcm`, `Layout`, `Gather`) give each step its meaning. The lemmas relate
    them: where each decoded sample comes from, which chunk the encoder's
    output for each frame lands in, and that laying channel buffers out and
    gathering them back are inverse operations.

The frame encoder `adpcm_rib_encode_frame` is not part of this model, because
its body is not in the source. `Encode` takes it as a function parameter, over
any state type, and requires that it turn every frame into exactly one chunk
of bytes.

## Model

| member | source | states |
|---|---|---|
| ByteOrder.ByteSwap | byteswap.h:12-17 | output byte i is input byte sizeof(T)-1-i, for every i, and the result equals `Swapped` |
| ByteOrder.SwappedAt | byteswap.h:14-15 | byte i of the swapped value is byte sizeof(T)-1-i of the input |
| ByteOrder.SwappedInvolution | byteswap.h:12-17 | byteswap applied twice gives the value back |
| ByteOrder.SwappedSingleByte | byteswap.h:14-15 | on a one-byte type byteswap is the identity |
| ByteOrder.SwappedEvery | byteswap.h:14-15 | every byte of the swapped value is the input byte at the mirrored position |
| ByteOrder.ConvertBe | byteswap.h:22-24 | convert_be keeps the size; byte i of the result is byte i of the input on a big-endian host and byte sizeof(T)-1-i on a little-endian one |
| ByteOrder.ConvertLe | byteswap.h:29-31 | convert_le keeps the size; byte i of the result is byte i of the input on a little-endian host and byte sizeof(T)-1-i on a big-endian one |
| ByteOrder.ConvertBeInvolution | byteswap.h:19-24 | convert_be is self-inverse, keeps the size, and is the identity on a big-endian host |
| ByteOrder.ConvertLeInvolution | byteswap.h:26-31 | convert_le is self-inverse, keeps the size, and is the identity on a little-endian host |
| ByteOrder.SwappedLittleEndian | byteswap.h:12-17 | reversing a value's little-endian bytes gives its big-endian bytes |
| ByteOrder.ConvertLeWritesLittleEndian | byteswap.h:29-31 | on either host, the value convert_le returns sits in memory as the little-endian bytes of the original |
| ByteOrder.ConvertBeWritesBigEndian | byteswap.h:22-24 | on either host, the value convert_be returns sits in memory as the big-endian bytes of the original |
| Adpcm.StepTableIncreasing | adpcm_decoder.cpp:11-21 | the step table has 89 entries and rises strictly from 7 to 32767 |
| Adpcm.IndexTableShape | adpcm_decoder.cpp:24-27 | the index table has 16 entries; entries n and n+8 are equal: -1 for n in 0..3, then 2, 4, 6, 8 |
| Adpcm.ClipInt16 | adpcm_decoder.cpp:31-36 | an int in the int16 range is returned unchanged; above it the result is 32767, below it -32768 |
| Adpcm.Expand | adpcm_decoder.cpp:39-65 | from a state with an int16 predictor and a step index in [0,88], the next state is again of that kind |
| Adpcm.ExpandStepIndex | adpcm_decoder.cpp:44-46 | the new step index is the old one moved by the index table and clamped: down 1 (not below 0) when the low three bits are below 4, else up 2, 4, 6 or 8 (not above 88) |
| Adpcm.ExpandPredictor | adpcm_decoder.cpp:56-61 | bit 3 of the nibble decides the direction; the new predictor is exactly the old one minus (bit 3 set) or plus the magnitude, saturated at -32768 or 32767 only when that move leaves the int16 range |
| Adpcm.Magnitude | adpcm_decoder.cpp:48-54 | the difference a nibble encodes is at least step >> 3 and at most (step >> 3) + step + (step >> 1) + (step >> 2), its value when bits 0-2 are all set |
| Adpcm.MagnitudeLowBits | adpcm_decoder.cpp:48-54 | the magnitude depends only on the nibble's low three bits |
| Adpcm.MagnitudeMonotone | adpcm_decoder.cpp:48-54 | a larger 3-bit code never gives a smaller magnitude |
| Adpcm.MagnitudeApproximates | adpcm_decoder.cpp:48-54 | 8 times the magnitude is within 18 below (2k+1) times the step, k the low three bits: the shifts approximate (k + 1/2) * step / 4 |
| Adpcm.ExpandNibble | adpcm_decoder.cpp:39-65 | updates the status in place to `Expand` of the old status, using the step at the old index, and returns the new predictor |
| Adpcm.ChannelStatus.constructor | adpcm_decoder.cpp:68 | a fresh status has predictor 0 and step index 0 |
| Adpcm.HeaderPredictor | adpcm_decoder.cpp:70 | the predictor built by shifting and or-ing in 32 bits is byte 1 read as a signed char, times 256, plus byte 0 read unsigned |
| Adpcm.HeaderPredictorIsSignedLittleEndian | adpcm_decoder.cpp:70 | the header predictor, built by sign-extending byte 1, is an int16 whose little-endian bytes are bytes 0 and 1 |
| Adpcm.HeaderState | adpcm_decoder.cpp:68-71 | the state seeded from a header is valid when byte 2 indexes the step table |
| Adpcm.FrameSamples | adpcm_decoder.cpp:73-78 | a frame of len bytes decodes to 1 + 2*(len-4) samples |
| Adpcm.FrameSampleAt | adpcm_decoder.cpp:73-78 | sample k of a frame is the predictor after k nibbles; sample 0 is the header predictor, whose little-endian bytes are frame bytes 0 and 1 |
| Adpcm.FrameSampleStep | adpcm_decoder.cpp:75-77 | sample k+1 is exactly sample k minus (bit 3 of nibble k set) or plus the magnitude at the step index after k nibbles, saturated at -32768 or 32767 only when that move leaves the int16 range |
| Adpcm.PrefixIgnoresByte3 | adpcm_decoder.cpp:70-75 | whatever header byte 3 holds, the state and the samples after every nibble are the same |
| Adpcm.Byte3Unread | adpcm_decoder.cpp:70-78 | header byte 3 is never read: changing it leaves the frame's decoded samples unchanged |
| Adpcm.DecodeByteStep | adpcm_decoder.cpp:75-77 | payload byte pos decodes its low nibble, then its high nibble, each from the state the previous nibble left |
| Adpcm.DecodeFrame | adpcm_decoder.cpp:67-81 | appends exactly the frame's samples to the output and leaves its earlier contents unchanged |
| RibCodec.Codec.constructor | codec.cpp:13-22 | chunk size 0x200 at 22050 Hz and 0x400 otherwise; 1 channel when mono, else 2; interleave 0x10000, chunks per interleave = 0x10000 / chunk size, encoded = chunk size - 4, decoded = 2 * encoded + 1 |
| RibCodec.Codec.Valid | codec.h:20-35 | the field invariant the comments document; a valid codec's chunks tile the interleave exactly, and it decodes 2 * chunk size - 7 samples per chunk |
| RibCodec.GeometryValues | codec.h:22-31 | the documented sizes come to 64 chunks of 1020 payload bytes decoding to 2041 samples at 0x400, and 128, 508 and 1017 at 0x200; the chunks tile a segment exactly |
| RibCodec.ChunkInBounds | codec.cpp:46-61 | every chunk read from a whole block lies inside the input |
| RibCodec.OffsetSteps | codec.cpp:58-61 | reading chunks one after another moves through a channel's segment, then to the next channel, then to the next block |
| RibCodec.WholeBlocks | codec.cpp:46 | cutting a container after its last whole block keeps the same number of whole blocks |
| RibCodec.ChunkOfWholeBlocks | codec.cpp:58-61 | every chunk decode reads from a whole block is the same in the cut container |
| RibCodec.SegmentOfWholeBlocks | codec.cpp:58-63 | a channel segment decodes to the same samples in the cut container |
| RibCodec.DecodeIgnoresTail | codec.cpp:46-52 | bytes past the last whole block are never read: the cut container has valid headers and decodes to the same samples |
| RibCodec.DecodeBlock | codec.cpp:53-64 | one block's walk decodes every chunk of every channel, in file order, onto that channel's buffer |
| RibCodec.SegmentSampleAt | codec.cpp:58-63 | sample t of chunk k of a channel segment is at position k * decoded + t of that channel's block samples |
| RibCodec.InterleavedAt | codec.cpp:65-70 | position j * channels + ch of a block's output holds sample j of channel ch |
| RibCodec.WriteBlock | codec.cpp:65-70 | writing each sample through convert_le appends the interleaved samples' little-endian PCM, whatever the host |
| RibCodec.PcmAt | codec.cpp:67-68 | bytes 2k and 2k+1 of the PCM data are sample k, low byte first |
| RibCodec.DecodedSampleAt | codec.cpp:52-70 | in the decoded stream, sample j of channel ch in block b is at (b * samples per block + j) * channels + ch |
| RibCodec.Codec.Decode | codec.cpp:46-75 | the PCM data is the decoded samples of every whole block; it is 2 * channels * decoded * chunks * blocks bytes; the header sizes are total - 8 and total - 44 |
| RibCodec.EncodeFramesLength | codec.cpp:132-135 | with an encoder that emits one chunk per frame, k frames give k chunks of bytes |
| RibCodec.EncodeFramesAt | codec.cpp:131-136 | chunk k of a channel's buffer is the encoder's output for frame k, in the state frames 0..k-1 left |
| RibCodec.EncodeChannel | codec.cpp:131-136 | the frame loop slices frame k as samples [k * decoded, (k+1) * decoded) and threads one state through all frames |
| RibCodec.WriteBlocks | codec.cpp:139-144 | the write-out gives block after block, each holding channel 0's segment, then channel 1's |
| RibCodec.LayoutAt | codec.cpp:139-144 | byte t of channel c's segment in block b is byte b * 0x10000 + t of that channel's buffer |
| RibCodec.LayoutChunk | codec.cpp:139-144 | chunk j of channel ch in block b of the laid-out container is the matching chunk-sized piece of the channel's buffer |
| RibCodec.GatherLayout | codec.cpp:139-144 | reading a laid-out container back channel by channel, in decode's order, gives every channel's buffer back |
| RibCodec.LayoutGather | codec.cpp:58-63 | laying the channels read back from a container out again rebuilds its whole blocks |
| RibCodec.GatherAt | codec.cpp:58-63 | the bytes read back for a channel are its segment of each block, in block order |
| RibCodec.EncodedContainer | codec.cpp:139-144 | the encoded container has nb * channels * 0x10000 bytes and holds nb whole blocks |
| RibCodec.EncodedChunk | codec.cpp:131-144 | chunk j of channel ch in block b of the encoded container is the encoder's output for frame b * chunks + j of channel ch |
| RibCodec.Interleaves | codec.cpp:125 | the corrected block count: the largest r whose r blocks of decoded * chunks samples fit the channel |
| RibCodec.InterleavesAsWritten | codec.cpp:125 | the block count as the source computes it: the largest r whose r blocks of 2 * encoded * chunks samples fit the channel |
| RibCodec.InterleavesFit | codec.cpp:125 | the corrected block count's frames fit the samples, and one more block's frames would not |
| RibCodec.AsWrittenOverruns | codec.cpp:125 | mono at 44100 Hz with 130560 samples: the count as written is 1, whose frames need 130624 samples |
| RibCodec.InterleavesAgree | codec.cpp:125 | the count as written is never below the corrected one, and equals it whenever its frames fit |
| RibCodec.Codec.Encode | codec.cpp:125-144 | the container is the layout of every channel's encoded frames over the corrected number of blocks, and those frames fit the samples |

## Left out

- File and console I/O are not modelled: opening and seeking streams, `tellg`/`tellp`, the progress messages, and `exit(1)` on open failure. `Decode` takes the input file as a byte sequence and returns the PCM data. `Encode` takes per-channel sample sequences and returns the container bytes.
- The WAV header's layout and serialisation are not modelled. Only the two sizes rewritten after decoding are. The other fields are left out too: `bytesPerSec` is set to frequency * 4 and `blockAlign` stays 4 even for mono. On a big-endian host, `convert_le(size - 8)` swaps a `size_t` before it is narrowed to `uint32_t`; that is not modelled either.
- The end-of-file driven sample read loop of `encode` is not modelled. It reads past the end and pushes a stale value. `Encode` instead requires channel sequences of equal length.
- `adpcm_rib_encode_frame` is not part of this model. It is a parameter of `Encode`, and so is the value-initialised channel status it starts from.
- RibCodec.Codec.Encode: requires the frame encoder to turn every frame into exactly one chunk. The source does not check this; a shorter output would make the block write-out read past the buffer.
- RibCodec.Codec.Decode: requires byte 2 of every chunk header to be at most 88. The source indexes the step table with it unchecked.
- Adpcm.DecodeFrame: requires a frame of at least 4 bytes with byte 2 at most 88. In the source, `at(0)`, `at(1)` and `at(2)` throw `std::out_of_range` on frames under 3 bytes; that exception is not modelled. A 3-byte frame starts the payload loop past the end, and the step-table index is unchecked; both are undefined behaviour. A header-only 4-byte frame never indexes the step table, so for that one frame the byte-2 bound is stronger than the source needs. `Decode` only passes chunks of 0x200 or 0x400 bytes, where the bound is exactly what the source needs.
- `count_files` (the multi-stream variant) is stored by the constructor and never used, so it has no behaviour to model.
- `Codec.Valid` does not require the frequency to be 22050 or 44100. The field's comment says so, but the constructor accepts any `uint32_t`.
- main.cpp is not part of this model. It holds the command-line wiring and an older decoder/encoder that `Codec` replaced.
- Integer widths are not modelled. `Codec`'s fields are 32-bit, but the loop counters (`int` in decode, `uint32_t` in the encode write-out), sizes and offsets are unbounded here. Inputs of 4 GiB or more, where they would wrap, are outside the model.
- The ADPCM arithmetic itself is modelled at the source's widths. `ClipInt16` takes a 32-bit `int`, and the header predictor is computed modulo 2^32 before it is stored.
- `std::shared_ptr` ownership is not modelled. Sample and byte buffers are values that the methods append to.
- There are two conflicting `ADPCMChannelStatus` definitions (adpcm_decoder.h and adpcm_codec.h). Only the fields the decoder uses, `predictor` and `step_index`, are modelled. `step` is never read, and `prev_sample` belongs to the encoder.

## Findings

| source | as written | input that shows it | evidently intended | confidence | as-written member | corrected member |
|---|---|---|---|---|---|---|
| codec.cpp:125 | blocks per channel = samples / (2 * encoded * chunks), which is one sample per chunk short of the `decoded` samples each frame slice takes | mono at 44100 Hz, 130560 samples per channel: the count is 1 block, whose 64 frames of 2041 samples need 130624, so the last slice runs past the samples (`reserve` does not add elements) | two readings: samples / (decoded * chunks), so that only frames fully present are encoded (the one modelled); or keep the count and extend each channel so the last block's frames exist, which the `reserve` call and its comment at codec.cpp:128-129 may have meant, though `reserve` adds no elements. The two counts agree whenever the slices fit (`InterleavesAgree`) | not executed | RibCodec.AsWrittenOverruns | RibCodec.InterleavesFit |
