/** The RIB container codec of codec.cpp and codec.h.

    A RIB file is a run of 64 KiB interleave blocks. Each block holds one
    64 KiB segment per channel, channel 0 first, and each segment is a run of
    fixed-size ADPCM frames ("chunks"). Decoding turns every chunk into
    samples and writes the channels' samples interleaved as little-endian
    16-bit PCM; encoding slices each channel's samples into frames, encodes
    them with one channel state per channel, and lays the per-channel
    buffers back out block by block. */
module RibCodec {
  import opened ByteOrder
  import opened Adpcm

  type Uint32 = x: int | 0 <= x < 0x1_0000_0000

  /** The interleave block size; every channel owns one segment of this size per block. */
  const Interleave: nat := 0x10000

  /** The size of the WAV header written before the PCM data. */
  const WavHeaderSize: nat := 44

  /** The sizes a codec derives from its frequency and channel count. */
  datatype Geometry = Geometry(chunkSize: nat, chunks: nat, encoded: nat, decoded: nat, channels: nat)
  {
    /** Chunks are 0x200 or 0x400 bytes and tile a segment exactly; a chunk holds
        a 4-byte header and `encoded` payload bytes and decodes to `decoded`
        samples; there are one or two channels. */
    predicate Valid()
    {
      && (chunkSize == 0x200 || chunkSize == 0x400)
      && chunks == Interleave / chunkSize
      && encoded == chunkSize - 4
      && decoded == 2 * encoded + 1
      && (channels == 1 || channels == 2)
    }
  }

  /** The chunk size for a sampling frequency. */
  function ChunkSizeFor(frequency: int): nat
  {
    if frequency == 22050 then 0x200 else 0x400
  }

  /** The two geometries: 64 chunks of 1020 payload bytes giving 2041 samples
      each at 0x400, and 128 chunks of 508 bytes giving 1017 samples at 0x200.
      Either way the chunks tile a segment exactly. */
  lemma GeometryValues(g: Geometry)
    requires g.Valid()
    ensures g.chunks * g.chunkSize == Interleave
    ensures g.chunkSize == 0x400 ==> g.chunks == 64 && g.encoded == 1020 && g.decoded == 2041
    ensures g.chunkSize == 0x200 ==> g.chunks == 128 && g.encoded == 508 && g.decoded == 1017
    ensures g.decoded == 1 + 2 * (g.chunkSize - 4)
  {
  }

  /** `Codec`: the sizes fixed when the codec is built. */
  class Codec {
    var countFiles: Uint32
    var interleave: Uint32
    var chunkSize: Uint32
    var nbChunksInInterleave: Uint32
    var nbChunkEncoded: Uint32
    var nbChunkDecoded: Uint32
    var nbChannels: Uint32
    var frequency: Uint32

    /** The relationships the field comments document. */
    ghost predicate Valid()
      reads this
      ensures Valid() ==> nbChunksInInterleave * chunkSize == interleave
      ensures Valid() ==> nbChunkDecoded == 2 * chunkSize - 7
    {
      && interleave == Interleave
      && chunkSize == ChunkSizeFor(frequency)
      && Config().Valid()
    }

    function Config(): Geometry
      reads this
    {
      Geometry(chunkSize, nbChunksInInterleave, nbChunkEncoded, nbChunkDecoded, nbChannels)
    }

    /** The chunk size follows the frequency, the channel count the mono flag,
        and the other sizes follow from the chunk size. */
    constructor (isMono: bool, frequency: Uint32, countFiles: Uint32)
      ensures Valid()
      ensures this.countFiles == countFiles && this.frequency == frequency
      ensures chunkSize == ChunkSizeFor(frequency)
      ensures nbChannels == if isMono then 1 else 2
    {
      var size: Uint32 := if frequency == 22050 then 0x200 else 0x400;
      var encoded: Uint32 := size - 4;
      interleave := 0x10000;
      this.countFiles := countFiles;
      this.frequency := frequency;
      chunkSize := size;
      nbChannels := if isMono then 1 else 2;

      nbChunksInInterleave := 0x10000 / size;
      nbChunkEncoded := encoded;
      nbChunkDecoded := 2 * encoded + 1;
    }

    /** `decode`: the PCM data of every whole block, little-endian whatever the
        host, and the two sizes rewritten into the WAV header. */
    method Decode(input: seq<Byte>, host: Endian) returns (data: seq<Byte>, riffSize: int, dataSize: int)
      requires Valid() && HeadersValid(Config(), input)
      ensures data == Pcm(DecodedSamples(Config(), input, Blocks(Config(), |input|)))
      ensures |data| == 2 * nbChannels * nbChunkDecoded * nbChunksInInterleave * Blocks(Config(), |input|)
      ensures riffSize == WavHeaderSize + |data| - 8 && dataSize == |data|
    {
      hide Pcm, Interleaved, BlockChannels, SegmentSamples, FrameSamples, Expand;
      var g := Config();
      var nbSamples := |input| / (nbChannels * interleave);
      var nbChunks := interleave / chunkSize;
      data := [];
      var pos := 0;
      for i := 0 to nbSamples
        invariant pos == ChunkOffset(g, i, 0, 0)
        invariant data == Pcm(DecodedSamples(g, input, i))
      {
        var outputs;
        outputs, pos := DecodeBlock(g, input, i, pos);
        data := WriteBlock(outputs, nbChunkDecoded * nbChunks, host, data);
        PcmConcat(DecodedSamples(g, input, i), Interleaved(outputs, nbChunkDecoded * nbChunks));
      }
      var size := WavHeaderSize + |data|;
      riffSize := size - 8;
      dataSize := size - WavHeaderSize;
    }

    /** `encode`: every channel's frames encoded with its own fresh state,
        then the channels' buffers laid out block by block. */
    method Encode<S(!new)>(inputs: seq<seq<Int16>>, init: S, encodeFrame: (S, seq<Int16>) -> (S, seq<Byte>))
      returns (rib: seq<Byte>)
      requires Valid() && |inputs| == nbChannels
      requires forall c :: 0 <= c < |inputs| ==> |inputs[c]| == |inputs[0]|
      requires EmitsChunks(encodeFrame, Config())
      ensures Interleaves(Config(), |inputs[0]|) * nbChunksInInterleave * nbChunkDecoded <= |inputs[0]|
      ensures rib == EncodedContainer(Config(), inputs, init, encodeFrame, Interleaves(Config(), |inputs[0]|))
    {
      var g := Config();
      var nbInterleavesPerCh := |inputs[0]| / (nbChunkDecoded * nbChunksInInterleave);
      var frames := nbInterleavesPerCh * nbChunksInInterleave;
      InterleavesFit(g, |inputs[0]|);
      GeometryValues(g);
      var outputs: seq<seq<Byte>> := seq(nbChannels, _ => []);
      for ch := 0 to nbChannels
        invariant |outputs| == nbChannels
        invariant forall c :: 0 <= c < ch ==> outputs[c] == EncodeFrames(encodeFrame, init, g, inputs[c], frames).1
      {
        var out := EncodeChannel(g, inputs[ch], init, encodeFrame, frames);
        outputs := outputs[ch := out];
      }
      ghost var expected := EncodedChannels(g, inputs, init, encodeFrame, frames);
      assert outputs == expected;
      assert frames * chunkSize == nbInterleavesPerCh * Interleave;
      rib := WriteBlocks(outputs, nbInterleavesPerCh);
    }
  }

  // ----- Reading a container -----

  /** The number of whole blocks in a container of n bytes; bytes past the
      last whole block are never read. */
  function Blocks(g: Geometry, n: nat): nat
    requires g.Valid()
  {
    n / (g.channels * Interleave)
  }

  /** Where chunk j of channel ch of block i starts. */
  function ChunkOffset(g: Geometry, i: nat, ch: nat, j: nat): nat
  {
    i * (g.channels * Interleave) + ch * Interleave + j * g.chunkSize
  }

  /** Every chunk of every whole block lies inside the container. */
  lemma ChunkInBounds(g: Geometry, n: nat, i: nat, ch: nat, j: nat)
    requires g.Valid() && i < Blocks(g, n) && ch < g.channels && j < g.chunks
    ensures ChunkOffset(g, i, ch, j) + g.chunkSize <= n
    ensures ChunkOffset(g, i, ch, j) + g.chunkSize <= (i + 1) * (g.channels * Interleave)
    ensures ChunkOffset(g, i, ch, 0) + Interleave <= n
  {
    var block := g.channels * Interleave;
    assert (i + 1) * block <= n by {
      assert i + 1 <= n / block;
    }
    GeometryValues(g);
    assert j * g.chunkSize + g.chunkSize <= Interleave by {
      assert (j + 1) * g.chunkSize <= g.chunks * g.chunkSize;
    }
    assert ch * Interleave + Interleave <= block;
  }

  /** The bytes of chunk j of channel ch of block i. */
  function Chunk(g: Geometry, rib: seq<Byte>, i: nat, ch: nat, j: nat): (c: seq<Byte>)
    requires g.Valid() && i < Blocks(g, |rib|) && ch < g.channels && j < g.chunks
    ensures |c| == g.chunkSize
  {
    ChunkInBounds(g, |rib|, i, ch, j);
    rib[ChunkOffset(g, i, ch, j)..ChunkOffset(g, i, ch, j) + g.chunkSize]
  }

  /** Every chunk's header holds a step index the step table covers. */
  predicate HeadersValid(g: Geometry, rib: seq<Byte>)
    requires g.Valid()
  {
    forall i, ch, j | 0 <= i < Blocks(g, |rib|) && 0 <= ch < g.channels && 0 <= j < g.chunks ::
      Chunk(g, rib, i, ch, j)[2] <= 88
  }

  /** The samples of the first m chunks of channel ch in block i, one frame after another. */
  function SegmentSamples(g: Geometry, rib: seq<Byte>, i: nat, ch: nat, m: nat): (r: seq<Int16>)
    requires g.Valid() && HeadersValid(g, rib)
    requires i < Blocks(g, |rib|) && ch < g.channels && m <= g.chunks
    ensures |r| == m * g.decoded
    decreases m
  {
    if m == 0 then []
    else
      var c := Chunk(g, rib, i, ch, m - 1);
      GeometryValues(g);
      SegmentSamples(g, rib, i, ch, m - 1) + FrameSamples(c)
  }

  /** The samples every channel decodes to in block i. */
  function BlockChannels(g: Geometry, rib: seq<Byte>, i: nat): (r: seq<seq<Int16>>)
    requires g.Valid() && HeadersValid(g, rib) && i < Blocks(g, |rib|)
    ensures |r| == g.channels
    ensures forall ch :: 0 <= ch < g.channels ==> |r[ch]| == g.chunks * g.decoded
  {
    seq(g.channels, ch requires 0 <= ch < g.channels => SegmentSamples(g, rib, i, ch, g.chunks))
  }

  /** Sample j of every channel, channel 0 first. */
  function Column(chans: seq<seq<Int16>>, j: nat): (r: seq<Int16>)
    requires forall c :: 0 <= c < |chans| ==> j < |chans[c]|
    ensures |r| == |chans|
    ensures forall c :: 0 <= c < |chans| ==> r[c] == chans[c][j]
  {
    seq(|chans|, c requires 0 <= c < |chans| => chans[c][j])
  }

  /** The first len samples of every channel, sample-major and channel-minor. */
  function Interleaved(chans: seq<seq<Int16>>, len: nat): (r: seq<Int16>)
    requires forall c :: 0 <= c < |chans| ==> len <= |chans[c]|
    ensures |r| == len * |chans|
    decreases len
  {
    if len == 0 then [] else Interleaved(chans, len - 1) + Column(chans, len - 1)
  }

  /** Position j * channels + ch of the interleaved samples holds sample j of channel ch. */
  lemma {:induction false} InterleavedAt(chans: seq<seq<Int16>>, len: nat, j: nat, ch: nat)
    requires forall c :: 0 <= c < |chans| ==> len <= |chans[c]|
    requires j < len && ch < |chans|
    ensures j * |chans| + ch < len * |chans|
    ensures Interleaved(chans, len)[j * |chans| + ch] == chans[ch][j]
    decreases len
  {
    var n := |chans|;
    var prev := Interleaved(chans, len - 1);
    assert |prev| == (len - 1) * n;
    if j < len - 1 {
      InterleavedAt(chans, len - 1, j, ch);
    } else {
      assert j * n + ch == |prev| + ch;
    }
  }

  /** The samples of the first b blocks, each block's channels interleaved. */
  function DecodedSamples(g: Geometry, rib: seq<Byte>, b: nat): (r: seq<Int16>)
    requires g.Valid() && HeadersValid(g, rib) && b <= Blocks(g, |rib|)
    ensures |r| == b * (g.chunks * g.decoded * g.channels)
    decreases b
  {
    if b == 0 then []
    else DecodedSamples(g, rib, b - 1) + Interleaved(BlockChannels(g, rib, b - 1), g.chunks * g.decoded)
  }

  /** Samples as 16-bit little-endian PCM. */
  function Pcm(samples: seq<Int16>): (r: seq<Byte>)
    ensures |r| == 2 * |samples|
  {
    if samples == [] then []
    else Pcm(samples[..|samples| - 1]) + LittleEndian(Uint16Of(samples[|samples| - 1]), 2)
  }

  lemma {:induction false} PcmConcat(a: seq<Int16>, b: seq<Int16>)
    ensures Pcm(a + b) == Pcm(a) + Pcm(b)
    decreases |b|
  {
    if b == [] {
      assert a + b == a;
    } else {
      var init := b[..|b| - 1];
      assert (a + b)[..|a + b| - 1] == a + init;
      PcmConcat(a, init);
    }
  }

  lemma PcmSnoc(samples: seq<Int16>, x: Int16)
    ensures Pcm(samples + [x]) == Pcm(samples) + LittleEndian(Uint16Of(x), 2)
  {
    assert (samples + [x])[..|samples|] == samples;
  }

  /** Bytes 2k and 2k + 1 of the PCM data are sample k, low byte first. */
  lemma {:induction false} PcmAt(samples: seq<Int16>, k: nat)
    requires k < |samples|
    ensures Pcm(samples)[2 * k..2 * k + 2] == LittleEndian(Uint16Of(samples[k]), 2)
    decreases |samples|
  {
    var init := samples[..|samples| - 1];
    if k < |init| {
      PcmAt(init, k);
      assert Pcm(samples)[2 * k..2 * k + 2] == Pcm(init)[2 * k..2 * k + 2];
    }
  }

  /** Moving one chunk, one segment or one block on in the file. */
  lemma OffsetSteps(g: Geometry, i: nat, ch: nat, j: nat)
    requires g.Valid()
    ensures ChunkOffset(g, i, ch, j) + g.chunkSize == ChunkOffset(g, i, ch, j + 1)
    ensures ChunkOffset(g, i, ch, g.chunks) == ChunkOffset(g, i, ch + 1, 0)
    ensures ChunkOffset(g, i, g.channels, 0) == ChunkOffset(g, i + 1, 0, 0)
  {
    GeometryValues(g);
  }

  /** The decode walk over one block: every chunk of every channel, read in
      file order starting at pos and decoded onto that channel's buffer. */
  method DecodeBlock(g: Geometry, input: seq<Byte>, i: nat, pos: nat) returns (outputs: seq<seq<Int16>>, pos': nat)
    requires g.Valid() && HeadersValid(g, input) && i < Blocks(g, |input|)
    requires pos == ChunkOffset(g, i, 0, 0)
    ensures outputs == BlockChannels(g, input, i)
    ensures pos' == ChunkOffset(g, i + 1, 0, 0)
  {
    hide Expand, FrameSamples;
    outputs := seq(g.channels, _ => []);
    pos' := pos;
    for ch := 0 to g.channels
      invariant |outputs| == g.channels
      invariant pos' == ChunkOffset(g, i, ch, 0)
      invariant forall c :: 0 <= c < ch ==> outputs[c] == SegmentSamples(g, input, i, c, g.chunks)
      invariant forall c :: ch <= c < g.channels ==> outputs[c] == []
    {
      for j := 0 to g.chunks
        invariant |outputs| == g.channels
        invariant pos' == ChunkOffset(g, i, ch, j)
        invariant forall c :: 0 <= c < ch ==> outputs[c] == SegmentSamples(g, input, i, c, g.chunks)
        invariant outputs[ch] == SegmentSamples(g, input, i, ch, j)
        invariant forall c :: ch < c < g.channels ==> outputs[c] == []
      {
        ChunkInBounds(g, |input|, i, ch, j);
        OffsetSteps(g, i, ch, j);
        var buffer := input[pos'..pos' + g.chunkSize];
        pos' := pos' + g.chunkSize;
        assert buffer == Chunk(g, input, i, ch, j);
        var decoded := DecodeFrame(buffer, outputs[ch]);
        outputs := outputs[ch := decoded];
      }
      OffsetSteps(g, i, ch, 0);
    }
    OffsetSteps(g, i, 0, 0);
  }

  /** The interleave of one block: for each sample position in turn, every
      channel's sample there, each passed through `convert_le` and written as
      the two bytes it occupies in memory. */
  method WriteBlock(outputs: seq<seq<Int16>>, len: nat, host: Endian, data: seq<Byte>) returns (data': seq<Byte>)
    requires forall c :: 0 <= c < |outputs| ==> len <= |outputs[c]|
    ensures data' == data + Pcm(Interleaved(outputs, len))
  {
    hide Pcm, Column, ConvertLe, InMemory, LittleEndian;
    data' := data;
    for j := 0 to len
      invariant data' == data + Pcm(Interleaved(outputs, j))
    {
      ghost var done := Interleaved(outputs, j);
      var column := Column(outputs, j);
      assert done + column[..0] == done;
      for ch := 0 to |outputs|
        invariant data' == data + Pcm(done + column[..ch])
      {
        var r := ConvertLe(host, InMemory(host, Uint16Of(outputs[ch][j]), 2));
        ConvertLeWritesLittleEndian(host, Uint16Of(outputs[ch][j]), 2);
        ghost var w := done + column[..ch];
        assert done + column[..ch + 1] == w + [outputs[ch][j]];
        PcmSnoc(w, outputs[ch][j]);
        data' := data' + r;
      }
      assert column[..|outputs|] == column;
    }
  }

  lemma MulMonotone(a: nat, b: nat, d: nat)
    requires a <= b
    ensures a * d <= b * d
  {
  }

  /** Entry c of row j of a table with rows of width w lies inside the first
      n rows when j < n. */
  lemma RowMajor(j: nat, c: nat, n: nat, w: nat)
    requires j < n && c < w
    ensures j * w + c < n * w
  {
    MulMonotone(j + 1, n, w);
  }

  lemma RowMajorSplit(b: nat, len: nat, j: nat, nc: nat, ch: nat)
    ensures (b * len + j) * nc + ch == b * (len * nc) + (j * nc + ch)
  {
  }

  /** Sample j of channel ch in block b of the decoded stream is at position
      (b * samplesPerBlock + j) * channels + ch. */
  lemma {:induction false} DecodedSampleAt(g: Geometry, rib: seq<Byte>, nb: nat, b: nat, j: nat, ch: nat)
    requires g.Valid() && HeadersValid(g, rib) && nb <= Blocks(g, |rib|)
    requires b < nb && j < g.chunks * g.decoded && ch < g.channels
    ensures (b * (g.chunks * g.decoded) + j) * g.channels + ch < |DecodedSamples(g, rib, nb)|
    ensures DecodedSamples(g, rib, nb)[(b * (g.chunks * g.decoded) + j) * g.channels + ch]
         == BlockChannels(g, rib, b)[ch][j]
    decreases nb
  {
    hide Interleaved, BlockChannels, SegmentSamples, FrameSamples, Expand;
    var len := g.chunks * g.decoded;
    var nc := g.channels;
    var block := len * nc;
    var prev := DecodedSamples(g, rib, nb - 1);
    RowMajorSplit(b, len, j, nc, ch);
    RowMajor(j, ch, len, nc);
    RowMajor(b, j * nc + ch, nb, block);
    if b < nb - 1 {
      DecodedSampleAt(g, rib, nb - 1, b, j, ch);
    } else {
      InterleavedAt(BlockChannels(g, rib, b), len, j, ch);
    }
  }

  /** Sample t of chunk k of a channel segment is at position k * decoded + t. */
  lemma {:induction false} SegmentSampleAt(g: Geometry, rib: seq<Byte>, i: nat, ch: nat, m: nat, k: nat, t: nat)
    requires g.Valid() && HeadersValid(g, rib)
    requires i < Blocks(g, |rib|) && ch < g.channels && k < m <= g.chunks && t < g.decoded
    ensures k * g.decoded + t < m * g.decoded
    ensures SegmentSamples(g, rib, i, ch, m)[k * g.decoded + t] == FrameSamples(Chunk(g, rib, i, ch, k))[t]
    decreases m
  {
    hide FrameSamples, Expand;
    var d := g.decoded;
    MulMonotone(k + 1, m, d);
    if k < m - 1 {
      SegmentSampleAt(g, rib, i, ch, m - 1, k, t);
      MulMonotone(k + 1, m - 1, d);
    }
  }

  /** A container cut after its last whole block. */
  function WholeBlocks(g: Geometry, rib: seq<Byte>): (r: seq<Byte>)
    requires g.Valid()
    ensures |r| == Blocks(g, |rib|) * (g.channels * Interleave)
    ensures Blocks(g, |r|) == Blocks(g, |rib|)
  {
    var block := g.channels * Interleave;
    assert Blocks(g, |rib|) * block <= |rib|;
    BlocksOfLayout(g, Blocks(g, |rib|));
    rib[..Blocks(g, |rib|) * block]
  }

  /** Every chunk decode reads lies inside the whole blocks. */
  lemma ChunkOfWholeBlocks(g: Geometry, rib: seq<Byte>, i: nat, ch: nat, j: nat)
    requires g.Valid() && i < Blocks(g, |rib|) && ch < g.channels && j < g.chunks
    ensures Chunk(g, WholeBlocks(g, rib), i, ch, j) == Chunk(g, rib, i, ch, j)
  {
    var w := WholeBlocks(g, rib);
    var o := ChunkOffset(g, i, ch, j);
    ChunkInBounds(g, |w|, i, ch, j);
    var cut := w[o..o + g.chunkSize];
    var full := rib[o..o + g.chunkSize];
    forall u | 0 <= u < g.chunkSize
      ensures cut[u] == full[u]
    {
    }
  }

  lemma {:induction false} SegmentOfWholeBlocks(g: Geometry, rib: seq<Byte>, i: nat, ch: nat, m: nat)
    requires g.Valid() && HeadersValid(g, rib) && HeadersValid(g, WholeBlocks(g, rib))
    requires i < Blocks(g, |rib|) && ch < g.channels && m <= g.chunks
    ensures SegmentSamples(g, WholeBlocks(g, rib), i, ch, m) == SegmentSamples(g, rib, i, ch, m)
    decreases m
  {
    hide FrameSamples, Chunk;
    if m > 0 {
      SegmentOfWholeBlocks(g, rib, i, ch, m - 1);
      ChunkOfWholeBlocks(g, rib, i, ch, m - 1);
    }
  }

  /** Bytes past the last whole block are never read: decoding the container
      cut after its whole blocks gives the same samples. */
  lemma {:induction false} DecodeIgnoresTail(g: Geometry, rib: seq<Byte>, b: nat)
    requires g.Valid() && HeadersValid(g, rib) && b <= Blocks(g, |rib|)
    ensures HeadersValid(g, WholeBlocks(g, rib))
    ensures DecodedSamples(g, WholeBlocks(g, rib), b) == DecodedSamples(g, rib, b)
    decreases b
  {
    hide SegmentSamples, Interleaved, Chunk;
    var w := WholeBlocks(g, rib);
    forall i, ch, j | 0 <= i < Blocks(g, |w|) && 0 <= ch < g.channels && 0 <= j < g.chunks
      ensures Chunk(g, w, i, ch, j)[2] <= 88
    {
      ChunkOfWholeBlocks(g, rib, i, ch, j);
    }
    if b > 0 {
      var last := b - 1;
      DecodeIgnoresTail(g, rib, last);
      forall ch | 0 <= ch < g.channels
        ensures BlockChannels(g, w, last)[ch] == BlockChannels(g, rib, last)[ch]
      {
        SegmentOfWholeBlocks(g, rib, last, ch, g.chunks);
      }
      assert BlockChannels(g, w, last) == BlockChannels(g, rib, last);
    }
  }

  // ----- Writing a container -----

  /** Frame k of a channel: the decoded samples starting at k * decoded. */
  function Frame(g: Geometry, samples: seq<Int16>, k: nat): (f: seq<Int16>)
    requires (k + 1) * g.decoded <= |samples|
    ensures |f| == g.decoded
  {
    samples[k * g.decoded..(k + 1) * g.decoded]
  }

  /** The frame encoder's state and the bytes it has produced after the first
      k frames of a channel, starting from `init`. */
  function EncodeFrames<S>(encodeFrame: (S, seq<Int16>) -> (S, seq<Byte>), init: S, g: Geometry,
                           samples: seq<Int16>, k: nat): (S, seq<Byte>)
    requires k * g.decoded <= |samples|
    decreases k
  {
    if k == 0 then (init, [])
    else
      assert (k - 1) * g.decoded <= k * g.decoded;
      var (s, out) := EncodeFrames(encodeFrame, init, g, samples, k - 1);
      var (s', bytes) := encodeFrame(s, Frame(g, samples, k - 1));
      (s', out + bytes)
  }

  /** The frame encoder turns every frame into exactly one chunk of payload
      and header bytes. */
  ghost predicate EmitsChunks<S(!new)>(encodeFrame: (S, seq<Int16>) -> (S, seq<Byte>), g: Geometry)
  {
    forall s: S, f: seq<Int16> | |f| == g.decoded :: |encodeFrame(s, f).1| == g.chunkSize
  }

  lemma {:induction false} EncodeFramesLength<S(!new)>(encodeFrame: (S, seq<Int16>) -> (S, seq<Byte>), init: S, g: Geometry,
                                                 samples: seq<Int16>, k: nat)
    requires k * g.decoded <= |samples| && EmitsChunks(encodeFrame, g)
    ensures |EncodeFrames(encodeFrame, init, g, samples, k).1| == k * g.chunkSize
    decreases k
  {
    if k > 0 {
      assert (k - 1) * g.decoded <= k * g.decoded;
      EncodeFramesLength(encodeFrame, init, g, samples, k - 1);
    }
  }

  /** Bytes [k * chunkSize, (k + 1) * chunkSize) of a channel's encoded buffer
      are what the frame encoder made of frame k, in the state the first k
      frames left behind. */
  lemma {:induction false} EncodeFramesAt<S(!new)>(encodeFrame: (S, seq<Int16>) -> (S, seq<Byte>), init: S, g: Geometry,
                                             samples: seq<Int16>, n: nat, k: nat)
    requires n * g.decoded <= |samples| && EmitsChunks(encodeFrame, g) && k < n
    ensures k * g.decoded <= (k + 1) * g.decoded <= |samples|
    ensures (k + 1) * g.chunkSize <= |EncodeFrames(encodeFrame, init, g, samples, n).1|
    ensures EncodeFrames(encodeFrame, init, g, samples, n).1[k * g.chunkSize..(k + 1) * g.chunkSize]
         == encodeFrame(EncodeFrames(encodeFrame, init, g, samples, k).0, Frame(g, samples, k)).1
    decreases n
  {
    hide Frame;
    MulMonotone(k, k + 1, g.decoded);
    MulMonotone(k + 1, n, g.decoded);
    MulMonotone(n - 1, n, g.decoded);
    MulMonotone(k + 1, n, g.chunkSize);
    EncodeFramesLength(encodeFrame, init, g, samples, n - 1);
    var prev := EncodeFrames(encodeFrame, init, g, samples, n - 1);
    var last := encodeFrame(prev.0, Frame(g, samples, n - 1));
    assert EncodeFrames(encodeFrame, init, g, samples, n).1 == prev.1 + last.1;
    if k < n - 1 {
      EncodeFramesAt(encodeFrame, init, g, samples, n - 1, k);
      MulMonotone(k + 1, n - 1, g.chunkSize);
      SliceOfConcatLeft(prev.1, last.1, k * g.chunkSize, (k + 1) * g.chunkSize);
    } else {
      SliceOfConcatRight(prev.1, last.1);
    }
  }

  lemma SliceOfConcatLeft<T>(a: seq<T>, b: seq<T>, lo: nat, hi: nat)
    requires lo <= hi <= |a|
    ensures (a + b)[lo..hi] == a[lo..hi]
  {
  }

  lemma SliceOfConcatRight<T>(a: seq<T>, b: seq<T>)
    ensures (a + b)[|a|..|a| + |b|] == b
  {
  }

  /** The frame loop of one channel: frames sliced in order, one channel state
      threaded through all of them, each frame's bytes appended. */
  method EncodeChannel<S>(g: Geometry, samples: seq<Int16>, init: S,
                          encodeFrame: (S, seq<Int16>) -> (S, seq<Byte>), frames: nat) returns (out: seq<Byte>)
    requires frames * g.decoded <= |samples|
    ensures out == EncodeFrames(encodeFrame, init, g, samples, frames).1
  {
    var status := init;
    out := [];
    for sample := 0 to frames
      invariant EncodeFrames(encodeFrame, init, g, samples, sample) == (status, out)
    {
      assert (sample + 1) * g.decoded <= frames * g.decoded;
      var inputFrame := samples[sample * g.decoded..(sample + 1) * g.decoded];
      var r := encodeFrame(status, inputFrame);
      status := r.0;
      out := out + r.1;
    }
  }

  /** The buffers of every channel encoded over the same number of frames;
      with a frame encoder that emits whole chunks, each holds frames chunks. */
  function EncodedChannels<S(!new)>(g: Geometry, inputs: seq<seq<Int16>>, init: S,
                                    encodeFrame: (S, seq<Int16>) -> (S, seq<Byte>), frames: nat): (r: seq<seq<Byte>>)
    requires forall c :: 0 <= c < |inputs| ==> frames * g.decoded <= |inputs[c]|
    ensures |r| == |inputs|
    ensures forall c :: 0 <= c < |inputs| ==> r[c] == EncodeFrames(encodeFrame, init, g, inputs[c], frames).1
    ensures EmitsChunks(encodeFrame, g) ==> forall c :: 0 <= c < |inputs| ==> |r[c]| == frames * g.chunkSize
  {
    assert EmitsChunks(encodeFrame, g) ==>
      forall c :: 0 <= c < |inputs| ==> |EncodeFrames(encodeFrame, init, g, inputs[c], frames).1| == frames * g.chunkSize
    by {
      if EmitsChunks(encodeFrame, g) {
        forall c | 0 <= c < |inputs|
          ensures |EncodeFrames(encodeFrame, init, g, inputs[c], frames).1| == frames * g.chunkSize
        {
          EncodeFramesLength(encodeFrame, init, g, inputs[c], frames);
        }
      }
    }
    seq(|inputs|, c requires 0 <= c < |inputs| => EncodeFrames(encodeFrame, init, g, inputs[c], frames).1)
  }

  /** Segment b of the first nc channels' buffers, channel 0 first. */
  function BlockBytes(outputs: seq<seq<Byte>>, b: nat, nc: nat): (r: seq<Byte>)
    requires nc <= |outputs| && forall c :: 0 <= c < |outputs| ==> (b + 1) * Interleave <= |outputs[c]|
    ensures |r| == nc * Interleave
    decreases nc
  {
    if nc == 0 then [] else BlockBytes(outputs, b, nc - 1) + outputs[nc - 1][b * Interleave..(b + 1) * Interleave]
  }

  /** The container holding the first nb segments of every channel's buffer. */
  function Layout(outputs: seq<seq<Byte>>, nb: nat): (r: seq<Byte>)
    requires forall c :: 0 <= c < |outputs| ==> nb * Interleave <= |outputs[c]|
    ensures |r| == nb * (|outputs| * Interleave)
    decreases nb
  {
    if nb == 0 then [] else Layout(outputs, nb - 1) + BlockBytes(outputs, nb - 1, |outputs|)
  }

  /** The write-out: block after block, each channel's segment in channel order. */
  method WriteBlocks(outputs: seq<seq<Byte>>, nb: nat) returns (rib: seq<Byte>)
    requires forall c :: 0 <= c < |outputs| ==> nb * Interleave <= |outputs[c]|
    ensures rib == Layout(outputs, nb)
  {
    rib := [];
    var i := 0;
    ghost var b := 0;
    while i < nb * Interleave
      invariant b <= nb && i == b * Interleave
      invariant rib == Layout(outputs, b)
    {
      ghost var prefix := rib;
      for ch := 0 to |outputs|
        invariant rib == prefix + BlockBytes(outputs, b, ch)
      {
        rib := rib + outputs[ch][i..i + Interleave];
      }
      i := i + Interleave;
      b := b + 1;
    }
  }

  /** Byte t of channel c's segment in block b. */
  lemma {:induction false} BlockBytesAt(outputs: seq<seq<Byte>>, b: nat, nc: nat, c: nat, t: nat)
    requires nc <= |outputs| && forall c :: 0 <= c < |outputs| ==> (b + 1) * Interleave <= |outputs[c]|
    requires c < nc && t < Interleave
    ensures BlockBytes(outputs, b, nc)[c * Interleave + t] == outputs[c][b * Interleave + t]
    decreases nc
  {
    if c < nc - 1 {
      BlockBytesAt(outputs, b, nc - 1, c, t);
    }
  }

  /** Byte t of channel c's segment in block b of the laid-out container. */
  lemma {:induction false} LayoutAt(outputs: seq<seq<Byte>>, nb: nat, b: nat, c: nat, t: nat)
    requires forall c :: 0 <= c < |outputs| ==> nb * Interleave <= |outputs[c]|
    requires b < nb && c < |outputs| && t < Interleave
    ensures b * (|outputs| * Interleave) + c * Interleave + t < |Layout(outputs, nb)|
    ensures Layout(outputs, nb)[b * (|outputs| * Interleave) + c * Interleave + t] == outputs[c][b * Interleave + t]
    decreases nb
  {
    hide BlockBytes;
    var block := |outputs| * Interleave;
    var prev := Layout(outputs, nb - 1);
    assert Layout(outputs, nb) == prev + BlockBytes(outputs, nb - 1, |outputs|);
    assert c * Interleave + t < block;
    MulMonotone(b + 1, nb, block);
    if b < nb - 1 {
      LayoutAt(outputs, nb - 1, b, c, t);
      MulMonotone(b + 1, nb - 1, block);
    } else {
      assert b * block == |prev|;
      BlockBytesAt(outputs, b, |outputs|, c, t);
    }
  }

  /** Channel ch's bytes read back from the first nb blocks of a container:
      its segment of every block, in block order. */
  function Gather(g: Geometry, rib: seq<Byte>, ch: nat, nb: nat): (r: seq<Byte>)
    requires g.Valid() && nb <= Blocks(g, |rib|) && ch < g.channels
    ensures |r| == nb * Interleave
    decreases nb
  {
    if nb == 0 then []
    else
      ChunkInBounds(g, |rib|, nb - 1, ch, 0);
      var start := ChunkOffset(g, nb - 1, ch, 0);
      Gather(g, rib, ch, nb - 1) + rib[start..start + Interleave]
  }

  /** Byte t of block b's segment of channel ch. */
  lemma {:induction false} GatherAt(g: Geometry, rib: seq<Byte>, ch: nat, nb: nat, b: nat, t: nat)
    requires g.Valid() && nb <= Blocks(g, |rib|) && ch < g.channels && b < nb && t < Interleave
    ensures ChunkOffset(g, b, ch, 0) + t < |rib|
    ensures Gather(g, rib, ch, nb)[b * Interleave + t] == rib[ChunkOffset(g, b, ch, 0) + t]
    decreases nb
  {
    ChunkInBounds(g, |rib|, b, ch, 0);
    if b < nb - 1 {
      GatherAt(g, rib, ch, nb - 1, b, t);
    }
  }

  /** Every channel's bytes read back from the whole blocks of a container. */
  function Channels(g: Geometry, rib: seq<Byte>): (r: seq<seq<Byte>>)
    requires g.Valid()
    ensures |r| == g.channels
    ensures forall c :: 0 <= c < g.channels ==> |r[c]| == Blocks(g, |rib|) * Interleave
  {
    seq(g.channels, c requires 0 <= c < g.channels => Gather(g, rib, c, Blocks(g, |rib|)))
  }

  /** A container of nb blocks' worth of bytes holds nb whole blocks. */
  lemma BlocksOfLayout(g: Geometry, nb: nat)
    requires g.Valid()
    ensures Blocks(g, nb * (g.channels * Interleave)) == nb
  {
  }

  /** Reading a laid-out container back channel by channel gives back the
      bytes of every channel's buffer that went into it. */
  lemma GatherLayout(g: Geometry, outputs: seq<seq<Byte>>, nb: nat)
    requires g.Valid() && |outputs| == g.channels
    requires forall c :: 0 <= c < |outputs| ==> nb * Interleave <= |outputs[c]|
    ensures Blocks(g, |Layout(outputs, nb)|) == nb
    ensures forall ch :: 0 <= ch < g.channels ==> Gather(g, Layout(outputs, nb), ch, nb) == outputs[ch][..nb * Interleave]
  {
    hide Layout, Gather;
    var rib := Layout(outputs, nb);
    BlocksOfLayout(g, nb);
    forall ch | 0 <= ch < g.channels
      ensures Gather(g, rib, ch, nb) == outputs[ch][..nb * Interleave]
    {
      forall k | 0 <= k < nb * Interleave
        ensures Gather(g, rib, ch, nb)[k] == outputs[ch][k]
      {
        var b := k / Interleave;
        var t := k % Interleave;
        GatherAt(g, rib, ch, nb, b, t);
        LayoutAt(outputs, nb, b, ch, t);
      }
    }
  }

  /** Laying the channels read back from a container out again rebuilds its
      whole blocks. */
  lemma LayoutGather(g: Geometry, rib: seq<Byte>)
    requires g.Valid()
    ensures Blocks(g, |rib|) * (g.channels * Interleave) <= |rib|
    ensures Layout(Channels(g, rib), Blocks(g, |rib|)) == rib[..Blocks(g, |rib|) * (g.channels * Interleave)]
  {
    hide Layout, Gather;
    var nb := Blocks(g, |rib|);
    var block := g.channels * Interleave;
    var chans := Channels(g, rib);
    forall k | 0 <= k < nb * block
      ensures Layout(chans, nb)[k] == rib[k]
    {
      var b := k / block;
      var c := (k % block) / Interleave;
      var t := (k % block) % Interleave;
      assert k == b * block + c * Interleave + t;
      MulMonotone(b + 1, nb, block);
      LayoutAt(chans, nb, b, c, t);
      GatherAt(g, rib, c, nb, b, t);
    }
  }

  /** Chunk j of channel ch in block b of a laid-out container is the
      matching chunk-sized piece of that channel's buffer. */
  lemma LayoutChunk(g: Geometry, outputs: seq<seq<Byte>>, nb: nat, b: nat, ch: nat, j: nat)
    requires g.Valid() && |outputs| == g.channels
    requires forall c :: 0 <= c < |outputs| ==> nb * Interleave <= |outputs[c]|
    requires b < nb && ch < g.channels && j < g.chunks
    ensures Blocks(g, |Layout(outputs, nb)|) == nb
    ensures b * Interleave + (j + 1) * g.chunkSize <= |outputs[ch]|
    ensures Chunk(g, Layout(outputs, nb), b, ch, j)
         == outputs[ch][b * Interleave + j * g.chunkSize..b * Interleave + (j + 1) * g.chunkSize]
  {
    hide Layout;
    var rib := Layout(outputs, nb);
    BlocksOfLayout(g, nb);
    var cs := g.chunkSize;
    GeometryValues(g);
    MulMonotone(j + 1, g.chunks, cs);
    MulMonotone(b + 1, nb, Interleave);
    ChunkInBounds(g, |rib|, b, ch, j);
    var start := ChunkOffset(g, b, ch, j);
    var base := b * Interleave + j * cs;
    var piece := rib[start..start + cs];
    var source := outputs[ch][base..base + cs];
    forall u | 0 <= u < cs
      ensures piece[u] == source[u]
    {
      RowMajor(j, u, g.chunks, cs);
      LayoutAt(outputs, nb, b, ch, j * cs + u);
    }
    assert piece == source;
  }

  /** Frame b * chunks + j is one of the first nb blocks' frames, and its
      chunk starts j chunks into segment b. */
  lemma FrameIndex(g: Geometry, nb: nat, b: nat, j: nat)
    requires g.Valid() && b < nb && j < g.chunks
    ensures b * g.chunks + j < nb * g.chunks
    ensures (b * g.chunks + j) * g.chunkSize == b * Interleave + j * g.chunkSize
  {
    RowMajor(b, j, nb, g.chunks);
    GeometryValues(g);
    if g.chunkSize == 0x200 {
      assert (b * 128 + j) * 0x200 == b * 0x10000 + j * 0x200;
    } else {
      assert (b * 64 + j) * 0x400 == b * 0x10000 + j * 0x400;
    }
  }

  /** The container encode builds from nb blocks' worth of frames of every channel. */
  function EncodedContainer<S(!new)>(g: Geometry, inputs: seq<seq<Int16>>, init: S,
                                     encodeFrame: (S, seq<Int16>) -> (S, seq<Byte>), nb: nat): (rib: seq<Byte>)
    requires g.Valid() && |inputs| == g.channels && EmitsChunks(encodeFrame, g)
    requires forall c :: 0 <= c < |inputs| ==> nb * g.chunks * g.decoded <= |inputs[c]|
    ensures |rib| == nb * (g.channels * Interleave)
    ensures Blocks(g, |rib|) == nb
  {
    GeometryValues(g);
    assert nb * g.chunks * g.chunkSize == nb * Interleave;
    BlocksOfLayout(g, nb);
    Layout(EncodedChannels(g, inputs, init, encodeFrame, nb * g.chunks), nb)
  }

  /** In a container encode builds, chunk j of channel ch in block b is what
      the frame encoder made of that channel's frame b * chunks + j, in the
      state that channel's earlier frames left behind. */
  lemma EncodedChunk<S(!new)>(g: Geometry, inputs: seq<seq<Int16>>, init: S,
                              encodeFrame: (S, seq<Int16>) -> (S, seq<Byte>), nb: nat, b: nat, ch: nat, j: nat)
    requires g.Valid() && |inputs| == g.channels && EmitsChunks(encodeFrame, g)
    requires forall c :: 0 <= c < |inputs| ==> nb * g.chunks * g.decoded <= |inputs[c]|
    requires b < nb && ch < g.channels && j < g.chunks
    ensures (b * g.chunks + j + 1) * g.decoded <= |inputs[ch]|
    ensures Chunk(g, EncodedContainer(g, inputs, init, encodeFrame, nb), b, ch, j)
         == encodeFrame(EncodeFrames(encodeFrame, init, g, inputs[ch], b * g.chunks + j).0,
                        Frame(g, inputs[ch], b * g.chunks + j)).1
  {
    hide Layout, EncodeFrames, Frame, Chunk, EncodedChannels;
    GeometryValues(g);
    var frames := nb * g.chunks;
    var outs := EncodedChannels(g, inputs, init, encodeFrame, frames);
    var k := b * g.chunks + j;
    FrameIndex(g, nb, b, j);
    MulMonotone(k + 1, frames, g.decoded);
    EncodeFramesAt(encodeFrame, init, g, inputs[ch], frames, k);
    LayoutChunk(g, outs, nb, b, ch, j);
  }

  // ----- How many blocks encode writes -----

  /** The number of blocks per channel encode writes: as many whole blocks of
      frames as the samples fill. */
  function Interleaves(g: Geometry, n: nat): (r: nat)
    requires g.Valid()
    ensures r * (g.decoded * g.chunks) <= n < (r + 1) * (g.decoded * g.chunks)
  {
    GeometryValues(g);
    n / (g.decoded * g.chunks)
  }

  /** The frames of that many blocks fit the samples, and one more block would not. */
  lemma InterleavesFit(g: Geometry, n: nat)
    requires g.Valid()
    ensures Interleaves(g, n) * g.chunks * g.decoded <= n
    ensures n < (Interleaves(g, n) + 1) * g.chunks * g.decoded
  {
    var q := Interleaves(g, n);
    var d := g.decoded * g.chunks;
    assert q * d <= n < (q + 1) * d;
  }

  /** The count as codec.cpp:125 computes it, dividing by 2 * encoded instead
      of by decoded samples per chunk. */
  function InterleavesAsWritten(g: Geometry, n: nat): (r: nat)
    requires g.Valid()
    ensures r * (2 * g.encoded * g.chunks) <= n < (r + 1) * (2 * g.encoded * g.chunks)
  {
    GeometryValues(g);
    n / (2 * g.encoded * g.chunks)
  }

  /** Mono at 44100 Hz with 130560 samples: the count as written is one block,
      whose 64 frames of 2041 samples need 130624 samples. */
  lemma AsWrittenOverruns()
    ensures var g := Geometry(0x400, 64, 1020, 2041, 1);
            && g.Valid()
            && InterleavesAsWritten(g, 130560) == 1
            && InterleavesAsWritten(g, 130560) * g.chunks * g.decoded == 130624
            && Interleaves(g, 130560) == 0
  {
  }

  /** The count as written is never smaller than the corrected count, and the
      two agree whenever the as-written count's frames fit the samples. */
  lemma InterleavesAgree(g: Geometry, n: nat)
    requires g.Valid()
    ensures Interleaves(g, n) <= InterleavesAsWritten(g, n)
    ensures InterleavesAsWritten(g, n) * g.chunks * g.decoded <= n ==> InterleavesAsWritten(g, n) == Interleaves(g, n)
  {
    GeometryValues(g);
    var a := InterleavesAsWritten(g, n);
    var q := Interleaves(g, n);
    var small := 2 * g.encoded * g.chunks;
    var large := g.decoded * g.chunks;
    assert large == small + g.chunks;
    assert q * small <= q * large <= n;
    assert q <= a;
    if a * g.chunks * g.decoded <= n {
      assert a * large <= n;
      assert a <= q;
    }
  }
}
