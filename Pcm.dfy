/** Reassembly of 16-bit PCM samples in `nttsPlugin.convertToPCM`: the platform
    codec's output is read in chunks of at most 4096 bytes, each little-endian
    byte pair becomes one signed sample, and every failure yields no samples. */
module Pcm {
  import opened JavaLang

  /** The size of the reused read buffer. */
  const BufferSize: nat := 4096

  /** The bytes one `read(buffer)` call delivers: never more than the buffer holds. */
  type Chunk = s: seq<Byte> | |s| <= BufferSize

  /** How the converted stream ends: `read` returns -1, or it throws. */
  datatype StreamEnd = EndOfStream | ReadFailure

  /** What the platform codec makes of the response bytes: either it cannot open
      or convert them (getAudioInputStream throws), or it yields a stream whose
      successive reads deliver `chunks` before the stream ends as `end`. */
  datatype DecodedAudio = Unsupported | Stream(chunks: seq<Chunk>, end: StreamEnd)

  /** The `int` the sample expression computes before the cast: both bytes
      promoted to `int`, the low one masked with 0xff, the high one shifted
      left by 8, the two or-ed. */
  function SampleInt(lo: Byte, hi: Byte): JInt
  {
    var low := Widen(lo) & 0xFF;
    var high := Widen(hi) << 8;
    high | low
  }

  /** One sample from its low and high byte, as the Java expression computes it:
      the `int` above cast to `short`. */
  function JavaSample(lo: Byte, hi: Byte): Short
  {
    ToShort(SampleInt(lo, hi))
  }

  /** The 16 bits of the sample are the high byte followed by the low byte. */
  lemma SampleBits(lo: Byte, hi: Byte)
    ensures JavaSample(lo, hi) == ((hi as Short) << 8) | (lo as Short)
  {
  }

  lemma Signed16OfPair(lo: Byte, hi: Byte)
    ensures Signed16(((hi as Short) << 8) | (lo as Short)) == Signed8(hi) * 256 + lo as int
  {
    var bits := ((hi as Short) << 8) | (lo as Short);
    assert bits as int == hi as int * 256 + lo as int;
    assert bits < 0x8000 <==> hi < 0x80;
  }

  /** A sample's value is the signed high byte times 256 plus the unsigned low
      byte, which lies in the `short` range. */
  lemma SampleValue(lo: Byte, hi: Byte)
    ensures Signed16(JavaSample(lo, hi)) == Signed8(hi) * 256 + lo as int
  {
    SampleBits(lo, hi);
    Signed16OfPair(lo, hi);
  }

  lemma NonNegativeSampleInt(lo: Byte, hi: Byte)
    requires hi < 0x80
    ensures SampleInt(lo, hi) == ((hi as JInt) << 8) | (lo as JInt)
  {
    assert Widen(hi) == hi as JInt;
  }

  lemma NegativeSampleInt(lo: Byte, hi: Byte)
    requires hi >= 0x80
    ensures SampleInt(lo, hi) == ((hi as JInt) << 8) | (lo as JInt) | 0xFFFF_0000
  {
    assert Widen(hi) == (hi as JInt) | 0xFFFF_FF00;
  }

  /** The `int` before the cast is the byte pair, with the high byte's sign
      copied into bits 16 to 31. */
  lemma SampleIntIsPair(lo: Byte, hi: Byte)
    ensures var pair := ((hi as JInt) << 8) | (lo as JInt);
            SampleInt(lo, hi) == if hi < 0x80 then pair else pair | 0xFFFF_0000
  {
    if hi < 0x80 {
      NonNegativeSampleInt(lo, hi);
    } else {
      NegativeSampleInt(lo, hi);
    }
  }

  lemma NonNegativePairSurvivesCast(lo: Byte, hi: Byte)
    requires hi < 0x80
    ensures var pair := ((hi as JInt) << 8) | (lo as JInt);
            WidenShort(ToShort(pair)) == pair
  {
  }

  lemma NegativePairSurvivesCast(lo: Byte, hi: Byte)
    requires hi >= 0x80
    ensures var x := ((hi as JInt) << 8) | (lo as JInt) | 0xFFFF_0000;
            WidenShort(ToShort(x)) == x
  {
  }

  /** A sign-extended byte pair survives the cast to `short` and widening back. */
  lemma SignExtendedPair(lo: Byte, hi: Byte)
    ensures var pair := ((hi as JInt) << 8) | (lo as JInt);
            var x := if hi < 0x80 then pair else pair | 0xFFFF_0000;
            WidenShort(ToShort(x)) == x
  {
    if hi < 0x80 {
      NonNegativePairSurvivesCast(lo, hi);
    } else {
      NegativePairSurvivesCast(lo, hi);
    }
  }

  /** The `int` that is cast to `short` is already a sign-extended 16-bit value,
      so the cast drops no information. */
  lemma CastKeepsValue(lo: Byte, hi: Byte)
    ensures WidenShort(JavaSample(lo, hi)) == SampleInt(lo, hi)
  {
    SampleIntIsPair(lo, hi);
    SignExtendedPair(lo, hi);
  }

  /** The little-endian byte pair (low byte first) that stores a 16-bit value. */
  function EncodeSample(v: Short): (Byte, Byte)
  {
    ((v & 0xFF) as Byte, (v >> 8) as Byte)
  }

  /** Decoding the byte pair of any 16-bit value gives that value back. */
  lemma SampleRoundTrip(v: Short)
    ensures JavaSample(EncodeSample(v).0, EncodeSample(v).1) == v
  {
    SampleBits(EncodeSample(v).0, EncodeSample(v).1);
  }

  /** Every byte pair is the encoding of the sample decoded from it: the pair
      decoding is a bijection between byte pairs and 16-bit values. */
  lemma BytePairRoundTrip(lo: Byte, hi: Byte)
    ensures EncodeSample(JavaSample(lo, hi)) == (lo, hi)
  {
    SampleBits(lo, hi);
  }

  /** The samples one chunk yields: one per complete byte pair, in order; a
      trailing odd byte yields none. */
  function DecodeChunk(bytes: seq<Byte>): (r: seq<Short>)
    ensures |r| == |bytes| / 2
    ensures forall i :: 0 <= i < |r| ==> r[i] == JavaSample(bytes[2 * i], bytes[2 * i + 1])
  {
    if |bytes| < 2 then [] else [JavaSample(bytes[0], bytes[1])] + DecodeChunk(bytes[2..])
  }

  /** An odd trailing byte in a chunk is dropped. */
  lemma {:induction false} OddByteDropped(bytes: seq<Byte>, b: Byte)
    requires |bytes| % 2 == 0
    ensures DecodeChunk(bytes + [b]) == DecodeChunk(bytes)
  {
    if |bytes| >= 2 {
      assert (bytes + [b])[2..] == bytes[2..] + [b];
      OddByteDropped(bytes[2..], b);
    }
  }

  /** Decoding an even-length chunk distributes over concatenation. */
  lemma {:induction false} DecodeChunkAppend(a: seq<Byte>, b: seq<Byte>)
    requires |a| % 2 == 0
    ensures DecodeChunk(a + b) == DecodeChunk(a) + DecodeChunk(b)
  {
    if |a| >= 2 {
      assert (a + b)[2..] == a[2..] + b;
      DecodeChunkAppend(a[2..], b);
    } else {
      assert a + b == b;
    }
  }

  /** The samples of successive chunks, concatenated in read order. */
  function DecodeReads(chunks: seq<Chunk>): seq<Short>
  {
    if chunks == [] then [] else DecodeChunk(chunks[0]) + DecodeReads(chunks[1..])
  }

  /** Total number of samples in a sequence of chunks: each chunk of n bytes gives n / 2. */
  function SampleCount(chunks: seq<Chunk>): nat
  {
    if chunks == [] then 0 else |chunks[0]| / 2 + SampleCount(chunks[1..])
  }

  lemma {:induction false} DecodeReadsLength(chunks: seq<Chunk>)
    ensures |DecodeReads(chunks)| == SampleCount(chunks)
  {
    if chunks != [] {
      DecodeReadsLength(chunks[1..]);
    }
  }

  /** Decoding chunks in two batches is decoding them all at once. */
  lemma {:induction false} DecodeReadsAppend(a: seq<Chunk>, b: seq<Chunk>)
    ensures DecodeReads(a + b) == DecodeReads(a) + DecodeReads(b)
  {
    if a == [] {
      assert a + b == b;
    } else {
      assert (a + b)[1..] == a[1..] + b;
      DecodeReadsAppend(a[1..], b);
    }
  }

  /** One more read appends that chunk's samples. */
  lemma DecodeReadsSnoc(chunks: seq<Chunk>, chunk: Chunk)
    ensures DecodeReads(chunks + [chunk]) == DecodeReads(chunks) + DecodeChunk(chunk)
  {
    DecodeReadsAppend(chunks, [chunk]);
    assert DecodeReads([chunk]) == DecodeChunk(chunk) + DecodeReads([]);
  }

  /** The bytes of a sequence of chunks, concatenated. */
  function Bytes(chunks: seq<Chunk>): seq<Byte>
  {
    if chunks == [] then [] else chunks[0] + Bytes(chunks[1..])
  }

  /** When every read delivers whole byte pairs, the chunk boundaries do not
      matter: the samples are those of the concatenated bytes. */
  lemma {:induction false} EvenReadsDecodeBytes(chunks: seq<Chunk>)
    requires forall k :: 0 <= k < |chunks| ==> |chunks[k]| % 2 == 0
    ensures DecodeReads(chunks) == DecodeChunk(Bytes(chunks))
  {
    if chunks != [] {
      EvenReadsDecodeBytes(chunks[1..]);
      DecodeChunkAppend(chunks[0], Bytes(chunks[1..]));
    }
  }

  /** The little-endian bytes of a sequence of 16-bit values. */
  function EncodeSamples(s: seq<Short>): (r: seq<Byte>)
    ensures |r| == 2 * |s|
  {
    if s == [] then [] else [EncodeSample(s[0]).0, EncodeSample(s[0]).1] + EncodeSamples(s[1..])
  }

  /** Decoding the bytes of any sample sequence gives the samples back, same number, same order. */
  lemma {:induction false} SamplesRoundTrip(s: seq<Short>)
    ensures DecodeChunk(EncodeSamples(s)) == s
  {
    if s != [] {
      SampleRoundTrip(s[0]);
      var e := EncodeSamples(s);
      assert e[2..] == EncodeSamples(s[1..]);
      SamplesRoundTrip(s[1..]);
    }
  }

  /** The sample array `convertToPCM` returns: the samples of every read when the
      stream ends normally, and none when the codec or a read fails. */
  function ToPcm(audio: DecodedAudio): seq<Short>
  {
    match audio
    case Unsupported => []
    case Stream(chunks, EndOfStream) => DecodeReads(chunks)
    case Stream(_, ReadFailure) => []
  }

  /** A 16-bit stream of N samples, read in chunks of whole byte pairs, yields
      exactly those N samples in their original order. */
  lemma StreamOfSamples(s: seq<Short>, chunks: seq<Chunk>)
    requires forall k :: 0 <= k < |chunks| ==> |chunks[k]| % 2 == 0
    requires Bytes(chunks) == EncodeSamples(s)
    ensures ToPcm(Stream(chunks, EndOfStream)) == s
  {
    EvenReadsDecodeBytes(chunks);
    SamplesRoundTrip(s);
  }

  /** Every failure of the codec or of a read yields the empty sample sequence. */
  lemma FailureIsSilence(audio: DecodedAudio)
    requires audio.Unsupported? || audio.end == ReadFailure
    ensures ToPcm(audio) == []
  {
  }

  /** One `read(buffer)` call: the chunk's bytes land at the front of the buffer,
      the rest of the buffer keeps what an earlier read left there. */
  method Read(buffer: array<Byte>, chunk: Chunk) returns (numBytesRead: nat)
    requires buffer.Length == BufferSize
    modifies buffer
    ensures numBytesRead == |chunk|
    ensures buffer[..numBytesRead] == chunk
    ensures buffer[numBytesRead..] == old(buffer[numBytesRead..])
  {
    numBytesRead := |chunk|;
    for j := 0 to numBytesRead
      invariant buffer[..j] == chunk[..j]
      invariant buffer[j..] == old(buffer[j..])
    {
      buffer[j] := chunk[j];
    }
  }

  /** The inner loop of `convertToPCM`: one sample per complete byte pair of
      the bytes just read, each appended to the samples list. */
  method AppendSamples(buffer: array<Byte>, numBytesRead: nat, samples: seq<Short>)
    returns (appended: seq<Short>)
    requires numBytesRead <= buffer.Length
    ensures appended == samples + DecodeChunk(buffer[..numBytesRead])
  {
    ghost var chunkSamples := DecodeChunk(buffer[..numBytesRead]);
    var numSamples := numBytesRead / 2;
    appended := samples;
    for i := 0 to numSamples
      invariant appended == samples + chunkSamples[..i]
    {
      var sample := JavaSample(buffer[i * 2], buffer[i * 2 + 1]);
      assert sample == chunkSamples[i];
      assert chunkSamples[..i + 1] == chunkSamples[..i] + [sample];
      appended := appended + [sample];
    }
    assert chunkSamples[..numSamples] == chunkSamples;
  }

  /** The copy of the samples list into the returned `short[]`. */
  method SamplesToArray(samples: seq<Short>) returns (result: array<Short>)
    ensures fresh(result)
    ensures result[..] == samples
  {
    result := new Short[|samples|];
    for i := 0 to result.Length
      invariant forall j :: 0 <= j < i ==> result[j] == samples[j]
    {
      result[i] := samples[i];
    }
  }

  /** `convertToPCM` from the point where the converted stream exists. */
  method ConvertToPcm(audio: DecodedAudio) returns (result: array<Short>)
    ensures fresh(result)
    ensures result[..] == ToPcm(audio)
  {
    if audio.Unsupported? {
      result := new Short[0];
      return;
    }
    var chunks := audio.chunks;
    var buffer := new Byte[BufferSize];
    var samples: seq<Short> := [];
    var k := 0;
    while k < |chunks|
      invariant 0 <= k <= |chunks|
      invariant samples == DecodeReads(chunks[..k])
    {
      var numBytesRead := Read(buffer, chunks[k]);
      samples := AppendSamples(buffer, numBytesRead, samples);
      assert samples == DecodeReads(chunks[..k]) + DecodeChunk(chunks[k]);
      assert chunks[..k + 1] == chunks[..k] + [chunks[k]];
      DecodeReadsSnoc(chunks[..k], chunks[k]);
      k := k + 1;
    }
    assert chunks[..k] == chunks;
    if audio.end == ReadFailure {
      result := new Short[0];
      return;
    }
    result := SamplesToArray(samples);
  }
}
