/**
  * Depth decoding: a depth image file stores each 16-bit depth sample split
  * over the first two 8-bit channels of a 3-byte pixel (high byte first).
  * The loader reads the image's raw `char` storage, reinterprets each byte as
  * `unsigned char`, and rebuilds the sample as `(hi << 8) | lo`.
  */
module DepthCodec {

  /** A raw byte of the image storage as the C `char` it is read as (signed). */
  type Char = c: int | -128 <= c < 128

  /** An `unsigned char`. */
  type Byte = b: int | 0 <= b < 256

  /** One 16-bit depth sample (`TDepthPixel`). */
  type DepthPixel = d: int | 0 <= d < 65536

  /** Number of bytes per pixel in the depth image storage. */
  const PIXEL_STRIDE: int := 3

  /** The cast `(unsigned char)c`: two's-complement reinterpretation modulo 256. */
  function AsUnsignedChar(c: Char): (b: Byte)
    ensures b == c % 256
    ensures 0 <= c ==> b == c
  {
    if c < 0 then c + 256 else c
  }

  /** The inverse reinterpretation, used to describe what an encoder writes. */
  function AsSignedChar(b: Byte): (c: Char)
    ensures AsUnsignedChar(c) == b
  {
    if b < 128 then b else b - 256
  }

  lemma SignedUnsignedRoundTrip(c: Char)
    ensures AsSignedChar(AsUnsignedChar(c)) == c
  {
  }

  /**
    * On 16-bit words, shifting a byte left by 8 and or-ing in another byte is
    * the same as `hi * 256 + lo`: the two bytes occupy disjoint bits.
    */
  lemma ShiftOrIsMulAdd(hi: bv16, lo: bv16)
    requires hi < 256 && lo < 256
    ensures (hi << 8) | lo == hi * 256 + lo
    ensures ((hi << 8) | lo) >> 8 == hi && ((hi << 8) | lo) & 0xFF == lo
  {
  }

  /** `(hi << 8) | lo`, written arithmetically (see ShiftOrIsMulAdd). */
  function DecodeSample(hi: Byte, lo: Byte): (d: DepthPixel)
    ensures d / 256 == hi && d % 256 == lo
  {
    hi * 256 + lo
  }

  /** Splits a sample into its high and low byte. */
  function SplitSample(v: DepthPixel): (hl: (Byte, Byte))
    ensures hl.0 * 256 + hl.1 == v
    ensures hl.1 < 256
  {
    (v / 256, v % 256)
  }

  /** Splitting any 16-bit value and decoding the two bytes gives it back. */
  lemma DecodeSplit(v: DepthPixel)
    ensures DecodeSample(SplitSample(v).0, SplitSample(v).1) == v
  {
  }

  /** Decoding two bytes and splitting the sample gives the two bytes back. */
  lemma SplitDecode(hi: Byte, lo: Byte)
    ensures SplitSample(DecodeSample(hi, lo)) == (hi, lo)
  {
  }

  /** The raw storage holds the two channels of every one of `n` pixels. */
  predicate Covers(raw: seq<Char>, n: nat)
  {
    n == 0 || PIXEL_STRIDE * n - 1 <= |raw|
  }

  /** The sample of pixel `i`, read from channels 0 and 1 of its 3-byte slot. */
  function PixelSample(raw: seq<Char>, i: nat): (d: DepthPixel)
    requires PIXEL_STRIDE * i + 1 < |raw|
    ensures d == (raw[PIXEL_STRIDE * i] as int % 256) * 256 + raw[PIXEL_STRIDE * i + 1] as int % 256
  {
    DecodeSample(AsUnsignedChar(raw[PIXEL_STRIDE * i]), AsUnsignedChar(raw[PIXEL_STRIDE * i + 1]))
  }

  /** The depth map decoded from the first `n` pixels of `raw`. */
  function DecodedDepth(raw: seq<Char>, n: nat): (depth: seq<DepthPixel>)
    requires Covers(raw, n)
    ensures |depth| == n
  {
    seq(n, i requires 0 <= i < n => PixelSample(raw, i))
  }

  /** A depth image as the codec hands it back: its size and raw storage. */
  datatype DepthImage = DepthImage(width: nat, height: nat, data: seq<Char>)
  {
    function PixelCount(): nat
    {
      width * height
    }

    predicate WellFormed()
    {
      Covers(data, PixelCount())
    }
  }

  /** One pixel as the sensor's exporter writes it: high byte, low byte, unused 0. */
  function EncodePixel(v: DepthPixel): (px: seq<Char>)
    ensures |px| == PIXEL_STRIDE
  {
    [AsSignedChar(v / 256), AsSignedChar(v % 256), 0]
  }

  /** The raw storage of a depth map, one 3-byte slot per sample. */
  function EncodeDepth(depth: seq<DepthPixel>): (raw: seq<Char>)
    ensures |raw| == PIXEL_STRIDE * |depth|
  {
    if depth == [] then [] else EncodePixel(depth[0]) + EncodeDepth(depth[1..])
  }

  lemma {:induction false} EncodeDepthAt(depth: seq<DepthPixel>, i: nat)
    requires i < |depth|
    ensures EncodeDepth(depth)[PIXEL_STRIDE * i] == AsSignedChar(depth[i] / 256)
    ensures EncodeDepth(depth)[PIXEL_STRIDE * i + 1] == AsSignedChar(depth[i] % 256)
  {
    if i > 0 {
      EncodeDepthAt(depth[1..], i - 1);
      assert EncodeDepth(depth) == EncodePixel(depth[0]) + EncodeDepth(depth[1..]);
    }
  }

  /** Decoding the storage of any depth map gives the depth map back. */
  lemma {:induction false} DecodeEncodeDepth(depth: seq<DepthPixel>)
    ensures Covers(EncodeDepth(depth), |depth|)
    ensures DecodedDepth(EncodeDepth(depth), |depth|) == depth
  {
    var raw := EncodeDepth(depth);
    forall i | 0 <= i < |depth|
      ensures DecodedDepth(raw, |depth|)[i] == depth[i]
    {
      EncodeDepthAt(depth, i);
    }
  }

  /**
    * The decode loop of the depth loader: fills the first `n` samples of `buffer`
    * in place and leaves the rest of it as it was.
    */
  method DecodeInto(raw: seq<Char>, n: nat, buffer: array<DepthPixel>)
    requires Covers(raw, n) && n <= buffer.Length
    modifies buffer
    ensures buffer[..n] == DecodedDepth(raw, n)
    ensures buffer[n..] == old(buffer[n..])
  {
    for i := 0 to n
      invariant forall k :: 0 <= k < i ==> buffer[k] == PixelSample(raw, k)
      invariant buffer[n..] == old(buffer[n..])
    {
      var depthByte1 := AsUnsignedChar(raw[PIXEL_STRIDE * i + 0]);
      var depthByte2 := AsUnsignedChar(raw[PIXEL_STRIDE * i + 1]);
      buffer[i] := DecodeSample(depthByte1, depthByte2);
    }
  }
}
