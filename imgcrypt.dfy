/** The codec of `imgcrypt.py`: framing a body behind its length header, padding
    the frame to a square of RGB pixels, and reading the body back out of the
    flattened pixels. File I/O, PNG encoding and zlib stay outside; the
    decompressor is a parameter. */
module ImgCrypt {
  import opened Bytes
  import opened Errors
  import opened Header
  import Geometry
  import Pixels

  /** A decompressor such as `zlib.decompress`: it either returns bytes or rejects its input. */
  type Decompressor = seq<Byte> -> Result<seq<Byte>>

  /** A compressor such as `zlib.compress`. */
  type Compressor = seq<Byte> -> seq<Byte>

  /** `data_with_header = get_header(len(body)) + body`. */
  function Frame(body: seq<Byte>): (r: Result<seq<Byte>>)
    ensures r.Ok? <==> |body| < LIMIT
    ensures r.Err? ==> r.error == Overflow
    ensures r.Ok? ==> |r.value| == HEADER_SIZE + |body| && r.value[HEADER_SIZE..] == body
    ensures r.Ok? ==> ParseHeader(r.value) == |body|
  {
    match GetHeader(|body|)
    case Err(e) => Err(e)
    case Ok(header) =>
      HeaderRoundTrip(|body|, body);
      Ok(header + body)
  }

  /** `final_data = data + b"\0" * (dimension * dimension * 3 - len(data))`: the
      data, then zeros up to the size of the square image. */
  function PadToSquare(data: seq<Byte>): (r: seq<Byte>)
    ensures |r| == Geometry.Dimension(|data|) * Geometry.Dimension(|data|) * Geometry.CHANNELS
    ensures |data| <= |r| && r[..|data|] == data
    ensures forall i :: |data| <= i < |r| ==> r[i] == 0
  {
    var d := Geometry.Dimension(|data|);
    data + Zeros(d * d * Geometry.CHANNELS - |data|)
  }

  /** Lines 46-61 of `encode` for a given body: frame it, pad it to the square and
      reshape it into a `dimension x dimension` RGB image. */
  function PackFrame(body: seq<Byte>): (r: Result<Pixels.Grid>)
    ensures r.Ok? <==> |body| < LIMIT
    ensures r.Err? ==> r.error == Overflow
    ensures r.Ok? ==> Pixels.IsImage(r.value, Geometry.Dimension(HEADER_SIZE + |body|))
  {
    match Frame(body)
    case Err(e) => Err(e)
    case Ok(data) => Ok(Pixels.Reshape(PadToSquare(data), Geometry.Dimension(|data|)))
  }

  /** `encode` as written: the compressed bytes are computed but never framed; the
      savings ratio divides by the file size, so an empty file raises
      `ZeroDivisionError`; the frame holds the original length and the raw bytes. */
  function Encode(raw: seq<Byte>): (r: Result<Pixels.Grid>)
    ensures r.Ok? <==> 0 < |raw| < LIMIT
    ensures |raw| == 0 ==> r == Err(ZeroDivision)
    ensures 0 < |raw| ==> r == PackFrame(raw)
  {
    if |raw| == 0 then Err(ZeroDivision) else PackFrame(raw)
  }

  /** Lines 89-92 of `decode`: read the header, then take `flat[4 : 4 + n]`,
      which like every Python slice is clamped to what is there. */
  function ExtractBody(flat: seq<Byte>): (body: seq<Byte>)
    ensures |flat| >= HEADER_SIZE + ParseHeader(flat) ==> |body| == ParseHeader(flat)
    ensures |flat| < HEADER_SIZE + ParseHeader(flat) ==>
      |body| == (if |flat| <= HEADER_SIZE then 0 else |flat| - HEADER_SIZE)
    ensures forall i :: 0 <= i < |body| ==> body[i] == flat[HEADER_SIZE + i]
  {
    Slice(flat, HEADER_SIZE, HEADER_SIZE + ParseHeader(flat))
  }

  /** `decode` from the loaded pixel array on: flatten, extract the body, decompress
      it. The decompressor sees exactly the `n` bytes after the header when they are
      all there, and everything after the header otherwise; never the header itself,
      nor anything past the declared length. */
  function Decode(image: Pixels.Grid, decompress: Decompressor): (r: Result<seq<Byte>>)
    ensures var flat := Pixels.Flatten(image); var n := ParseHeader(flat);
      |flat| >= HEADER_SIZE + n ==> r == decompress(flat[HEADER_SIZE..HEADER_SIZE + n])
    ensures var flat := Pixels.Flatten(image); var n := ParseHeader(flat);
      |flat| < HEADER_SIZE + n ==>
        r == decompress(if |flat| <= HEADER_SIZE then [] else flat[HEADER_SIZE..])
  {
    var flat := Pixels.Flatten(image);
    var body := ExtractBody(flat);
    assert |flat| >= HEADER_SIZE + ParseHeader(flat) ==>
      body == flat[HEADER_SIZE..HEADER_SIZE + ParseHeader(flat)];
    assert |flat| < HEADER_SIZE + ParseHeader(flat) && |flat| > HEADER_SIZE ==>
      body == flat[HEADER_SIZE..];
    decompress(body)
  }

  /** The byte layout of a packed image: header, body, then zeros up to the
      square's size, which is the smallest square that holds the frame. */
  lemma PackedBytes(body: seq<Byte>)
    requires |body| < LIMIT
    ensures PackFrame(body).Ok?
    ensures var flat := Pixels.Flatten(PackFrame(body).value);
      && var d := Geometry.Dimension(HEADER_SIZE + |body|);
      && |flat| == d * d * Geometry.CHANNELS
      && flat[..HEADER_SIZE] == GetHeader(|body|).value
      && flat[HEADER_SIZE..HEADER_SIZE + |body|] == body
      && (forall i :: HEADER_SIZE + |body| <= i < |flat| ==> flat[i] == 0)
  {
    var data := Frame(body).value;
    var d := Geometry.Dimension(|data|);
    var padded := PadToSquare(data);
    Pixels.FlattenReshape(padded, d);
    assert padded[..HEADER_SIZE] == data[..HEADER_SIZE];
    assert padded[HEADER_SIZE..HEADER_SIZE + |body|] == data[HEADER_SIZE..];
  }

  /** Frame round trip: from the flattened pixels, the header reads back the
      body's length and the extracted slice is the body itself; header and
      padding are both dropped. */
  lemma FrameRoundTrip(body: seq<Byte>)
    requires |body| < LIMIT
    ensures PackFrame(body).Ok?
    ensures ParseHeader(Pixels.Flatten(PackFrame(body).value)) == |body|
    ensures ExtractBody(Pixels.Flatten(PackFrame(body).value)) == body
  {
    PackedBytes(body);
    var flat := Pixels.Flatten(PackFrame(body).value);
    HeaderRoundTrip(|body|, flat[HEADER_SIZE..]);
    assert flat == GetHeader(|body|).value + flat[HEADER_SIZE..];
  }

  /** What `decode(encode(B))` computes as written: the decompressor is applied
      to the raw file bytes, not to a compressed stream. */
  lemma DecodeEncodeAsWritten(raw: seq<Byte>, decompress: Decompressor)
    requires 0 < |raw| < LIMIT
    ensures Encode(raw).Ok?
    ensures Decode(Encode(raw).value, decompress) == decompress(raw)
  {
    FrameRoundTrip(raw);
  }

  /** The first two bytes of every zlib stream (RFC 1950, section 2.2): CMF with
      compression method 8 and a window of at most 2^15, and a check so that
      CMF * 256 + FLG is a multiple of 31. */
  predicate HasZlibHeader(s: seq<Byte>)
  {
    |s| >= 2 && s[0] % 16 == 8 && s[0] / 16 <= 7 && (s[0] as int * 256 + s[1] as int) % 31 == 0
  }

  /** With any decompressor that, like zlib's, rejects a stream without a zlib
      header as corrupt, a file whose bytes do not start with one (a single byte
      0x00, say) is not recovered: encoding then decoding reports corrupt data. */
  lemma AsWrittenRoundTripFails(raw: seq<Byte>, decompress: Decompressor)
    requires 0 < |raw| < LIMIT && !HasZlibHeader(raw)
    requires forall s :: !HasZlibHeader(s) ==> decompress(s) == Err(CorruptData)
    ensures Encode(raw).Ok?
    ensures Decode(Encode(raw).value, decompress) == Err(CorruptData)
  {
    DecodeEncodeAsWritten(raw, decompress);
  }

  /** The corrected encoding: frame `compressed_data` behind its own length, as
      `decode` (lines 92-95) expects. */
  function EncodeIntended(raw: seq<Byte>, compress: Compressor): (r: Result<Pixels.Grid>)
    ensures r.Ok? <==> |compress(raw)| < LIMIT
    ensures r.Ok? ==> Pixels.IsImage(r.value, Geometry.Dimension(HEADER_SIZE + |compress(raw)|))
  {
    PackFrame(compress(raw))
  }

  /** The intended round trip: whenever the decompressor undoes the compressor,
      decoding an intended encoding gives back the original bytes, the empty
      file included. */
  lemma IntendedRoundTrip(raw: seq<Byte>, compress: Compressor, decompress: Decompressor)
    requires |compress(raw)| < LIMIT
    requires decompress(compress(raw)) == Ok(raw)
    ensures EncodeIntended(raw, compress).Ok?
    ensures Decode(EncodeIntended(raw, compress).value, decompress) == Ok(raw)
  {
    FrameRoundTrip(compress(raw));
  }
}
