# imgcrypt codec model

`imgcrypt.py` carries a file inside the pixels of a square RGB PNG image. `encode`
puts a 4-byte big-endian length header in front of the file's bytes. It pads the
result with zero bytes to `dimension * dimension * 3` bytes, where `dimension` is the
side of the smallest square of 3-byte pixels that holds the frame. Then it reshapes
the buffer, row-major, into a `dimension x dimension x 3` array and saves it. `decode`
flattens the pixel array back to bytes and reads the header. It slices out the body
and passes it to `zlib.decompress`.

This project models that codec as pure Dafny functions over byte sequences, with
lemmas about them:

- `errors.dfy` (`Errors`): the raised errors as a `Result` datatype.
- `bytes.dfy` (`Bytes`): bytes, Python slicing, `b"\0" * n`, and cutting and joining sequences.
- `header.dfy` (`Header`): `get_header` and `parse_header`.
- `geometry.dfy` (`Geometry`): the pixel count and the square's side.
- `pixels.dfy` (`Pixels`): numpy's row-major `reshape` and `tobytes`.
- `imgcrypt.dfy` (`ImgCrypt`): the encode and decode pipelines.

The model follows what the code does:

- Line 37 computes `compressed_data`. Its length feeds the savings ratio (lines 38-42), but it is never framed.
- Line 46 frames `get_header(file_size) + raw_data`. The header holds the original length and the body is the uncompressed bytes.
- `decode` names the extracted slice `compressed_data` (line 92) and decompresses it (line 95). As written, decoding an encoded file therefore applies the decompressor to the raw file bytes (`DecodeEncodeAsWritten`).
- The framing itself is exactly invertible (`FrameRoundTrip`).
- The comment at lines 34-35 says the bytes are compressed before they become pixels. That encoding is modelled separately as `EncodeIntended` and proved to round-trip (`IntendedRoundTrip`).
- The slice at line 92 clamps. A buffer shorter than its header declares yields a shorter body, with no error at that step (`ExtractBody`).
- The savings ratio at line 41 divides by the file size. An empty file therefore raises `ZeroDivisionError`, so `Encode` returns `Err(ZeroDivision)`.

## Model

| member | source | states |
|---|---|---|
| `Header.GetHeader` | imgcrypt.py:11-13 | succeeds exactly when the length is below 2^32, and otherwise fails with `Overflow`; the result is 4 bytes whose weights 2^24, 2^16, 2^8, 1 (most significant first) sum to the length |
| `Header.FromBigEndian` | imgcrypt.py:18 | `int.from_bytes(..., "big")`: the value of k bytes is below 256^k |
| `Header.ParseHeader` | imgcrypt.py:16-18 | the value is always below 2^32; with at least 4 bytes it is the big-endian value of the first four; a shorter buffer of k bytes is read whole as a big-endian value, below 256^k |
| `Header.ShortHeaderReadsZeroExtended` | imgcrypt.py:18 | a buffer shorter than 4 bytes reads like the same bytes behind enough leading zero bytes to make four |
| `Header.HeaderRoundTrip` | imgcrypt.py:11-18 | every length below 2^32 is written, and reading that header back gives the length, whatever bytes follow |
| `Header.HeaderOfParse` | imgcrypt.py:11-18 | the converse: re-writing the value read from 4+ bytes reproduces those first four bytes, so the header encoding is one-to-one |
| `Header.ParseHeaderIgnoresSuffix` | imgcrypt.py:18 | once 4 bytes are present, appending bytes never changes the value read |
| `Bytes.Slice` | imgcrypt.py:92 | Python slicing with clamped bounds: its length is `hi - lo`, or what remains after `lo`, or 0; element i is `s[lo + i]`; it never fails |
| `Bytes.Zeros` | imgcrypt.py:57 | `b"\0" * n`: n zero bytes, or none when n is negative |
| `Geometry.RequiredPixels` | imgcrypt.py:52 | the least pixel count p with 3p >= the byte count |
| `Geometry.CeilSqrt` | imgcrypt.py:53 | the least d with d*d >= m |
| `Geometry.CeilSqrtFrom` | imgcrypt.py:53 | the search behind `CeilSqrt`: starting below the answer, it returns the least r with r*r >= m |
| `Geometry.Dimension` | imgcrypt.py:52-53 | the square of side `dimension` has room for the whole frame: d*d*3 >= total bytes |
| `Geometry.DimensionIsLeast` | imgcrypt.py:52-56 | no smaller square fits: every side e with e*e*3 >= total bytes is at least `dimension` |
| `Pixels.Reshape` | imgcrypt.py:60-61 | the reshaped buffer is a `d x d` grid of 3-byte pixels |
| `Pixels.PixelAt` | imgcrypt.py:60-61 | row-major layout: channel k of pixel (r, c) is byte `3*(r*d+c)+k` of the buffer |
| `Pixels.Flatten` | imgcrypt.py:86 | `tobytes` of a `d x d` RGB image is `d*d*3` bytes with channel k of pixel (r, c) at byte `3*(r*d+c)+k`; it is inverse to `Reshape` by `FlattenReshape` and `ReshapeFlatten` |
| `Pixels.FlattenReshape` | imgcrypt.py:85-86 | `tobytes` of the reshaped array gives the buffer back unchanged |
| `Pixels.ReshapeFlatten` | imgcrypt.py:85-86 | the converse: a `d x d x 3` image flattens to `d*d*3` bytes that reshape into the same image |
| `ImgCrypt.Frame` | imgcrypt.py:46 | `data_with_header` exists exactly when the body is shorter than 2^32 bytes (else `Overflow`); it is 4 bytes longer than the body, ends with the body, and its header reads back the body's length |
| `ImgCrypt.PadToSquare` | imgcrypt.py:55-57 | the padded buffer is exactly `dimension*dimension*3` bytes long, starts with the frame, and every byte after the frame is zero |
| `ImgCrypt.PackFrame` | imgcrypt.py:46-61 | packing succeeds exactly when the body is shorter than 2^32 bytes (else `Overflow`) and yields a `dimension x dimension` RGB image for the framed length |
| `ImgCrypt.Encode` | imgcrypt.py:32-61 | as written: an empty file fails with `ZeroDivision` (line 41), a file of 2^32 bytes or more fails with `Overflow`, and any other file is packed as its raw bytes, not its compressed bytes |
| `ImgCrypt.PackedBytes` | imgcrypt.py:46-57 | the flattened image is the header of the body's length, then the body, then zeros, and it fills exactly the least square |
| `ImgCrypt.ExtractBody` | imgcrypt.py:89-92 | the body is `flat[4 : 4+n]` for the header's n: n bytes when they are all present, otherwise everything after the header (clamped, no error) |
| `ImgCrypt.Decode` | imgcrypt.py:85-95 | the decompressor receives exactly the n bytes after the header when all are present, or everything after the header when the buffer is short; never the header or the padding. Its meaning on encoded images is given by `DecodeEncodeAsWritten` and `IntendedRoundTrip` |
| `ImgCrypt.FrameRoundTrip` | imgcrypt.py:89-92 | from a packed image the header reads the body's length and the extracted slice is exactly the body; header and padding are discarded |
| `ImgCrypt.DecodeEncodeAsWritten` | imgcrypt.py:92-95 | as written, decoding an encoded file hands the decompressor the raw file bytes |
| `ImgCrypt.AsWrittenRoundTripFails` | imgcrypt.py:95 | with a decompressor that rejects streams lacking a zlib header (RFC 1950, section 2.2), encoding then decoding a file that lacks one reports `CorruptData` |
| `ImgCrypt.EncodeIntended` | imgcrypt.py:37-46 | framing the compressed bytes succeeds exactly when they are shorter than 2^32 bytes and yields a square RGB image sized for them |
| `ImgCrypt.IntendedRoundTrip` | imgcrypt.py:92-95 | when decompress undoes compress, decoding the intended encoding returns the original bytes, the empty file included |

## Findings

| source | as written | input that shows it | evidently intended | confidence | as-written member | corrected member |
|---|---|---|---|---|---|---|
| imgcrypt.py:46 | the frame holds `len(raw_data)` and `raw_data`, while `decode` decompresses the slice (line 95) | a 1-byte file `0x00`: `zlib.decompress(b"\x00")` fails, so decoding reports the image as corrupt | frame `compressed_data` behind its own length | high, not executed | `ImgCrypt.AsWrittenRoundTripFails` | `ImgCrypt.IntendedRoundTrip` |
| imgcrypt.py:41 | the savings ratio divides by `file_size` | an empty file: `ZeroDivisionError` before any image is written | an empty file encodes into a 2x2 image | high, not executed | `ImgCrypt.Encode` | `ImgCrypt.IntendedRoundTrip` |

## Left out

- File reading and writing and the `os.path.exists` checks (imgcrypt.py:22-30, 74-76, 98-99): I/O.
- PIL `Image.fromarray`, `save`, `open` and PNG encoding (imgcrypt.py:64-65, 82): foreign library calls. The image is modelled only as its pixel array, and decoding starts from the loaded array.
- numpy `frombuffer`, `reshape`, `array` and `tobytes` as library calls: only their row-major index semantics are modelled (`Pixels`).
- `zlib.compress` and `zlib.decompress` (imgcrypt.py:37, 95): a foreign codec. They are function-valued parameters (`Compressor`, `Decompressor`). The only thing assumed about them is what each lemma's requires says.
- The value of the savings ratio (imgcrypt.py:41) is float arithmetic and is not modelled. Only its division by zero for an empty file is modelled.
- `Geometry.Dimension`: `math.sqrt` is a float. The model uses the exact integer ceiling square root. It does not model rounding error in `math.sqrt` for pixel counts beyond 2^52, nor the float division in `math.ceil(total_bytes / 3)`.
- The `print` diagnostics, the catch-all `except` that turns every decode failure into a message (imgcrypt.py:103-105), and the `sys.argv` dispatch (imgcrypt.py:108-124). A failure is modelled as an `Err` result.
- Images that are not 3-channel RGB: `Decode` flattens whatever pixel array it is given, as `tobytes` does. The loader's handling of other modes is not part of this model.
