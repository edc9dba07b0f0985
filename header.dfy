/** The 4-byte length header that starts every framed buffer: an unsigned
    32-bit integer, most significant byte first. */
module Header {
  import opened Bytes
  import opened Errors

  /** Number of bytes in the header. */
  const HEADER_SIZE: nat := 4

  /** The first length that does not fit in the header, 2^32. */
  const LIMIT: nat := 0x1_0000_0000

  /** 256^k, the number of values `k` bytes can hold; `Pow256(HEADER_SIZE)` is `LIMIT`. */
  function Pow256(k: nat): (p: nat)
    ensures p >= 1
  {
    if k == 0 then 1 else 256 * Pow256(k - 1)
  }

  /** `int.from_bytes(s, byteorder="big")`: the unsigned value of `s`, most
      significant byte first; the empty sequence reads as 0. */
  function FromBigEndian(s: seq<Byte>): (v: nat)
    ensures v < Pow256(|s|)
  {
    if s == [] then 0 else FromBigEndian(s[..|s| - 1]) * 256 + s[|s| - 1]
  }

  /** Four bytes read big-endian carry the weights 2^24, 2^16, 2^8 and 1. */
  lemma FromBigEndianOfFour(s: seq<Byte>)
    requires |s| == HEADER_SIZE
    ensures FromBigEndian(s) == s[0] as int * 0x100_0000 + s[1] as int * 0x1_0000 + s[2] as int * 0x100 + s[3] as int
  {
    assert s[..4] == s;
    assert s[..1][..0] == [];
    assert FromBigEndian(s[..1]) == s[0] as int;
    assert s[..2][..1] == s[..1];
    assert FromBigEndian(s[..2]) == s[0] as int * 0x100 + s[1] as int;
    assert s[..3][..2] == s[..2];
    assert FromBigEndian(s[..3]) == s[0] as int * 0x1_0000 + s[1] as int * 0x100 + s[2] as int;
  }

  /** Zero bytes alone read as 0. */
  lemma {:induction false} FromBigEndianOfZeros(z: seq<Byte>)
    requires forall i :: 0 <= i < |z| ==> z[i] == 0
    ensures FromBigEndian(z) == 0
  {
    if z != [] {
      FromBigEndianOfZeros(z[..|z| - 1]);
    }
  }

  /** Leading zero bytes do not change a big-endian value. */
  lemma {:induction false} FromBigEndianLeadingZeros(z: seq<Byte>, s: seq<Byte>)
    requires forall i :: 0 <= i < |z| ==> z[i] == 0
    ensures FromBigEndian(z + s) == FromBigEndian(s)
  {
    if s == [] {
      assert z + s == z;
      FromBigEndianOfZeros(z);
    } else {
      FromBigEndianLeadingZeros(z, s[..|s| - 1]);
      assert (z + s)[..|z + s| - 1] == z + s[..|s| - 1];
    }
  }

  /** `get_header`: `n.to_bytes(4, byteorder="big")`, which raises `OverflowError`
      when `n` needs more than four bytes. */
  function GetHeader(n: nat): (r: Result<seq<Byte>>)
    ensures r.Ok? <==> n < LIMIT
    ensures r.Err? ==> r.error == Overflow
    ensures r.Ok? ==> |r.value| == HEADER_SIZE
    ensures r.Ok? ==>
      n == r.value[0] as int * 0x100_0000 + r.value[1] as int * 0x1_0000 + r.value[2] as int * 0x100 + r.value[3] as int
  {
    if n < LIMIT then
      var q1 := n / 0x100;
      var q2 := q1 / 0x100;
      var q3 := q2 / 0x100;
      Ok([q3, q2 % 0x100, q1 % 0x100, n % 0x100])
    else
      Err(Overflow)
  }

  /** `parse_header`: `int.from_bytes(data[:4], byteorder="big")`. A buffer shorter
      than four bytes is read as far as it goes. */
  function ParseHeader(data: seq<Byte>): (n: nat)
    ensures n < LIMIT
    ensures |data| >= HEADER_SIZE ==>
      n == data[0] as int * 0x100_0000 + data[1] as int * 0x1_0000 + data[2] as int * 0x100 + data[3] as int
    ensures |data| < HEADER_SIZE ==> n < Pow256(|data|) && n == FromBigEndian(data)
  {
    var head := Slice(data, 0, HEADER_SIZE);
    assert |data| >= HEADER_SIZE ==> head == data[..HEADER_SIZE];
    assert |data| < HEADER_SIZE ==> head == data;
    if |data| >= HEADER_SIZE then
      FromBigEndianOfFour(head);
      FromBigEndian(head)
    else
      assert Pow256(HEADER_SIZE - 1) < LIMIT;
      FromBigEndian(head)
  }

  /** Reading a written header gives back the length, whatever follows it. */
  lemma HeaderRoundTrip(n: nat, rest: seq<Byte>)
    requires n < LIMIT
    ensures GetHeader(n).Ok?
    ensures ParseHeader(GetHeader(n).value + rest) == n
  {
    var h := GetHeader(n).value;
    assert (h + rest)[..HEADER_SIZE] == h;
  }

  /** Writing a read header gives back the first four bytes: the header
      encoding is one-to-one. */
  lemma HeaderOfParse(data: seq<Byte>)
    requires |data| >= HEADER_SIZE
    ensures GetHeader(ParseHeader(data)) == Ok(data[..HEADER_SIZE])
  {
    var n := ParseHeader(data);
    var h := GetHeader(n).value;
    assert h[0] == data[0] && h[1] == data[1] && h[2] == data[2] && h[3] == data[3];
    assert h == data[..HEADER_SIZE];
  }

  /** Only the first four bytes matter: appending never changes the value read. */
  lemma ParseHeaderIgnoresSuffix(data: seq<Byte>, rest: seq<Byte>)
    requires |data| >= HEADER_SIZE
    ensures ParseHeader(data + rest) == ParseHeader(data)
  {
    assert (data + rest)[..HEADER_SIZE] == data[..HEADER_SIZE];
  }

  /** A buffer shorter than the header reads as if zero bytes filled the missing
      leading positions: `[0x01]` reads as 1, like `[0, 0, 0, 0x01]`. */
  lemma ShortHeaderReadsZeroExtended(data: seq<Byte>)
    requires |data| < HEADER_SIZE
    ensures ParseHeader(data) == ParseHeader(Zeros(HEADER_SIZE - |data|) + data)
  {
    var z := Zeros(HEADER_SIZE - |data|);
    FromBigEndianLeadingZeros(z, data);
    FromBigEndianOfFour(z + data);
    assert (z + data)[..HEADER_SIZE] == z + data;
  }
}
