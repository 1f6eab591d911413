/**
 * Fixed-width little-endian integers and the all-or-nothing reads that Go's
 * encoding/binary performs on an io.Reader. A reader is modelled as the bytes
 * it will deliver together with the position reached so far.
 */
module Binary {

  type byte = x: int | 0 <= x < 0x100
  type int32 = x: int | -0x8000_0000 <= x < 0x8000_0000

  /** What io.ReadFull reports: nothing was left, or only part of a record was. */
  datatype ReadError = EOF | UnexpectedEOF

  datatype Result<+T> = Success(value: T) | Failure(error: ReadError)

  /** Four bytes read as an unsigned little-endian number. */
  function LeUint32(b: seq<byte>): (u: int)
    requires |b| == 4
    ensures 0 <= u < 0x1_0000_0000
  {
    b[0] as int + 0x100 * b[1] as int + 0x1_0000 * b[2] as int + 0x100_0000 * b[3] as int
  }

  /**
   * binary.LittleEndian decoding of an int32: two's complement of LeUint32.
   * The sign is the top bit of the last byte, and the low byte is the first.
   */
  function LeInt32(b: seq<byte>): (x: int32)
    requires |b| == 4
    ensures x < 0 <==> b[3] >= 0x80
    ensures x % 0x100 == b[0]
  {
    var u := LeUint32(b);
    if u < 0x8000_0000 then u else u - 0x1_0000_0000
  }

  /** binary.LittleEndian encoding of an int32. */
  function Int32Le(x: int32): (b: seq<byte>)
    ensures |b| == 4
  {
    var u := if x < 0 then x + 0x1_0000_0000 else x;
    [u % 0x100, u / 0x100 % 0x100, u / 0x1_0000 % 0x100, u / 0x100_0000]
  }

  lemma {:induction false} Uint32Digits(u: int)
    requires 0 <= u < 0x1_0000_0000
    ensures u % 0x100 + 0x100 * (u / 0x100 % 0x100) + 0x1_0000 * (u / 0x1_0000 % 0x100)
            + 0x100_0000 * (u / 0x100_0000) == u
  {
    var q1 := u / 0x100;
    var q2 := q1 / 0x100;
    assert u == 0x100 * q1 + u % 0x100;
    assert q1 == 0x100 * q2 + q1 % 0x100;
    assert u / 0x1_0000 == q2;
    assert q2 == 0x100 * (q2 / 0x100) + q2 % 0x100;
    assert u / 0x100_0000 == q2 / 0x100;
  }

  /** Encoding then decoding an int32 gives it back. */
  lemma {:induction false} Int32RoundTrip(x: int32)
    ensures LeInt32(Int32Le(x)) == x
  {
    var u := if x < 0 then x + 0x1_0000_0000 else x;
    Uint32Digits(u);
    assert LeUint32(Int32Le(x)) == u;
  }

  /** Decoding then encoding four bytes gives them back. */
  lemma {:induction false} Bytes4RoundTrip(b: seq<byte>)
    requires |b| == 4
    ensures Int32Le(LeInt32(b)) == b
  {
    var u := LeUint32(b);
    var hi: int := b[1] as int + 0x100 * b[2] as int + 0x1_0000 * b[3] as int;
    assert u == b[0] + 0x100 * hi;
    assert u % 0x100 == b[0] && u / 0x100 == hi;
    var hi2: int := b[2] as int + 0x100 * b[3] as int;
    assert hi == b[1] + 0x100 * hi2;
    assert hi % 0x100 == b[1] && hi / 0x100 == hi2;
    assert u / 0x1_0000 == hi2;
    assert hi2 % 0x100 == b[2] && hi2 / 0x100 == b[3];
    assert u / 0x100_0000 == b[3];
    assert Int32Le(LeInt32(b)) == [u % 0x100, u / 0x100 % 0x100, u / 0x1_0000 % 0x100, u / 0x100_0000];
  }

  /**
   * io.ReadFull of n bytes from a reader positioned at pos: the next n bytes,
   * or EOF when nothing is left, or UnexpectedEOF when only part is left.
   */
  function ReadFull(data: seq<byte>, pos: nat, n: nat): (r: Result<seq<byte>>)
    requires pos <= |data| && n > 0
    ensures r.Success? <==> |data| - pos >= n
    ensures r.Success? ==> |r.value| == n && data[pos..] == r.value + data[pos + n..]
    ensures r.Failure? ==> (r.error == EOF <==> pos == |data|)
  {
    if |data| - pos >= n then Success(data[pos..pos + n])
    else if pos == |data| then Failure(EOF)
    else Failure(UnexpectedEOF)
  }
}
