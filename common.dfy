/** Shared vocabulary: bytes, status codes, optional values and little-endian words. */
module Common {

  /** An unsigned 8-bit value. */
  type Byte = x: int | 0 <= x < 256

  const U32_LIMIT: int := 0x1_0000_0000

  datatype Option<T> = None | Some(value: T)

  /** The status codes the boot loader and kernel return. */
  datatype Status =
    | Success
    | InvalidValue
    | InvalidSignature
    | UnknownError
    | InsufficientMemory
    | EndOfFile
    | EndOfList

  datatype Result<T> = Ok(value: T) | Err(status: Status)
  {
    predicate IsFailure() { Err? }
  }

  /** The 4-byte little-endian encoding of a 32-bit unsigned value. */
  function LE32(v: nat): (r: seq<Byte>)
    requires v < U32_LIMIT
    ensures |r| == 4
  {
    [v % 256, (v / 256) % 256, (v / 0x1_0000) % 256, v / 0x100_0000]
  }

  /** The 32-bit unsigned little-endian value stored at s[i..i+4]. */
  function U32At(s: seq<Byte>, i: nat): (r: nat)
    requires i + 4 <= |s|
    ensures r < U32_LIMIT
  {
    s[i] as int + 256 * (s[i + 1] as int) + 0x1_0000 * (s[i + 2] as int) + 0x100_0000 * (s[i + 3] as int)
  }

  /** Reading back a little-endian word gives the value that was encoded. */
  lemma LE32RoundTrip(v: nat, s: seq<Byte>, i: nat)
    requires v < U32_LIMIT
    requires i + 4 <= |s| && s[i..i + 4] == LE32(v)
    ensures U32At(s, i) == v
  {
    assert s[i] == LE32(v)[0] && s[i + 1] == LE32(v)[1];
    assert s[i + 2] == LE32(v)[2] && s[i + 3] == LE32(v)[3];
    var q1, q2, q3 := v / 256, v / 0x1_0000, v / 0x100_0000;
    assert v == v % 256 + 256 * q1;
    ByteSplit(v, q1, q2);
    ByteSplit(v, q2, q3);
  }

  /** The next byte up: v / 256^(k+1) is the quotient of v / 256^k by 256. */
  lemma ByteSplit(v: nat, lower: nat, upper: nat)
    requires (lower == v / 256 && upper == v / 0x1_0000) || (lower == v / 0x1_0000 && upper == v / 0x100_0000)
    ensures lower == lower % 256 + 256 * upper
  {
  }

  /** A run of n zero bytes. */
  function Zeros(n: nat): (r: seq<Byte>)
    ensures |r| == n && forall i :: 0 <= i < n ==> r[i] == 0
  {
    seq(n, _ => 0)
  }

  /** `*buf++ = c`: one character at w, and the buffer after it left alone. */
  method Put(buf: array<char>, w: nat, c: char)
    requires w < buf.Length
    modifies buf
    ensures buf[..w + 1] == old(buf[..w]) + [c]
    ensures buf[w + 1..] == old(buf[w + 1..])
  {
    buf[w] := c;
  }

  /** A suffix is the slice up to j followed by the suffix from j. */
  lemma SuffixSplit<T>(s: seq<T>, i: nat, j: nat)
    requires i <= j <= |s|
    ensures s[i..] == s[i..j] + s[j..]
  {
  }
}
