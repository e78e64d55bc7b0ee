/** Bytes, optional values and failures shared by the search-tree and data-section models. */
module Core {
  type byte = b: int | 0 <= b < 256

  /** Largest value of the 64-bit `uint` used for offsets and counters. */
  const MAX_UINT: nat := 0xFFFF_FFFF_FFFF_FFFF

  /** Longest slice the runtime can address; every buffer is at most this long. */
  const MAX_LEN: nat := 0x7FFF_FFFF_FFFF_FFFF

  datatype Option<+T> = None | Some(value: T)

  datatype Failure =
    | Malformed      // bytes that break the file format
    | TooLarge       // an operation budget is exhausted
    | TooDeep        // nesting beyond the depth limit
    | WrongFamily    // IPv6 address or network in an IPv4-only database
    | InvalidAddress // the zero address or a malformed prefix
    | Mismatch       // a path element does not fit the value it meets

  datatype Result<+T> = Ok(value: T) | Err(error: Failure)

  predicate HasBufferRange(bufferLen: nat, offset: nat, size: nat)
    ensures HasBufferRange(bufferLen, offset, size) <==> offset + size <= bufferLen
  {
    size <= bufferLen && offset <= bufferLen - size
  }

  /** The byte at `i` as a plain integer, so that arithmetic on it is unbounded. */
  function At(buffer: seq<byte>, i: nat): (b: int)
    requires i < |buffer|
    ensures 0 <= b < 256
  {
    buffer[i]
  }

  /** Big-endian loads of three and four bytes. */
  function Load24(buffer: seq<byte>, i: nat): nat
    requires i + 3 <= |buffer|
  {
    At(buffer, i) * 0x1_0000 + At(buffer, i + 1) * 0x100 + At(buffer, i + 2)
  }

  function Load32(buffer: seq<byte>, i: nat): nat
    requires i + 4 <= |buffer|
  {
    At(buffer, i) * 0x100_0000 + At(buffer, i + 1) * 0x1_0000 + At(buffer, i + 2) * 0x100 + At(buffer, i + 3)
  }

  function Zeros(n: nat): (z: seq<bool>)
    ensures |z| == n
  {
    seq(n, _ => false)
  }

  /** Quotient and remainder are determined by any decomposition with a small enough remainder. */
  lemma DivMod(x: nat, d: nat, q: nat, r: nat)
    requires r < d && x == q * d + r
    ensures x / d == q && x % d == r
  {
    var p := x / d;
    assert x == p * d + x % d;
    MulMonotone(p + 1, q, d);
    MulMonotone(q + 1, p, d);
  }

  lemma MulMonotone(a: int, b: int, d: nat)
    ensures a <= b ==> a * d <= b * d
  {
  }
}
