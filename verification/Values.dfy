/** Decoded values, their budget cost, and scalar decoding (data_decoder.go, reflection.go). */
module Values {
  import opened Core
  import opened Format

  /**
   * A value decoded into `any`. A map is the list of its entries in encoded order, duplicates included; a slice
   * is a container whose entries carry empty keys. Unsigned integers of every width up to 64 bits are `Uint`;
   * floats are bit patterns.
   */
  datatype Value =
    | Bool(flag: bool)
    | String(text: seq<byte>)
    | Blob(bytes: seq<byte>)
    | Float64(bits: nat)
    | Float32(bits: nat)
    | Int32(number: int)
    | Uint(n: nat)
    | Uint128(n: nat)
    | Container(isMap: bool, entries: seq<Entry>)

  datatype Entry = Entry(key: seq<byte>, value: Value)

  /** Kind byte of a container. */
  function KindFor(isMap: bool): nat {
    if isMap then KIND_MAP else KIND_SLICE
  }

  /** Child slots of the fully unfolded value: two for each map entry, one for each slice element. */
  function Slots(v: Value): nat {
    if v.Container? then Children(KindFor(v.isMap), |v.entries|) + SlotsOf(v.entries) else 0
  }

  function SlotsOf(es: seq<Entry>): nat {
    if es == [] then 0 else Slots(es[0].value) + SlotsOf(es[1..])
  }

  /** Bytes of every string, byte slice and map key in the unfolded value. */
  function Payload(v: Value): nat {
    match v
    case String(text) => |text|
    case Blob(bytes) => |bytes|
    case Container(_, entries) => PayloadOf(entries)
    case _ => 0
  }

  function PayloadOf(es: seq<Entry>): nat {
    if es == [] then 0 else |es[0].key| + Payload(es[0].value) + PayloadOf(es[1..])
  }

  lemma {:induction false} CostsAppend(a: seq<Entry>, b: seq<Entry>)
    ensures SlotsOf(a + b) == SlotsOf(a) + SlotsOf(b)
    ensures PayloadOf(a + b) == PayloadOf(a) + PayloadOf(b)
    decreases |a|
  {
    if a == [] {
      assert a + b == b;
    } else {
      assert (a + b)[1..] == a[1..] + b;
      CostsAppend(a[1..], b);
    }
  }

  // ---- Scalars ----

  function BigEndian(bytes: seq<byte>): nat {
    UintFromBytes(0, bytes)
  }

  function Pow256(n: nat): (r: nat)
    ensures r > 0
  {
    if n == 0 then 1 else 256 * Pow256(n - 1)
  }

  lemma {:induction false} BigEndianBound(bytes: seq<byte>)
    ensures BigEndian(bytes) < Pow256(|bytes|)
  {
    if bytes != [] {
      BigEndianBound(bytes[..|bytes| - 1]);
    }
  }

  lemma {:induction false} Pow256Monotone(m: nat, n: nat)
    requires m <= n
    ensures Pow256(m) <= Pow256(n)
    decreases n
  {
    if m < n {
      Pow256Monotone(m, n - 1);
    }
  }

  const TWO32: nat := 0x1_0000_0000
  const TWO64: nat := 0x1_0000_0000_0000_0000

  lemma Pow256Values()
    ensures Pow256(2) == 0x1_0000 && Pow256(3) == 0x100_0000 && Pow256(4) == TWO32 && Pow256(8) == TWO64
  {
    assert Pow256(1) == 256;
    assert Pow256(2) == 0x1_0000;
    assert Pow256(3) == 0x100_0000;
    assert Pow256(4) == TWO32;
    assert Pow256(5) == 0x100_0000_0000;
    assert Pow256(6) == 0x1_0000_0000_0000;
    assert Pow256(7) == 0x100_0000_0000_0000;
  }

  lemma Pow256Wide()
    ensures Pow256(15) == 0x100_0000_0000_0000 * TWO64 && Pow256(16) == TWO64 * TWO64
  {
    Pow256Values();
    assert Pow256(9) == 0x100 * TWO64;
    assert Pow256(10) == 0x1_0000 * TWO64;
    assert Pow256(11) == 0x100_0000 * TWO64;
    assert Pow256(12) == TWO32 * TWO64;
    assert Pow256(13) == 0x100_0000_0000 * TWO64;
    assert Pow256(14) == 0x1_0000_0000_0000 * TWO64;
  }

  /** Two's-complement reading of a 32-bit pattern. */
  function AsInt32(n: nat): int {
    if n >= 0x8000_0000 then n - TWO32 else n
  }

  /** The value of a scalar whose size is valid for its kind; its payload is `bytes`. */
  function ScalarValue(kind: nat, size: nat, bytes: seq<byte>): (v: Value)
    ensures !v.Container? && Slots(v) == 0
    ensures Payload(v) == if kind == KIND_STRING || kind == KIND_BYTES then |bytes| else 0
  {
    if kind == KIND_BOOL then Bool(size != 0)
    else if kind == KIND_STRING then String(bytes)
    else if kind == KIND_BYTES then Blob(bytes)
    else if kind == KIND_FLOAT64 then Float64(BigEndian(bytes))
    else if kind == KIND_FLOAT32 then Float32(BigEndian(bytes))
    else if kind == KIND_INT32 then Int32(AsInt32(BigEndian(bytes)))
    else if kind == KIND_UINT128 then Uint128(BigEndian(bytes))
    else Uint(BigEndian(bytes))
  }

  /** The accumulating loops of decodeUint16/32/64: shift by eight, or in a byte, truncate to the register width. */
  method AccumulateUint(bytes: seq<byte>, width: nat) returns (val: nat)
    requires width == 2 || width == 4 || width == 8
    requires |bytes| <= width
    ensures val == BigEndian(bytes) && val < Pow256(width)
  {
    hide Pow256;
    val := 0;
    for i := 0 to |bytes|
      invariant val == BigEndian(bytes[..i])
    {
      assert bytes[..i + 1][..i] == bytes[..i];
      BigEndianBound(bytes[..i + 1]);
      Pow256Monotone(i + 1, width);
      DivMod(val * 0x100, Pow256(width), 0, val * 0x100);
      val := val * 0x100 % Pow256(width) + At(bytes, i);
    }
    assert bytes[..|bytes|] == bytes;
    BigEndianBound(bytes);
    Pow256Monotone(|bytes|, width);
  }

  /** decodeInt32's loop over a wrapping signed register. */
  method AccumulateInt32(bytes: seq<byte>) returns (val: int)
    requires |bytes| <= 4
    ensures val == AsInt32(BigEndian(bytes))
  {
    val := 0;
    Pow256Values();
    for i := 0 to |bytes|
      invariant val == AsInt32(BigEndian(bytes[..i]))
    {
      assert bytes[..i + 1][..i] == bytes[..i];
      ghost var n := BigEndian(bytes[..i]);
      BigEndianBound(bytes[..i]);
      Pow256Monotone(i, 3);
      assert n < 0x100_0000 && val == n;
      var shifted := val * 0x100 % TWO32;
      val := AsInt32(shifted + At(bytes, i));
    }
    assert bytes[..|bytes|] == bytes;
  }

  /** decodeUint128: two 64-bit words; the byte shifted out of the low word enters the high word. */
  method AccumulateUint128(bytes: seq<byte>) returns (hi: nat, lo: nat)
    requires |bytes| <= 16
    ensures hi * TWO64 + lo == BigEndian(bytes) && lo < TWO64 && hi < TWO64
  {
    hi, lo := 0, 0;
    for i := 0 to |bytes|
      invariant lo < TWO64 && hi * TWO64 + lo == BigEndian(bytes[..i])
    {
      assert bytes[..i + 1][..i] == bytes[..i];
      var b := At(bytes, i);
      var carry := lo / 0x100_0000_0000_0000;
      Append64(lo, b);
      assert hi < 0x100_0000_0000_0000 by {
        BigEndianBound(bytes[..i]);
        Pow256Monotone(i, 15);
        Pow256Wide();
      }
      Append64(hi, carry);
      lo := lo * 0x100 % TWO64 + b;
      hi := hi * 0x100 % TWO64 + carry;
    }
    assert bytes[..|bytes|] == bytes;
    BigEndianBound(bytes);
    Pow256Monotone(|bytes|, 16);
    Pow256Wide();
  }

  /** Appending a byte to a 64-bit word splits the 72-bit result into carry and word. */
  lemma Append64(word: nat, b: nat)
    requires word < TWO64 && b < 256
    ensures var carry := word / 0x100_0000_0000_0000;
            && carry < 256
            && carry * TWO64 + (word * 0x100 % TWO64 + b) == word * 0x100 + b
            && word * 0x100 % TWO64 + b < TWO64
  {
    var carry := word / 0x100_0000_0000_0000;
    var low := word % 0x100_0000_0000_0000;
    DivMod(word * 0x100, TWO64, carry, low * 0x100);
  }
}
