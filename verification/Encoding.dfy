/** The canonical encoding of values and pointers, and that decoding undoes it (MaxMind DB format, "Data Field Format"). */
module Encoding {
  import opened Core
  import opened Format
  import opened Values
  import opened Grammar
  import opened StringPaths

  /** `bytes` stand in the buffer at `offset`. */
  predicate Placed(buf: seq<byte>, offset: nat, bytes: seq<byte>) {
    offset + |bytes| <= |buf| && buf[offset..offset + |bytes|] == bytes
  }

  lemma PlacedSplit(buf: seq<byte>, offset: nat, a: seq<byte>, b: seq<byte>)
    requires Placed(buf, offset, a + b)
    ensures Placed(buf, offset, a) && Placed(buf, offset + |a|, b)
  {
    var all := buf[offset..offset + |a + b|];
    assert buf[offset..offset + |a|] == all[..|a|] == a;
    assert buf[offset + |a|..offset + |a| + |b|] == all[|a|..] == b;
  }

  lemma PlacedAt(buf: seq<byte>, offset: nat, bytes: seq<byte>, i: nat)
    requires Placed(buf, offset, bytes) && i < |bytes|
    ensures buf[offset + i] == bytes[i]
  {
    assert buf[offset..offset + |bytes|][i] == bytes[i];
  }

  // ---- Integers ----

  function BytesOf(n: nat, width: nat): (bytes: seq<byte>)
    ensures |bytes| == width
  {
    if width == 0 then [] else BytesOf(n / 0x100, width - 1) + [n % 0x100]
  }

  lemma {:induction false} BytesRoundTrip(n: nat, width: nat)
    requires n < Pow256(width)
    ensures BigEndian(BytesOf(n, width)) == n
    decreases width
  {
    if width > 0 {
      BytesRoundTrip(n / 0x100, width - 1);
      var bytes := BytesOf(n, width);
      assert bytes[..width - 1] == BytesOf(n / 0x100, width - 1);
    }
  }

  /** Fewest bytes that hold `n`; zero needs none. */
  function MinWidth(n: nat): (w: nat)
    ensures n < Pow256(w)
  {
    if n == 0 then 0 else 1 + MinWidth(n / 0x100)
  }

  lemma {:induction false} MinWidthFits(n: nat, width: nat)
    requires n < Pow256(width)
    ensures MinWidth(n) <= width
    decreases width
  {
    if n > 0 {
      MinWidthFits(n / 0x100, width - 1);
    }
  }

  function Minimal(n: nat): seq<byte> {
    BytesOf(n, MinWidth(n))
  }

  lemma Bytes1(n: nat)
    requires n < 0x100
    ensures At(BytesOf(n, 1), 0) == n
  {
    assert BytesOf(n / 0x100, 0) == [];
  }

  lemma Bytes2(n: nat)
    requires n < 0x1_0000
    ensures At(BytesOf(n, 2), 0) * 0x100 + At(BytesOf(n, 2), 1) == n
  {
    Bytes1(n / 0x100);
  }

  lemma Bytes3(n: nat)
    requires n < 0x100_0000
    ensures At(BytesOf(n, 3), 0) * 0x1_0000 + At(BytesOf(n, 3), 1) * 0x100 + At(BytesOf(n, 3), 2) == n
  {
    Bytes2(n / 0x100);
    assert forall i :: 0 <= i < 2 ==> BytesOf(n, 3)[i] == BytesOf(n / 0x100, 2)[i];
  }

  lemma Bytes4(n: nat)
    requires n < TWO32
    ensures var b := BytesOf(n, 4);
            At(b, 0) * 0x100_0000 + At(b, 1) * 0x1_0000 + At(b, 2) * 0x100 + At(b, 3) == n
  {
    Bytes3(n / 0x100);
    assert forall i :: 0 <= i < 3 ==> BytesOf(n, 4)[i] == BytesOf(n / 0x100, 3)[i];
  }

  // ---- Headers ----

  /** The five size bits and the size bytes that follow the header. */
  function SizeBits(size: nat): (bits: nat)
    ensures bits < 32
  {
    if size < 29 then size else if size < 285 then 29 else if size < 65_821 then 30 else 31
  }

  function SizeBytes(size: nat): seq<byte>
    requires size <= MAX_VALUE_SIZE
  {
    if size < 29 then []
    else if size < 285 then BytesOf(size - 29, 1)
    else if size < 65_821 then BytesOf(size - 285, 2)
    else BytesOf(size - 65_821, 3)
  }

  /** Kinds above 7 are extended: a zero kind in the control byte and the kind minus 7 in the next. */
  function KindBytes(kind: nat, bits: nat): seq<byte>
    requires 2 <= kind <= 15 && bits < 32
  {
    if kind < 8 then [kind * 32 + bits] else [bits, kind - 7]
  }

  function EncodeHeader(kind: nat, size: nat): seq<byte>
    requires 2 <= kind <= 15 && size <= MAX_VALUE_SIZE
  {
    KindBytes(kind, SizeBits(size)) + SizeBytes(size)
  }

  /** The kind survives its one or two bytes. */
  lemma KindRoundTrip(buf: seq<byte>, offset: nat, kind: nat, bits: nat)
    requires 2 <= kind <= 15 && bits < 32 && Placed(buf, offset, KindBytes(kind, bits))
    ensures At(buf, offset) % 32 == bits
    ensures At(buf, offset) / 32 == if kind < 8 then kind else KIND_EXTENDED
    ensures kind >= 8 ==> offset + 1 < |buf| && At(buf, offset + 1) + 7 == kind
  {
    var bytes := KindBytes(kind, bits);
    PlacedAt(buf, offset, bytes, 0);
    if kind < 8 {
      DivMod(kind * 32 + bits, 32, kind, bits);
    } else {
      PlacedAt(buf, offset, bytes, 1);
    }
  }

  /** Every kind and every size up to the largest one survives its header. */
  lemma HeaderRoundTrip(buf: seq<byte>, offset: nat, kind: nat, size: nat)
    requires 2 <= kind <= 15 && size <= MAX_VALUE_SIZE && Placed(buf, offset, EncodeHeader(kind, size))
    ensures DecodeCtrl(buf, offset) == Some(Ctrl(kind, size, offset + |EncodeHeader(kind, size)|))
  {
    hide BytesOf;
    var first, extra := KindBytes(kind, SizeBits(size)), SizeBytes(size);
    PlacedSplit(buf, offset, first, extra);
    KindRoundTrip(buf, offset, kind, SizeBits(size));
    var data := offset + |first|;
    if 29 <= size < 285 {
      Bytes1(size - 29);
      PlacedAt(buf, data, extra, 0);
    } else if 285 <= size < 65_821 {
      Bytes2(size - 285);
      PlacedAt(buf, data, extra, 0);
      PlacedAt(buf, data, extra, 1);
    } else if 65_821 <= size {
      Bytes3(size - 65_821);
      PlacedAt(buf, data, extra, 0);
      PlacedAt(buf, data, extra, 1);
      PlacedAt(buf, data, extra, 2);
    }
  }

  // ---- Values ----

  const TWO128: nat := TWO64 * TWO64

  /** Values the format can express: sizes and numbers in range, and no keys in slices. */
  predicate Encodable(v: Value)
    decreases v
  {
    match v
    case Bool(_) => true
    case String(text) => |text| <= MAX_VALUE_SIZE
    case Blob(bytes) => |bytes| <= MAX_VALUE_SIZE
    case Float64(bits) => bits < TWO64
    case Float32(bits) => bits < TWO32
    case Int32(number) => -0x8000_0000 <= number < 0x8000_0000
    case Uint(n) => n < TWO64
    case Uint128(n) => n < TWO128
    case Container(isMap, es) => |es| <= MAX_VALUE_SIZE && EntriesEncodable(isMap, es)
  }

  predicate EntriesEncodable(isMap: bool, es: seq<Entry>)
    decreases es
  {
    es == [] ||
    (|es[0].key| <= (if isMap then MAX_VALUE_SIZE else 0) && Encodable(es[0].value) && EntriesEncodable(isMap, es[1..]))
  }

  /** Levels of nesting below a value. */
  function Height(v: Value): nat {
    if v.Container? then HeightOf(v.entries) else 0
  }

  function HeightOf(es: seq<Entry>): nat {
    if es == [] then 0
    else var h, t := 1 + Height(es[0].value), HeightOf(es[1..]); if h < t then t else h
  }

  function KindOf(v: Value): (kind: nat)
    ensures 2 <= kind <= 15
  {
    match v
    case Bool(_) => KIND_BOOL
    case String(_) => KIND_STRING
    case Blob(_) => KIND_BYTES
    case Float64(_) => KIND_FLOAT64
    case Float32(_) => KIND_FLOAT32
    case Int32(_) => KIND_INT32
    case Uint(_) => KIND_UINT64
    case Uint128(_) => KIND_UINT128
    case Container(isMap, _) => KindFor(isMap)
  }

  /** Payload bytes of a scalar that is not a boolean. */
  function ScalarBytes(v: Value): seq<byte>
    requires !v.Container? && Encodable(v)
  {
    match v
    case Bool(_) => []
    case String(text) => text
    case Blob(bytes) => bytes
    case Float64(bits) => BytesOf(bits, 8)
    case Float32(bits) => BytesOf(bits, 4)
    case Int32(number) => Minimal(if number < 0 then number + TWO32 else number)
    case Uint(n) => Minimal(n)
    case Uint128(n) => Minimal(n)
  }

  lemma ScalarBytesFit(v: Value)
    requires !v.Container? && Encodable(v)
    ensures |ScalarBytes(v)| <= MAX_VALUE_SIZE
    ensures !v.Bool? ==> ScalarSizeValid(KindOf(v), |ScalarBytes(v)|)
  {
    Pow256Values();
    Pow256Wide();
    match v
    case Int32(number) => MinWidthFits(if number < 0 then number + TWO32 else number, 4);
    case Uint(n) => MinWidthFits(n, 8);
    case Uint128(n) => MinWidthFits(n, 16);
    case _ =>
  }

  function Encode(v: Value): seq<byte>
    requires Encodable(v)
    decreases v, 1
  {
    if v.Container? then EncodeHeader(KindOf(v), |v.entries|) + EncodeEntries(v.isMap, v.entries)
    else if v.Bool? then EncodeHeader(KIND_BOOL, if v.flag then 1 else 0)
    else
      ScalarBytesFit(v);
      EncodeHeader(KindOf(v), |ScalarBytes(v)|) + ScalarBytes(v)
  }

  function EncodeEntries(isMap: bool, es: seq<Entry>): seq<byte>
    requires EntriesEncodable(isMap, es)
    decreases es, 0
  {
    if es == [] then []
    else EncodeKey(isMap, es[0].key) + Encode(es[0].value) + EncodeEntries(isMap, es[1..])
  }

  /** A scalar's payload reads back as the scalar. */
  lemma ScalarRoundTrip(v: Value)
    requires !v.Container? && !v.Bool? && Encodable(v)
    ensures ScalarValue(KindOf(v), |ScalarBytes(v)|, ScalarBytes(v)) == v
  {
    Pow256Values();
    Pow256Wide();
    match v
    case Float64(bits) => BytesRoundTrip(bits, 8);
    case Float32(bits) => BytesRoundTrip(bits, 4);
    case Int32(number) =>
      var n := if number < 0 then number + TWO32 else number;
      BytesRoundTrip(n, MinWidth(n));
    case Uint(n) => BytesRoundTrip(n, MinWidth(n));
    case Uint128(n) => BytesRoundTrip(n, MinWidth(n));
    case _ =>
  }

  /** Decoding an encoded value anywhere in any buffer returns the value and consumes exactly its bytes. */
  lemma {:induction false} RoundTrip(buf: seq<byte>, offset: nat, v: Value, depth: nat, strict: bool)
    requires Encodable(v) && Placed(buf, offset, Encode(v)) && depth + Height(v) <= MAX_DEPTH
    ensures Parse(buf, offset, depth, strict) == Some(Parsed(v, offset + |Encode(v)|))
    decreases v, 1
  {
    hide DecodeCtrl, EncodeHeader, EncodeEntries, ScalarValue, ScalarBytes, ScalarSizeValid, ParseContents, Placed;
    if v.Container? {
      var header := EncodeHeader(KindOf(v), |v.entries|);
      PlacedSplit(buf, offset, header, EncodeEntries(v.isMap, v.entries));
      HeaderRoundTrip(buf, offset, KindOf(v), |v.entries|);
      EntriesRoundTrip(buf, offset + |header|, v.isMap, v.entries, depth + 1,
                       strict || Children(KindOf(v), |v.entries|) >= PREFLIGHT_COUNT);
    } else {
      ScalarParses(buf, offset, v, depth, strict);
    }
  }

  lemma ScalarParses(buf: seq<byte>, offset: nat, v: Value, depth: nat, strict: bool)
    requires !v.Container? && Encodable(v) && Placed(buf, offset, Encode(v)) && depth <= MAX_DEPTH
    ensures Parse(buf, offset, depth, strict) == Some(Parsed(v, offset + |Encode(v)|))
  {
    hide DecodeCtrl, EncodeHeader, ScalarValue, ScalarBytes, ScalarSizeValid, Encodable;
    if v.Bool? {
      HeaderRoundTrip(buf, offset, KIND_BOOL, if v.flag then 1 else 0);
      BoolValue(v.flag);
    } else {
      var bytes := ScalarBytes(v);
      ScalarBytesFit(v);
      var header := EncodeHeader(KindOf(v), |bytes|);
      PlacedSplit(buf, offset, header, bytes);
      HeaderRoundTrip(buf, offset, KindOf(v), |bytes|);
      ScalarRoundTrip(v);
      assert ScalarEnd(buf, KindOf(v), |bytes|, offset + |header|) == Some(offset + |header| + |bytes|);
    }
  }

  lemma BoolValue(flag: bool)
    ensures ScalarValue(KIND_BOOL, if flag then 1 else 0, []) == Bool(flag)
  {
  }

  lemma KeyRoundTrip(buf: seq<byte>, offset: nat, key: seq<byte>)
    requires |key| <= MAX_VALUE_SIZE && Placed(buf, offset, EncodeHeader(KIND_STRING, |key|) + key)
    ensures var end := offset + |EncodeHeader(KIND_STRING, |key|) + key|;
            && ResolveString(buf, offset).Some? && ResolveString(buf, offset).value.bytes == key
            && ResolveString(buf, offset).value.next == end && !IsPointerAt(buf, offset)
  {
    hide DecodeCtrl;
    var header := EncodeHeader(KIND_STRING, |key|);
    PlacedSplit(buf, offset, header, key);
    HeaderRoundTrip(buf, offset, KIND_STRING, |key|);
    HeaderFits(buf, offset);
  }

  /** Bytes of a map key; a slice element has none. */
  function EncodeKey(isMap: bool, key: seq<byte>): seq<byte>
    requires |key| <= if isMap then MAX_VALUE_SIZE else 0
  {
    if isMap then EncodeHeader(KIND_STRING, |key|) + key else []
  }

  lemma ParsedKey(buf: seq<byte>, offset: nat, isMap: bool, key: seq<byte>, depth: nat, strict: bool)
    requires |key| <= (if isMap then MAX_VALUE_SIZE else 0) && Placed(buf, offset, EncodeKey(isMap, key))
    ensures var k := ParseKey(buf, isMap, offset, depth, strict);
            k.Some? && k.value.bytes == key && k.value.next == offset + |EncodeKey(isMap, key)|
  {
    hide DecodeCtrl, EncodeHeader, ResolveString;
    if isMap { KeyRoundTrip(buf, offset, key); }
  }

  /** The three stretches of a run of entries: the first key, its value and the rest. */
  lemma EntriesPlaced(buf: seq<byte>, offset: nat, isMap: bool, es: seq<Entry>)
    requires es != [] && EntriesEncodable(isMap, es) && Placed(buf, offset, EncodeEntries(isMap, es))
    ensures var key, value, rest := EncodeKey(isMap, es[0].key), Encode(es[0].value), EncodeEntries(isMap, es[1..]);
            && Placed(buf, offset, key) && Placed(buf, offset + |key|, value)
            && Placed(buf, offset + |key| + |value|, rest)
            && |EncodeEntries(isMap, es)| == |key| + |value| + |rest|
  {
    hide EncodeKey, Encode, Encodable, Placed;
    var key, value, rest := EncodeKey(isMap, es[0].key), Encode(es[0].value), EncodeEntries(isMap, es[1..]);
    PlacedSplit(buf, offset, key + value, rest);
    PlacedSplit(buf, offset, key, value);
  }

  /** When the first value and the rest parse back, so does the run. */
  lemma EntriesJoin(buf: seq<byte>, offset: nat, isMap: bool, es: seq<Entry>, depth: nat, strict: bool)
    requires es != [] && EntriesEncodable(isMap, es) && Placed(buf, offset, EncodeEntries(isMap, es))
    requires var value := offset + |EncodeKey(isMap, es[0].key)|;
             var rest := value + |Encode(es[0].value)|;
             && Parse(buf, value, depth, strict) == Some(Parsed(es[0].value, rest))
             && ParseContents(buf, isMap, rest, |es| - 1, depth, strict)
                == Some(Contents(es[1..], rest + |EncodeEntries(isMap, es[1..])|))
    ensures ParseContents(buf, isMap, offset, |es|, depth, strict) == Some(Contents(es, offset + |EncodeEntries(isMap, es)|))
  {
    hide EncodeKey, Encode, Encodable, Placed, Parse, ParseKey, ParseContents, EncodeEntries, EntriesEncodable;
    EntriesHead(isMap, es);
    EntriesPlaced(buf, offset, isMap, es);
    ParsedKey(buf, offset, isMap, es[0].key, depth, strict);
    ContentsCons(buf, isMap, offset, |es|, depth, strict);
    assert es == [es[0]] + es[1..];
  }

  lemma EntriesHead(isMap: bool, es: seq<Entry>)
    requires es != [] && EntriesEncodable(isMap, es)
    ensures |es[0].key| <= (if isMap then MAX_VALUE_SIZE else 0)
    ensures Encodable(es[0].value) && EntriesEncodable(isMap, es[1..])
    ensures 1 + Height(es[0].value) <= HeightOf(es) && HeightOf(es[1..]) <= HeightOf(es)
  {
  }

  lemma {:induction false} EntriesRoundTrip(
    buf: seq<byte>, offset: nat, isMap: bool, es: seq<Entry>, depth: nat, strict: bool)
    requires EntriesEncodable(isMap, es) && Placed(buf, offset, EncodeEntries(isMap, es))
    requires 0 < depth && depth - 1 + HeightOf(es) <= MAX_DEPTH
    ensures ParseContents(buf, isMap, offset, |es|, depth, strict) == Some(Contents(es, offset + |EncodeEntries(isMap, es)|))
    decreases es, 0
  {
    hide EncodeKey, Encode, Encodable, Placed, Parse, ParseKey, ParseContents;
    if es == [] {
      NoContents(buf, isMap, offset, depth, strict);
    } else {
      hide EncodeEntries, EntriesEncodable, Height, HeightOf;
      var e := es[0];
      EntriesHead(isMap, es);
      var key, value := EncodeKey(isMap, e.key), Encode(e.value);
      EntriesPlaced(buf, offset, isMap, es);
      RoundTrip(buf, offset + |key|, e.value, depth, strict);
      EntriesRoundTrip(buf, offset + |key| + |value|, isMap, es[1..], depth, strict);
      EntriesJoin(buf, offset, isMap, es, depth, strict);
    }
  }

  // ---- Decoded values can be encoded ----

  lemma ScalarEncodable(kind: nat, size: nat, bytes: seq<byte>)
    requires kind == KIND_BOOL || (ScalarSizeValid(kind, size) && |bytes| == size <= MAX_VALUE_SIZE)
    ensures Encodable(ScalarValue(kind, size, bytes)) && Height(ScalarValue(kind, size, bytes)) == 0
  {
    hide BigEndian, Pow256;
    if kind != KIND_BOOL {
      BigEndianBound(bytes);
      Pow256Values();
      Pow256Wide();
      if kind == KIND_UINT128 {
        Pow256Monotone(size, 16);
      } else if size <= 4 {
        Pow256Monotone(size, 4);
      } else if size <= 8 {
        Pow256Monotone(size, 8);
      }
    }
  }

  /** Whatever decodes is a value the format can express, nested no deeper than the levels left. */
  lemma {:induction false} ParsedEncodable(buf: seq<byte>, offset: nat, depth: nat, strict: bool)
    requires Parse(buf, offset, depth, strict).Some?
    ensures var v := Parse(buf, offset, depth, strict).value.value; Encodable(v) && depth + Height(v) <= MAX_DEPTH
    decreases Remaining(depth), 0
  {
    hide DecodeCtrl, ScalarValue, ScalarSizeValid, ParseContents, EntriesEncodable, HeightOf;
    var Ctrl(kind, size, data) := DecodeCtrl(buf, offset).value;
    if kind == KIND_POINTER {
      ParsedEncodable(buf, DecodePointer(buf, size, data).value.0, depth + 1, strict);
    } else if IsContainer(kind) {
      ContentsEncodable(buf, kind == KIND_MAP, data, size, depth + 1, strict || Children(kind, size) >= PREFLIGHT_COUNT);
    } else {
      var end := ScalarEnd(buf, kind, size, data).value;
      ScalarEncodable(kind, size, if kind == KIND_BOOL then [] else buf[data..end]);
    }
  }

  lemma {:induction false} ContentsEncodable(buf: seq<byte>, isMap: bool, offset: nat, n: nat, depth: nat, strict: bool)
    requires ParseContents(buf, isMap, offset, n, depth, strict).Some? && 0 < depth <= MAX_DEPTH + 1
    ensures var es := ParseContents(buf, isMap, offset, n, depth, strict).value.entries;
            EntriesEncodable(isMap, es) && depth - 1 + HeightOf(es) <= MAX_DEPTH
    decreases Remaining(depth), n + 1
  {
    hide Parse, ParseKey, ParseContents, Encodable, Height;
    if n == 0 {
      NoContents(buf, isMap, offset, depth, strict);
    } else {
      ContentsParts(buf, isMap, offset, n, depth, strict);
      ContentsCons(buf, isMap, offset, n, depth, strict);
      var key := ParseKey(buf, isMap, offset, depth, strict).value;
      var p := Parse(buf, key.next, depth, strict).value;
      KeyLength(buf, isMap, offset, depth, strict);
      ParsedEncodable(buf, key.next, depth, strict);
      ContentsEncodable(buf, isMap, p.next, n - 1, depth, strict);
      var es := ParseContents(buf, isMap, offset, n, depth, strict).value.entries;
      assert es[1..] == ParseContents(buf, isMap, p.next, n - 1, depth, strict).value.entries;
    }
  }

  lemma KeyLength(buf: seq<byte>, isMap: bool, offset: nat, depth: nat, strict: bool)
    requires ParseKey(buf, isMap, offset, depth, strict).Some?
    ensures |ParseKey(buf, isMap, offset, depth, strict).value.bytes| <= if isMap then MAX_VALUE_SIZE else 0
  {
    hide ResolveCtrl;
  }

  /** Encoding a decoded value afresh, pointers and spare bytes gone, and decoding it again gives the same value. */
  lemma Reencoded(buf: seq<byte>, offset: nat, depth: nat, strict: bool)
    requires Parse(buf, offset, depth, strict).Some?
    ensures var v := Parse(buf, offset, depth, strict).value.value;
            Encodable(v) && Parse(Encode(v), 0, depth, strict) == Some(Parsed(v, |Encode(v)|))
  {
    hide Parse, Encode, Encodable, Height;
    ParsedEncodable(buf, offset, depth, strict);
    var v := Parse(buf, offset, depth, strict).value.value;
    var bytes := Encode(v);
    assert bytes[0..|bytes|] == bytes;
    RoundTrip(bytes, 0, v, depth, strict);
  }

  /** Unsigned integers of every kind and width, leading zeros included, decode into `any` alike. */
  lemma UintRoundTrip(buf: seq<byte>, offset: nat, kind: nat, width: nat, n: nat, depth: nat, strict: bool)
    requires kind == KIND_UINT16 || kind == KIND_UINT32 || kind == KIND_UINT64
    requires ScalarSizeValid(kind, width) && n < Pow256(width) && depth <= MAX_DEPTH
    requires Placed(buf, offset, EncodeHeader(kind, width) + BytesOf(n, width))
    ensures Parse(buf, offset, depth, strict) == Some(Parsed(Uint(n), offset + |EncodeHeader(kind, width)| + width))
  {
    hide DecodeCtrl, EncodeHeader, BytesOf, BigEndian, Pow256, ParseContents;
    var header, bytes := EncodeHeader(kind, width), BytesOf(n, width);
    PlacedSplit(buf, offset, header, bytes);
    HeaderRoundTrip(buf, offset, kind, width);
    BytesRoundTrip(n, width);
    assert ScalarEnd(buf, kind, width, offset + |header|) == Some(offset + |header| + width);
  }

  // ---- Pointers ----

  /** Targets each pointer width can express. */
  predicate PointerFits(target: nat, width: nat) {
    || (width == 1 && target < POINTER_BASE2)
    || (width == 2 && POINTER_BASE2 <= target < POINTER_BASE2 + 0x8_0000)
    || (width == 3 && POINTER_BASE3 <= target < POINTER_BASE3 + 0x800_0000)
    || (width == 4 && target < TWO32)
  }

  /** Control byte with the width and the three high bits, then the low bytes; widths 2 and 3 count from a base. */
  function EncodePointer(target: nat, width: nat): (bytes: seq<byte>)
    requires PointerFits(target, width)
    ensures |bytes| == 1 + width
  {
    if width == 1 then [32 + target / 0x100] + BytesOf(target % 0x100, 1)
    else if width == 2 then
      var x := target - POINTER_BASE2;
      [40 + x / 0x1_0000] + BytesOf(x % 0x1_0000, 2)
    else if width == 3 then
      var x := target - POINTER_BASE3;
      [48 + x / 0x100_0000] + BytesOf(x % 0x100_0000, 3)
    else [56] + BytesOf(target, 4)
  }

  /** All four pointer widths lead back to their target. */
  lemma PointerRoundTrip(buf: seq<byte>, offset: nat, target: nat, width: nat)
    requires PointerFits(target, width) && Placed(buf, offset, EncodePointer(target, width))
    ensures var ctrl := DecodeCtrl(buf, offset);
            && ctrl.Some? && ctrl.value.kind == KIND_POINTER
            && DecodePointer(buf, ctrl.value.size, ctrl.value.data) == Some((target, offset + 1 + width))
  {
    hide UintFromBytes, BytesOf, PointerSize, InlinePointer;
    var bytes := EncodePointer(target, width);
    var low := bytes[1..];
    assert bytes == [bytes[0]] + low;
    PlacedSplit(buf, offset, [bytes[0]], low);
    PlacedAt(buf, offset, [bytes[0]], 0);
    PointerBits(width, bytes[0] - 24 - 8 * width, bytes[0]);
    PointerValue(buf, offset + 1, target, width, bytes[0] % 32);
    InlinePointerIsDecoded(buf, bytes[0] % 32, offset + 1);
  }

  /** The inline arithmetic puts the high bits, the low bytes and the base of a width together again. */
  lemma PointerValue(buf: seq<byte>, payload: nat, target: nat, width: nat, size: nat)
    requires PointerFits(target, width) && Placed(buf, payload, EncodePointer(target, width)[1..])
    requires PointerSize(size) == width && size % 8 == EncodePointer(target, width)[0] - 24 - 8 * width
    ensures InlinePointer(buf, size, payload) == target
  {
    hide BytesOf, PointerSize;
    var low := EncodePointer(target, width)[1..];
    PlacedAt(buf, payload, low, 0);
    if width == 1 {
      assert low == BytesOf(target % 0x100, 1);
      Bytes1(target % 0x100);
    } else if width == 2 {
      var x := (target - POINTER_BASE2) % 0x1_0000;
      assert low == BytesOf(x, 2);
      PlacedAt(buf, payload, low, 1);
      Bytes2(x);
    } else if width == 3 {
      var x := (target - POINTER_BASE3) % 0x100_0000;
      assert low == BytesOf(x, 3);
      PlacedAt(buf, payload, low, 1);
      PlacedAt(buf, payload, low, 2);
      Bytes3(x);
    } else {
      assert low == BytesOf(target, 4);
      PlacedAt(buf, payload, low, 1);
      PlacedAt(buf, payload, low, 2);
      PlacedAt(buf, payload, low, 3);
      Bytes4(target);
    }
  }

  lemma PointerBits(width: nat, high: nat, ctrlByte: nat)
    requires 1 <= width <= 4 && high < 8 && ctrlByte == 24 + 8 * width + high
    ensures ctrlByte / 32 == KIND_POINTER && PointerSize(ctrlByte % 32) == width && ctrlByte % 32 % 8 == high
  {
  }

  /** A pointer to an encoded value decodes to that value and consumes only the pointer. */
  lemma SharedRoundTrip(buf: seq<byte>, offset: nat, target: nat, width: nat, v: Value, depth: nat, strict: bool)
    requires PointerFits(target, width) && Placed(buf, offset, EncodePointer(target, width))
    requires Encodable(v) && Placed(buf, target, Encode(v)) && depth + 1 + Height(v) <= MAX_DEPTH
    ensures Parse(buf, offset, depth, strict) == Some(Parsed(v, offset + 1 + width))
  {
    hide DecodeCtrl, EncodePointer, Encode, ScalarBytes, EncodeHeader;
    PointerRoundTrip(buf, offset, target, width);
    RoundTrip(buf, target, v, depth + 1, strict);
    EncodedKind(buf, target, v);
  }

  lemma EncodedKind(buf: seq<byte>, offset: nat, v: Value)
    requires Encodable(v) && Placed(buf, offset, Encode(v))
    ensures !IsPointerAt(buf, offset)
  {
    hide DecodeCtrl, EncodeHeader, ScalarBytes, EncodeEntries;
    if v.Container? {
      PlacedSplit(buf, offset, EncodeHeader(KindOf(v), |v.entries|), EncodeEntries(v.isMap, v.entries));
      HeaderRoundTrip(buf, offset, KindOf(v), |v.entries|);
    } else if v.Bool? {
      HeaderRoundTrip(buf, offset, KIND_BOOL, if v.flag then 1 else 0);
    } else {
      ScalarBytesFit(v);
      PlacedSplit(buf, offset, EncodeHeader(KindOf(v), |ScalarBytes(v)|), ScalarBytes(v));
      HeaderRoundTrip(buf, offset, KindOf(v), |ScalarBytes(v)|);
    }
  }
}
