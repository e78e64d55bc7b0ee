/** The data-section format: control bytes, pointers, and how far one value reaches (data_decoder.go, decoder.go). */
module Format {
  import opened Core

  const KIND_EXTENDED: nat := 0
  const KIND_POINTER: nat := 1
  const KIND_STRING: nat := 2
  const KIND_FLOAT64: nat := 3
  const KIND_BYTES: nat := 4
  const KIND_UINT16: nat := 5
  const KIND_UINT32: nat := 6
  const KIND_MAP: nat := 7
  const KIND_INT32: nat := 8
  const KIND_UINT64: nat := 9
  const KIND_UINT128: nat := 10
  const KIND_SLICE: nat := 11
  const KIND_BOOL: nat := 14
  const KIND_FLOAT32: nat := 15

  const MAX_VALUE_SIZE: nat := 65_821 + 0xFF_FFFF
  const POINTER_BASE2: nat := 2048
  const POINTER_BASE3: nat := 526_336

  /** Kind, size and the offset just past the header. */
  datatype Ctrl = Ctrl(kind: nat, size: nat, data: nat)

  /** Reads one header. An extended kind is a byte plus 7, wrapping modulo 256. */
  function DecodeCtrl(buf: seq<byte>, offset: nat): (r: Option<Ctrl>)
    ensures r.Some? ==> offset < r.value.data <= |buf| && r.value.size <= MAX_VALUE_SIZE
    ensures r.Some? && r.value.kind == KIND_POINTER ==> r.value.size < 32
  {
    if offset >= |buf| then None else
    var ctrlByte := At(buf, offset);
    var extended := ctrlByte / 32 == KIND_EXTENDED;
    if extended && offset + 1 >= |buf| then None else
    var kind := if extended then (At(buf, offset + 1) + 7) % 256 else ctrlByte / 32;
    var data := if extended then offset + 2 else offset + 1;
    var size := ctrlByte % 32;
    if size < 29 || kind == KIND_POINTER then Some(Ctrl(kind, size, data))
    else if data + size - 28 > |buf| then None
    else if size == 29 then Some(Ctrl(kind, 29 + At(buf, data), data + 1))
    else if size == 30 then Some(Ctrl(kind, 285 + At(buf, data) * 0x100 + At(buf, data + 1), data + 2))
    else Some(Ctrl(kind, 65_821 + At(buf, data) * 0x1_0000 + At(buf, data + 1) * 0x100 + At(buf, data + 2), data + 3))
  }

  function PointerSize(size: nat): (r: nat)
    ensures 1 <= r <= 4
  {
    size / 8 % 4 + 1
  }

  /** Target of a pointer and the offset past its token; three bits of the control byte extend widths 1 to 3. */
  function DecodePointer(buf: seq<byte>, size: nat, offset: nat): (r: Option<(nat, nat)>)
    ensures r.Some? <==> offset + PointerSize(size) <= |buf|
    ensures r.Some? ==> r.value.1 == offset + PointerSize(size)
  {
    var width := PointerSize(size);
    if offset + width > |buf| then None
    else
      var prefix := if width == 4 then 0 else size % 8;
      var base := if width == 2 then POINTER_BASE2 else if width == 3 then POINTER_BASE3 else 0;
      Some((UintFromBytes(prefix, buf[offset..offset + width]) + base, offset + width))
  }

  function UintFromBytes(prefix: nat, bytes: seq<byte>): nat {
    if bytes == [] then prefix else UintFromBytes(prefix, bytes[..|bytes| - 1]) * 0x100 + At(bytes, |bytes| - 1)
  }

  // ---- Where values end ----

  /** One header with its own payload: where the next item starts and how many child values follow first. */
  datatype Token = Token(next: nat, children: nat)

  function Children(kind: nat, size: nat): nat {
    if kind == KIND_MAP then 2 * size else if kind == KIND_SLICE then size else 0
  }

  predicate IsContainer(kind: nat) {
    kind == KIND_MAP || kind == KIND_SLICE
  }

  /** The token the plain skip sees: unknown kinds are skipped by size. */
  function PlainToken(buf: seq<byte>, offset: nat): (r: Option<Token>)
    ensures r.Some? ==> offset < r.value.next <= |buf|
  {
    match DecodeCtrl(buf, offset)
    case None => None
    case Some(Ctrl(kind, size, data)) =>
      if IsContainer(kind) then Some(Token(data, Children(kind, size)))
      else if kind == KIND_BOOL then Some(Token(data, 0))
      else
        var length := if kind == KIND_POINTER then PointerSize(size) else size;
        if HasBufferRange(|buf|, data, length) then Some(Token(data + length, 0)) else None
  }

  /** End of a scalar whose size is valid for its kind; None for bad sizes, short buffers and unknown kinds. */
  function ScalarEnd(buf: seq<byte>, kind: nat, size: nat, data: nat): (r: Option<nat>)
    ensures r.Some? ==> data <= r.value && (data <= |buf| ==> r.value <= |buf|)
  {
    if kind == KIND_BOOL then (if size <= 1 then Some(data) else None)
    else if ScalarSizeValid(kind, size) && HasBufferRange(|buf|, data, size) then Some(data + size)
    else None
  }

  predicate ScalarSizeValid(kind: nat, size: nat) {
    || kind == KIND_STRING
    || kind == KIND_BYTES
    || (kind == KIND_FLOAT64 && size == 8)
    || (kind == KIND_FLOAT32 && size == 4)
    || ((kind == KIND_INT32 || kind == KIND_UINT32) && size <= 4)
    || (kind == KIND_UINT16 && size <= 2)
    || (kind == KIND_UINT64 && size <= 8)
    || (kind == KIND_UINT128 && size <= 16)
  }

  /** The token seen by the walkers that also check scalar sizes and reject unknown kinds. */
  function StrictToken(buf: seq<byte>, offset: nat): (r: Option<Token>)
    ensures r.Some? ==> r == PlainToken(buf, offset)
  {
    match DecodeCtrl(buf, offset)
    case None => None
    case Some(Ctrl(kind, size, data)) =>
      if IsContainer(kind) then Some(Token(data, Children(kind, size)))
      else if kind == KIND_POINTER then
        if HasBufferRange(|buf|, data, PointerSize(size)) then Some(Token(data + PointerSize(size), 0)) else None
      else match ScalarEnd(buf, kind, size, data)
           case None => None
           case Some(end) => Some(Token(end, 0))
  }

  /** The grammar: offset after `n` consecutive values, without following pointers. */
  function SkipN(buf: seq<byte>, offset: nat, n: nat): (r: Option<nat>)
    ensures r.Some? ==> offset + n <= r.value
    ensures r.Some? && n > 0 ==> r.value <= |buf|
    decreases |buf| - offset, n
  {
    if n == 0 then Some(offset)
    else match PlainToken(buf, offset)
         case None => None
         case Some(Token(next, children)) =>
           match SkipN(buf, next, children)
           case None => None
           case Some(end) => SkipN(buf, end, n - 1)
  }

  function Skip(buf: seq<byte>, offset: nat): Option<nat> {
    SkipN(buf, offset, 1)
  }

  /** Skips compose: skipping `a + b` values is skipping `a` and then `b`. */
  lemma {:induction false} SkipComposes(buf: seq<byte>, offset: nat, a: nat, b: nat)
    ensures SkipN(buf, offset, a + b)
            == match SkipN(buf, offset, a) { case None => None case Some(mid) => SkipN(buf, mid, b) }
    decreases |buf| - offset, a
  {
    hide PlainToken;
    if a > 0 {
      match PlainToken(buf, offset)
      case None =>
      case Some(Token(next, children)) =>
        match SkipN(buf, next, children)
        case None =>
        case Some(end) => SkipComposes(buf, end, a - 1, b);
    }
  }

  lemma SkipToken(buf: seq<byte>, offset: nat, n: nat)
    requires n > 0
    ensures SkipN(buf, offset, n)
            == match PlainToken(buf, offset) { case None => None case Some(t) => SkipN(buf, t.next, t.children + n - 1) }
  {
    hide PlainToken;
    match PlainToken(buf, offset)
    case None =>
    case Some(t) => SkipComposes(buf, t.next, t.children, n - 1);
  }

  lemma SkipZero(buf: seq<byte>, offset: nat)
    ensures SkipN(buf, offset, 0) == Some(offset)
  {
  }

  /**
   * The single-counter skip loop. It succeeds exactly when the grammar does, with the same offset: the counter
   * can grow at every container, but the offset grows too, and the overflow guards never reject a parsable buffer.
   */
  method NextValueOffset(buf: seq<byte>, start: nat, count: nat) returns (r: Option<nat>)
    requires |buf| <= MAX_LEN && count <= MAX_UINT
    ensures r == SkipN(buf, start, count)
  {
    hide DecodeCtrl, SkipN;
    var offset: nat, numberToSkip: nat := start, count;
    while numberToSkip > 0
      invariant numberToSkip <= MAX_UINT
      invariant SkipN(buf, offset, numberToSkip) == SkipN(buf, start, count)
      decreases |buf| - offset, numberToSkip
    {
      SkipToken(buf, offset, numberToSkip);
      var ctrl := DecodeCtrl(buf, offset);
      if ctrl.None? { return None; }
      var Ctrl(kind, size, newOffset) := ctrl.value;
      if kind == KIND_POINTER {
        if newOffset + PointerSize(size) > |buf| { return None; }
        newOffset := newOffset + PointerSize(size);
      } else if kind == KIND_MAP {
        if size > (MAX_UINT - numberToSkip) / 2 { return None; }
        numberToSkip := numberToSkip + 2 * size;
      } else if kind == KIND_SLICE {
        if size > MAX_UINT - numberToSkip { return None; }
        numberToSkip := numberToSkip + size;
      } else if kind == KIND_BOOL {
      } else {
        if !HasBufferRange(|buf|, newOffset, size) { return None; }
        newOffset := newOffset + size;
      }
      offset := newOffset;
      numberToSkip := numberToSkip - 1;
    }
    SkipZero(buf, offset);
    return Some(offset);
  }

  // ---- Pointer resolution and strings ----

  /** Header after following at most one pointer; `pointerEnd` is 0 when none was followed. */
  datatype Resolved = Resolved(kind: nat, size: nat, data: nat, pointerEnd: nat)

  function ResolveCtrl(buf: seq<byte>, offset: nat): (r: Option<Resolved>)
    ensures r.Some? ==> r.value.kind != KIND_POINTER && 0 < r.value.data <= |buf| && r.value.size <= MAX_VALUE_SIZE
    ensures r.Some? && r.value.pointerEnd != 0 ==>
              r.value.pointerEnd <= |buf| && Skip(buf, offset) == Some(r.value.pointerEnd)
    ensures r.Some? && r.value.pointerEnd == 0 ==>
              DecodeCtrl(buf, offset) == Some(Ctrl(r.value.kind, r.value.size, r.value.data))
  {
    match DecodeCtrl(buf, offset)
    case None => None
    case Some(Ctrl(kind, size, data)) =>
      if kind != KIND_POINTER then Some(Resolved(kind, size, data, 0)) else
      match DecodePointer(buf, size, data)
      case None => None
      case Some((target, end)) =>
        match DecodeCtrl(buf, target)
        case None => None
        case Some(Ctrl(kind', size', data')) =>
          if kind' == KIND_POINTER then None else
          assert Skip(buf, offset) == SkipN(buf, end, 0);
          Some(Resolved(kind', size', data', end))
  }

  /** Payload, control-record offset used as cache key, and the end of the value in its own stream. */
  datatype StringAt = StringAt(bytes: seq<byte>, cacheOffset: nat, next: nat)

  function HeaderSize(size: nat): nat {
    if size < 29 then 1 else if size < 285 then 2 else if size < 65_821 then 3 else 4
  }

  /** Resolve-then-decode: the reference for every string and key reader. */
  function ResolveString(buf: seq<byte>, offset: nat): Option<StringAt> {
    match ResolveCtrl(buf, offset)
    case None => None
    case Some(Resolved(kind, size, data, pointerEnd)) =>
      if kind != KIND_STRING || data + size > |buf| || data < HeaderSize(size) then None
      else Some(StringAt(buf[data..data + size], data - HeaderSize(size),
                         if pointerEnd != 0 then pointerEnd else data + size))
  }

  /** A resolved string ends where the plain skip says the value ends. */
  lemma StringEndsAtSkip(buf: seq<byte>, offset: nat)
    requires ResolveString(buf, offset).Some?
    ensures Skip(buf, offset) == Some(ResolveString(buf, offset).value.next)
  {
    var Resolved(kind, size, data, pointerEnd) := ResolveCtrl(buf, offset).value;
    if pointerEnd == 0 {
      assert PlainToken(buf, offset) == Some(Token(data + size, 0));
      assert Skip(buf, offset) == SkipN(buf, data + size, 0);
    }
  }
}
