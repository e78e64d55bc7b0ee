/** The inlined string and map-key readers, and that they agree with resolve-then-decode (data_decoder.go). */
module StringPaths {
  import opened Core
  import opened Format

  /** Pointer value as the fast paths compute it, by width. */
  function InlinePointer(buf: seq<byte>, size: nat, payload: nat): nat
    requires payload + PointerSize(size) <= |buf|
  {
    var width := PointerSize(size);
    if width == 1 then size % 8 * 0x100 + At(buf, payload)
    else if width == 2 then size % 8 * 0x1_0000 + At(buf, payload) * 0x100 + At(buf, payload + 1) + POINTER_BASE2
    else if width == 3 then size % 8 * 0x100_0000 + Load24(buf, payload) + POINTER_BASE3
    else Load32(buf, payload)
  }

  lemma InlinePointerIsDecoded(buf: seq<byte>, size: nat, payload: nat)
    requires payload + PointerSize(size) <= |buf|
    ensures DecodePointer(buf, size, payload) == Some((InlinePointer(buf, size, payload), payload + PointerSize(size)))
  {
    hide PointerSize, UintFromBytes;
    var width := PointerSize(size);
    var prefix := if width == 4 then 0 else size % 8;
    UintNone(prefix);
    UintStep(prefix, buf, payload, 0);
    if width >= 2 { UintStep(prefix, buf, payload, 1); }
    if width >= 3 { UintStep(prefix, buf, payload, 2); }
    if width >= 4 { UintStep(prefix, buf, payload, 3); }
    assert buf[payload..payload] == [];
  }

  lemma UintNone(prefix: nat)
    ensures UintFromBytes(prefix, []) == prefix
  {
  }

  lemma UintStep(prefix: nat, buf: seq<byte>, start: nat, n: nat)
    requires start + n < |buf|
    ensures UintFromBytes(prefix, buf[start..start + n + 1])
            == UintFromBytes(prefix, buf[start..start + n]) * 0x100 + At(buf, start + n)
  {
    assert buf[start..start + n + 1][..n] == buf[start..start + n];
  }

  /** A one-byte string header at `pointer` whose payload fits, read in place. */
  function CompactString(buf: seq<byte>, pointer: nat, next: nat): Option<StringAt> {
    if pointer >= |buf| then None else
    var ctrlByte := At(buf, pointer);
    var size := ctrlByte % 32;
    if ctrlByte / 32 == KIND_STRING && size < 29 && pointer + 1 + size <= |buf|
    then Some(StringAt(buf[pointer + 1..pointer + 1 + size], pointer, next))
    else None
  }

  /** decodePointerKeyFast: a pointer of any width to a compact string; None means "use the slow path". */
  function PointerKeyFast(buf: seq<byte>, offset: nat, ctrlByte: nat): Option<StringAt> {
    var size := ctrlByte % 32;
    var newOffset := offset + 1 + PointerSize(size);
    if newOffset > |buf| then None
    else CompactString(buf, InlinePointer(buf, size, offset + 1), newOffset)
  }

  /** decodeKeyAt, with its two fast shapes before the slow path. */
  function DecodeKeyAt(buf: seq<byte>, offset: nat): Option<StringAt> {
    if offset >= |buf| then None else
    var ctrlByte := At(buf, offset);
    var kind, size := ctrlByte / 32, ctrlByte % 32;
    if kind == KIND_STRING && size < 29 then
      if offset + 1 + size > |buf| then None
      else Some(StringAt(buf[offset + 1..offset + 1 + size], offset, offset + 1 + size))
    else if kind == KIND_POINTER then
      var compact := if size < 8 && offset + 2 <= |buf|
                     then CompactString(buf, size % 8 * 0x100 + At(buf, offset + 1), offset + 2)
                     else None;
      if compact.Some? then compact else
      var fast := PointerKeyFast(buf, offset, ctrlByte);
      if fast.Some? then fast else ResolveString(buf, offset)
    else ResolveString(buf, offset)
  }

  /** decodeStringValue, whose inlined branches ReadStringMaxSize repeats. */
  function DecodeStringValue(buf: seq<byte>, offset: nat): Option<StringAt> {
    if offset >= |buf| then ResolveString(buf, offset) else
    var ctrlByte := At(buf, offset);
    var kind, size := ctrlByte / 32, ctrlByte % 32;
    var fast :=
      if kind == KIND_STRING then CompactString(buf, offset, offset + 1 + size)
      else if kind == KIND_POINTER && offset + 1 + PointerSize(size) <= |buf| then
        CompactString(buf, InlinePointer(buf, size, offset + 1), offset + 1 + PointerSize(size))
      else None;
    if fast.Some? then fast else ResolveString(buf, offset)
  }

  /** Reading a compact string through a pointer gives what resolving the pointer gives. */
  lemma PointedCompact(buf: seq<byte>, offset: nat)
    requires offset < |buf| && At(buf, offset) / 32 == KIND_POINTER
    ensures var size := At(buf, offset) % 32;
            offset + 1 + PointerSize(size) <= |buf| ==>
              var s := CompactString(buf, InlinePointer(buf, size, offset + 1), offset + 1 + PointerSize(size));
              s.Some? ==> ResolveString(buf, offset) == s
  {
    hide InlinePointer, UintFromBytes;
    var size := At(buf, offset) % 32;
    if offset + 1 + PointerSize(size) <= |buf| {
      InlinePointerIsDecoded(buf, size, offset + 1);
      assert DecodeCtrl(buf, offset) == Some(Ctrl(KIND_POINTER, size, offset + 1));
      var target := InlinePointer(buf, size, offset + 1);
      var s := CompactString(buf, target, offset + 1 + PointerSize(size));
      if s.Some? {
        assert DecodeCtrl(buf, target) == Some(Ctrl(KIND_STRING, At(buf, target) % 32, target + 1));
      }
    }
  }

  /** The key reader is resolve-then-decode on every buffer and offset. */
  lemma KeyReaderAgrees(buf: seq<byte>, offset: nat)
    ensures DecodeKeyAt(buf, offset) == ResolveString(buf, offset)
  {
    hide CompactString, ResolveString, UintFromBytes;
    if offset < |buf| {
      var kind, size := At(buf, offset) / 32, At(buf, offset) % 32;
      if kind == KIND_POINTER {
        PointedCompact(buf, offset);
      } else if kind == KIND_STRING && size < 29 {
        DirectCompact(buf, offset);
      }
    } else {
      PastTheEnd(buf, offset);
    }
  }

  lemma DirectCompact(buf: seq<byte>, offset: nat)
    requires offset < |buf| && At(buf, offset) / 32 == KIND_STRING
    ensures var size := At(buf, offset) % 32;
            size < 29 ==>
              ResolveString(buf, offset)
              == (if offset + 1 + size > |buf| then None
                  else Some(StringAt(buf[offset + 1..offset + 1 + size], offset, offset + 1 + size)))
  {
    var size := At(buf, offset) % 32;
    if size < 29 {
      assert DecodeCtrl(buf, offset) == Some(Ctrl(KIND_STRING, size, offset + 1));
    }
  }

  lemma PastTheEnd(buf: seq<byte>, offset: nat)
    requires offset >= |buf|
    ensures ResolveString(buf, offset) == None
  {
  }

  /** The string reader is resolve-then-decode on every buffer and offset. */
  lemma StringReaderAgrees(buf: seq<byte>, offset: nat)
    ensures DecodeStringValue(buf, offset) == ResolveString(buf, offset)
  {
    hide ResolveString, UintFromBytes, InlinePointer;
    if offset < |buf| {
      var kind := At(buf, offset) / 32;
      if kind == KIND_POINTER {
        PointedCompact(buf, offset);
      } else if kind == KIND_STRING {
        DirectCompact(buf, offset);
      }
    }
  }
}
