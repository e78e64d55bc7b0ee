/** What cursor reads return: the values and entries that decoding gives (cursor.go). */
module CursorLaws {
  import opened Core
  import opened Format
  import opened Values
  import opened Grammar
  import opened StringPaths
  import opened Decoder
  import opened PathDecoder
  import opened Cursors

  // ---- Typed reads ----

  predicate NoContainers(kinds: set<nat>) {
    KIND_MAP !in kinds && KIND_SLICE !in kinds
  }

  /** Kind of the value at `offset`, behind at most one pointer. */
  predicate KindIn(buf: seq<byte>, offset: nat, kinds: set<nat>) {
    ResolveCtrl(buf, offset).Some? && ResolveCtrl(buf, offset).value.kind in kinds
  }

  function AsRead(p: Option<Parsed>): Option<(Value, nat)> {
    match p
    case None => None
    case Some(parsed) => Some((parsed.value, parsed.next))
  }

  /** Resolve-then-decode of scalar kinds gives the decoded value and its end, and fails where decoding fails. */
  lemma ScalarReadIsParse(buf: seq<byte>, offset: nat, kinds: set<nat>)
    requires NoContainers(kinds)
    ensures ReadOneOf(buf, offset, kinds)
            == if KindIn(buf, offset, kinds) then AsRead(Parse(buf, offset, 0, false)) else None
  {
    hide DecodeCtrl, ScalarEnd, ScalarValue, ParseContents;
    if KindIn(buf, offset, kinds) {
      var ctrl := DecodeCtrl(buf, offset).value;
      if ctrl.kind == KIND_POINTER {
        var target := DecodePointer(buf, ctrl.size, ctrl.data).value.0;
        assert Parse(buf, target, 1, false).Some? <==> Parse(buf, offset, 0, false).Some?;
      }
    }
  }

  /** The scalar constructors stand for the kinds. */
  predicate HasKind(v: Value, kind: nat) {
    && (v.Bool? <==> kind == KIND_BOOL)
    && (v.String? <==> kind == KIND_STRING)
    && (v.Blob? <==> kind == KIND_BYTES)
    && (v.Float64? <==> kind == KIND_FLOAT64)
    && (v.Float32? <==> kind == KIND_FLOAT32)
    && (v.Int32? <==> kind == KIND_INT32)
    && (v.Uint? <==> kind in UINT_KINDS)
    && (v.Uint128? <==> kind == KIND_UINT128)
  }

  /** A value decodes to the constructor of its kind. */
  lemma ScalarShape(kind: nat, size: nat, bytes: seq<byte>)
    requires ScalarSizeValid(kind, size) || kind == KIND_BOOL
    ensures HasKind(ScalarValue(kind, size, bytes), kind)
  {
  }

  /** The kind behind the header fixes the constructor of what is decoded there. */
  lemma ParsedShape(buf: seq<byte>, offset: nat)
    requires Parse(buf, offset, 0, false).Some?
    ensures ResolveCtrl(buf, offset).Some?
    ensures HasKind(Parse(buf, offset, 0, false).value.value, ResolveCtrl(buf, offset).value.kind)
  {
    hide DecodeCtrl, ScalarValue, ParseContents;
    var Ctrl(kind, size, data) := DecodeCtrl(buf, offset).value;
    if kind == KIND_POINTER {
      var target := DecodePointer(buf, size, data).value.0;
      assert Parse(buf, target, 1, false).Some?;
      ShapeAt(buf, target, 1);
    } else {
      ShapeAt(buf, offset, 0);
    }
  }

  lemma ShapeAt(buf: seq<byte>, offset: nat, depth: nat)
    requires Parse(buf, offset, depth, false).Some? && !IsPointerAt(buf, offset)
    ensures DecodeCtrl(buf, offset).Some?
    ensures HasKind(Parse(buf, offset, depth, false).value.value, DecodeCtrl(buf, offset).value.kind)
  {
    hide DecodeCtrl, ScalarValue, ParseContents;
    var Ctrl(kind, size, data) := DecodeCtrl(buf, offset).value;
    if !IsContainer(kind) {
      var end := ScalarEnd(buf, kind, size, data).value;
      ScalarShape(kind, size, if kind == KIND_BOOL then [] else buf[data..end]);
    }
  }

  /** A read that succeeds exactly on the decoded values with some shape, with that value and its end. */
  ghost predicate ReadsWhen(p: Option<Parsed>, r: Option<(Value, nat)>, shape: bool) {
    r == if p.Some? && shape then AsRead(p) else None
  }

  /**
   * Every typed read returns the value that decoding gives there and the end of that value, and succeeds exactly when
   * the value decodes and has the type asked for. A direct read, an inline branch and a pointer make no difference.
   */
  lemma TypedReads(buf: seq<byte>, offset: nat)
    ensures var p := Parse(buf, offset, 0, false);
            && ReadsWhen(p, ReadScalar(buf, offset, KIND_BOOL), p.Some? && p.value.value.Bool?)
            && ReadsWhen(p, ReadScalar(buf, offset, KIND_BYTES), p.Some? && p.value.value.Blob?)
            && ReadsWhen(p, ReadScalar(buf, offset, KIND_FLOAT32), p.Some? && p.value.value.Float32?)
            && ReadsWhen(p, ReadScalar(buf, offset, KIND_FLOAT64), p.Some? && p.value.value.Float64?)
            && ReadsWhen(p, ReadScalar(buf, offset, KIND_INT32), p.Some? && p.value.value.Int32?)
            && ReadsWhen(p, ReadScalar(buf, offset, KIND_UINT128), p.Some? && p.value.value.Uint128?)
            && ReadsWhen(p, ReadOneOf(buf, offset, UINT_KINDS), p.Some? && p.value.value.Uint?)
            && ReadsWhen(p, ReadInteger(buf, offset), p.Some? && (p.value.value.Uint? || p.value.value.Int32?))
            && ReadsWhen(p, ReadFloat(buf, offset), p.Some? && (p.value.value.Float32? || p.value.value.Float64?))
  {
    hide ReadScalar, ReadOneOf, ReadInteger, ReadFloat, Parse, ResolveCtrl;
    InlineReadsAgree(buf, offset);
    forall kind | IsScalarKind(kind)
      ensures ReadScalar(buf, offset, kind)
              == if KindIn(buf, offset, {kind}) then AsRead(Parse(buf, offset, 0, false)) else None
    {
      ScalarReadIsParse(buf, offset, {kind});
    }
    ScalarReadIsParse(buf, offset, UINT_KINDS);
    ScalarReadIsParse(buf, offset, INTEGER_KINDS);
    ScalarReadIsParse(buf, offset, FLOAT_KINDS);
    if Parse(buf, offset, 0, false).Some? {
      ParsedShape(buf, offset);
    }
  }

  /** A string read gives the decoded string, and refuses exactly the longer ones. Map keys are read the same way. */
  lemma StringReads(buf: seq<byte>, offset: nat, maximum: nat)
    ensures var p := Parse(buf, offset, 0, false);
            ReadsWhen(p, ReadStringMaxSize(buf, offset, maximum),
                      p.Some? && p.value.value.String? && |p.value.value.text| <= maximum)
    ensures var p, k := Parse(buf, offset, 0, false), DecodeKeyAt(buf, offset);
            && (k.Some? <==> p.Some? && p.value.value.String?)
            && (k.Some? ==> p.value == Parsed(String(k.value.bytes), k.value.next))
  {
    hide Parse, ResolveString, DecodeStringValue, DecodeKeyAt;
    StringReaderAgrees(buf, offset);
    KeyReaderAgrees(buf, offset);
    ResolvedString(buf, offset);
  }

  lemma ResolvedString(buf: seq<byte>, offset: nat)
    ensures var p, s := Parse(buf, offset, 0, false), ResolveString(buf, offset);
            && (s.Some? <==> p.Some? && p.value.value.String?)
            && (s.Some? ==> p.value == Parsed(String(s.value.bytes), s.value.next))
  {
    hide DecodeCtrl, ParseContents, ScalarValue;
    if Parse(buf, offset, 0, false).Some? {
      ParsedShape(buf, offset);
    }
    var ctrl := DecodeCtrl(buf, offset);
    if ctrl.Some? {
      HeaderFits(buf, offset);
      if ctrl.value.kind == KIND_POINTER {
        var pointer := DecodePointer(buf, ctrl.value.size, ctrl.value.data);
        if pointer.Some? {
          HeaderFits(buf, pointer.value.0);
          DirectString(buf, pointer.value.0, 1);
        }
      } else {
        DirectString(buf, offset, 0);
      }
    }
  }

  lemma DirectString(buf: seq<byte>, offset: nat, depth: nat)
    requires depth <= MAX_DEPTH
    ensures var ctrl := DecodeCtrl(buf, offset);
            ctrl.Some? && ctrl.value.kind == KIND_STRING ==>
              var Ctrl(_, size, data) := ctrl.value;
              Parse(buf, offset, depth, false)
              == if data + size <= |buf| then Some(Parsed(String(buf[data..data + size]), data + size)) else None
  {
    hide DecodeCtrl, ParseContents;
  }

  // ---- Whole containers ----

  type Item = (seq<byte>, Cursor)

  /** The client loop: Next with the successor of the value just read, until Next yields nothing. */
  function Drain(inputs: Inputs, m: Open, successor: Cursor): (seq<Item>, Open)
    decreases 2 * m.remaining + if m.pending then 0 else 1
  {
    var (n, r) := NextEntry(inputs, m, successor);
    if r.None? then ([], n)
    else
      var value := r.value.1;
      match Skip(inputs[value.decoder.value], value.offset)
      case None => ([r.value], n)
      case Some(next) =>
        var (rest, last) := Drain(inputs, n, Successor(value, next));
        ([r.value] + rest, last)
  }

  /** A cursor between two entries whose remaining entries decode. */
  ghost predicate Between(inputs: Inputs, m: Open, depth: nat, strict: bool) {
    && !m.failed && !m.pending && m.decoder.Some? && m.decoder.value in inputs
    && ParseContents(inputs[m.decoder.value], m.isMap, m.offset, m.remaining, depth, strict).Some?
  }

  /** The items are the entries: their keys, and cursors at which their values decode. */
  ghost predicate Gives(inputs: Inputs, items: seq<Item>, decoder: nat, es: seq<Entry>, depth: nat, strict: bool)
    requires decoder in inputs
  {
    && |items| == |es|
    && forall k :: 0 <= k < |items| ==>
         && items[k].0 == es[k].key && items[k].1.decoder == Some(decoder)
         && Parse(inputs[decoder], items[k].1.offset, depth, strict).Some?
         && Parse(inputs[decoder], items[k].1.offset, depth, strict).value.value == es[k].value
  }

  /** A pending cursor given the right successor steps like one that already stands at the next entry. */
  lemma ConsumeFirst(inputs: Inputs, m: Open, successor: Cursor)
    requires !m.failed && m.pending && m.remaining > 0
    requires successor.decoder == m.decoder && successor.originToken == m.offset + 1
    ensures Drain(inputs, m, successor)
            == Drain(inputs, m.(offset := successor.offset, remaining := m.remaining - 1, pending := false), ZERO_CURSOR)
  {
    hide Skip, DecodeKeyAt;
    var n := m.(offset := successor.offset, remaining := m.remaining - 1, pending := false);
    assert NextEntry(inputs, m, successor) == NextEntry(inputs, n, ZERO_CURSOR);
  }

  /** Next at an entry that decodes: its key and a cursor at its value. */
  lemma NextGivesEntry(inputs: Inputs, m: Open, depth: nat, strict: bool)
    requires Between(inputs, m, depth, strict) && m.remaining > 0
    ensures var buf := inputs[m.decoder.value];
            var key := ParseKey(buf, m.isMap, m.offset, depth, strict);
            && key.Some?
            && NextEntry(inputs, m, ZERO_CURSOR)
               == (m.(offset := key.value.next, pending := true), Some((key.value.bytes, Cursor(m.decoder, key.value.next, 0))))
  {
    hide ResolveString, DecodeKeyAt, ParseContents;
    var buf := inputs[m.decoder.value];
    ContentsParts(buf, m.isMap, m.offset, m.remaining, depth, strict);
    KeyReaderAgrees(buf, m.offset);
  }

  /** One turn of the client loop passes exactly one entry. */
  lemma DrainStep(inputs: Inputs, m: Open, depth: nat, strict: bool) returns (item: Item, after: Open)
    requires Between(inputs, m, depth, strict) && m.remaining > 0
    ensures Between(inputs, after, depth, strict) && after == m.(offset := after.offset, remaining := m.remaining - 1)
    ensures var (rest, last) := Drain(inputs, after, ZERO_CURSOR); Drain(inputs, m, ZERO_CURSOR) == ([item] + rest, last)
    ensures item.1.decoder == m.decoder && Parse(inputs[m.decoder.value], item.1.offset, depth, strict).Some?
    ensures var buf := inputs[m.decoder.value];
            ParseContents(buf, m.isMap, m.offset, m.remaining, depth, strict)
            == Prepend([Entry(item.0, Parse(buf, item.1.offset, depth, strict).value.value)],
                       ParseContents(buf, m.isMap, after.offset, after.remaining, depth, strict))
  {
    hide Parse, ParseKey, ParseContents, Skip, DecodeKeyAt, NextEntry;
    var buf := inputs[m.decoder.value];
    NextGivesEntry(inputs, m, depth, strict);
    ContentsParts(buf, m.isMap, m.offset, m.remaining, depth, strict);
    ContentsCons(buf, m.isMap, m.offset, m.remaining, depth, strict);
    var key := ParseKey(buf, m.isMap, m.offset, depth, strict).value;
    var p := Parse(buf, key.next, depth, strict).value;
    ParseAgrees(buf, key.next, depth, strict);
    item := (key.bytes, Cursor(m.decoder, key.next, 0));
    after := m.(offset := p.next, remaining := m.remaining - 1);
    var n := m.(offset := key.next, pending := true);
    ConsumeFirst(inputs, n, Successor(item.1, p.next));
    assert after == n.(offset := p.next, remaining := n.remaining - 1, pending := false);
  }

  /** The k-th Next gives the k-th entry, and after the last one there is nothing left. */
  lemma {:induction false} DrainGives(inputs: Inputs, m: Open, depth: nat, strict: bool)
    requires Between(inputs, m, depth, strict)
    ensures var (items, last) := Drain(inputs, m, ZERO_CURSOR);
            var c := ParseContents(inputs[m.decoder.value], m.isMap, m.offset, m.remaining, depth, strict).value;
            && Gives(inputs, items, m.decoder.value, c.entries, depth, strict)
            && last == m.(offset := c.next, remaining := 0)
    decreases m.remaining
  {
    hide Parse, ParseContents, Drain;
    if m.remaining == 0 {
      NoContents(inputs[m.decoder.value], m.isMap, m.offset, depth, strict);
      NothingLeft(inputs, m);
    } else {
      var item, after := DrainStep(inputs, m, depth, strict);
      DrainGives(inputs, after, depth, strict);
    }
  }

  lemma NothingLeft(inputs: Inputs, m: Open)
    requires !m.failed && !m.pending && m.remaining == 0
    ensures Drain(inputs, m, ZERO_CURSOR) == ([], m)
  {
  }

  /**
   * Opening a container that decodes and calling Next until it yields nothing gives exactly the entries of the decoded
   * value, in order: the k-th key, and a cursor at which the k-th value decodes. End then returns the cursor just past
   * the container. Any typed read or skip of an entry supplies the same successor, since all of them end where the
   * plain skip ends.
   */
  lemma TraversalGivesEntries(inputs: Inputs, c: Cursor)
    requires c.decoder.Some? && c.decoder.value in inputs && Decodes(inputs[c.decoder.value], c.offset)
    requires Parse(inputs[c.decoder.value], c.offset, 0, false).value.value.Container?
    ensures var p := Parse(inputs[c.decoder.value], c.offset, 0, false).value;
            var m := OpenContainer(inputs, c, p.value.isMap);
            && m.Some?
            && var (items, last) := Drain(inputs, m.value, ZERO_CURSOR);
               && Gives(inputs, items, c.decoder.value, p.value.entries, 0, false)
               && NextEntry(inputs, last, ZERO_CURSOR) == (last, None)
               && EndOf(last) == Some(Cursor(c.decoder, p.next, c.offset + 1))
  {
    hide ResolveCtrl, Parse, ParseContents, Preflighted, Slots, Payload, Drain, SkipN, NextEntry, Gives;
    var buf := inputs[c.decoder.value];
    var p := Parse(buf, c.offset, 0, false).value;
    OpenDecodable(inputs, c, p.value.isMap);
    OpenTracks(inputs, c, p.value.isMap);
    var m := OpenContainer(inputs, c, p.value.isMap).value;
    var depth, strict := ParseResolves(buf, c.offset, 0, false);
    DrainGives(inputs, m, depth, strict);
    ContentsAgree(buf, m.isMap, m.offset, m.remaining, depth, strict);
    var (items, last) := Drain(inputs, m, ZERO_CURSOR);
    GivesAtTop(inputs, items, c.decoder.value, p.value.entries, depth, strict);
    EndIsProven(inputs, last);
    ParseAgrees(buf, c.offset, 0, false);
    LastNext(inputs, last);
  }

  lemma LastNext(inputs: Inputs, m: Open)
    requires !m.failed && !m.pending && m.remaining == 0
    ensures NextEntry(inputs, m, ZERO_CURSOR) == (m, None)
  {
  }

  lemma GivesAtTop(inputs: Inputs, items: seq<Item>, decoder: nat, es: seq<Entry>, depth: nat, strict: bool)
    requires decoder in inputs && Gives(inputs, items, decoder, es, depth, strict)
    ensures Gives(inputs, items, decoder, es, 0, false)
  {
    hide Parse;
    forall k | 0 <= k < |items|
      ensures Parse(inputs[decoder], items[k].1.offset, 0, false) == Parse(inputs[decoder], items[k].1.offset, depth, strict)
    {
      ParseMonotone(inputs[decoder], items[k].1.offset, depth, strict, 0, false);
    }
  }

  /** The size of a large container is real before anyone allocates for it: so many values do follow its header. */
  lemma LargeSizeIsReal(inputs: Inputs, m: Open)
    requires Tracks(inputs, m) && m.decoder.Some? && !m.isMap && SizeOf(inputs, m).1.Some? && m.size >= PREFLIGHT_COUNT
    ensures SkipN(inputs[m.decoder.value], m.dataOffset, m.size).Some?
  {
    hide ResolveCtrl, SkipN, CheckEntries;
    EntriesAgree(inputs[m.decoder.value], false, m.dataOffset, m.size, 0);
  }

  lemma LargeMapIsReal(inputs: Inputs, c: Cursor)
    requires OpenContainer(inputs, c, true).Some? && 2 * OpenContainer(inputs, c, true).value.size >= PREFLIGHT_COUNT
    ensures var m := OpenContainer(inputs, c, true).value; SkipN(inputs[c.decoder.value], m.dataOffset, 2 * m.size).Some?
  {
    hide ResolveCtrl, SkipN, CheckEntries;
    var m := OpenContainer(inputs, c, true).value;
    EntriesAgree(inputs[c.decoder.value], true, m.dataOffset, m.size, 0);
  }
}
