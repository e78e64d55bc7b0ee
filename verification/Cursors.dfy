/** The cursor API's proven-successor protocol over any sequence of client calls (cursor.go). */
module Cursors {
  import opened Core
  import opened Format
  import opened Values
  import opened Grammar
  import opened Validator
  import opened StringPaths
  import opened Decoder
  import opened PathDecoder

  /** A position in the input of one decoder. Token t + 1 claims: this is the successor of the value at t. */
  datatype Cursor = Cursor(decoder: Option<nat>, offset: nat, originToken: nat)

  const ZERO_CURSOR := Cursor(None, 0, 0)

  /** The immutable input of every decoder, by identity. */
  type Inputs = map<nat, seq<byte>>

  /** The claim of the origin token holds. */
  predicate Proven(inputs: Inputs, c: Cursor) {
    && (c.decoder.Some? ==> c.decoder.value in inputs)
    && (c.originToken != 0 ==>
          c.decoder.Some? && Skip(inputs[c.decoder.value], c.originToken - 1) == Some(c.offset))
  }

  function Successor(c: Cursor, next: nat): Cursor {
    Cursor(c.decoder, next, c.offset + 1)
  }

  // ---- Reads ----

  /** The header lookup shared by the typed readers: size, payload offset and end of the value in its stream. */
  function Scalar(buf: seq<byte>, offset: nat, expected: nat): Option<(nat, nat, nat)> {
    var fast :=
      if offset < |buf| && At(buf, offset) % 32 < 29 then
        var size := At(buf, offset) % 32;
        var extended := At(buf, offset) / 32 == KIND_EXTENDED && offset + 1 < |buf|;
        var kind := if extended then (At(buf, offset + 1) + 7) % 256 else At(buf, offset) / 32;
        var data := if extended then offset + 2 else offset + 1;
        if kind == expected then Some((size, data, if kind == KIND_BOOL then data else data + size)) else None
      else None;
    if fast.Some? then fast
    else match ResolveCtrl(buf, offset)
         case None => None
         case Some(Resolved(kind, size, data, pointerEnd)) =>
           if kind != expected then None
           else Some((size, data, if pointerEnd != 0 then pointerEnd else if kind == KIND_BOOL then data else data + size))
  }

  predicate IsScalarKind(kind: nat) {
    || kind == KIND_BOOL
    || kind == KIND_BYTES
    || kind == KIND_FLOAT32
    || kind == KIND_FLOAT64
    || kind == KIND_INT32
    || kind == KIND_UINT128
  }

  /** ReadBool, ReadBytes, ReadFloat32, ReadFloat64, ReadInt32 and ReadUint128. */
  function ReadScalar(buf: seq<byte>, offset: nat, expected: nat): Option<(Value, nat)>
    requires IsScalarKind(expected)
  {
    match Scalar(buf, offset, expected)
    case None => None
    case Some((size, data, next)) => Payloaded(buf, expected, size, data, next)
  }

  function Payloaded(buf: seq<byte>, kind: nat, size: nat, data: nat, next: nat): Option<(Value, nat)> {
    match ScalarEnd(buf, kind, size, data)
    case None => None
    case Some(end) => Some((ScalarValue(kind, size, if kind == KIND_BOOL then [] else buf[data..end]), next))
  }

  /** Resolve-then-decode for a reader that accepts several scalar kinds. */
  function ReadOneOf(buf: seq<byte>, offset: nat, kinds: set<nat>): Option<(Value, nat)> {
    match ResolveCtrl(buf, offset)
    case None => None
    case Some(Resolved(kind, size, data, pointerEnd)) =>
      if kind !in kinds then None
      else match ScalarEnd(buf, kind, size, data)
           case None => None
           case Some(end) => Payloaded(buf, kind, size, data, if pointerEnd != 0 then pointerEnd else end)
  }

  const UINT_KINDS := {KIND_UINT16, KIND_UINT32, KIND_UINT64}
  const INTEGER_KINDS := {KIND_UINT16, KIND_UINT32, KIND_UINT64, KIND_INT32}
  const FLOAT_KINDS := {KIND_FLOAT64, KIND_FLOAT32}

  /** ReadInteger, with its inline branch for direct 16- and 32-bit integers. */
  function ReadInteger(buf: seq<byte>, offset: nat): Option<(Value, nat)> {
    if offset < |buf| && At(buf, offset) % 32 < 29
       && (At(buf, offset) / 32 == KIND_UINT16 || At(buf, offset) / 32 == KIND_UINT32) then
      var kind, size := At(buf, offset) / 32, At(buf, offset) % 32;
      Payloaded(buf, kind, size, offset + 1, offset + 1 + size)
    else ReadOneOf(buf, offset, INTEGER_KINDS)
  }

  /** ReadFloat, with its inline branches for both direct encodings. */
  function ReadFloat(buf: seq<byte>, offset: nat): Option<(Value, nat)> {
    if offset < |buf| && At(buf, offset) % 32 < 29 && At(buf, offset) / 32 == KIND_FLOAT64 then
      Payloaded(buf, KIND_FLOAT64, At(buf, offset) % 32, offset + 1, offset + 1 + At(buf, offset) % 32)
    else if offset + 1 < |buf| && At(buf, offset) % 32 < 29 && At(buf, offset) / 32 == KIND_EXTENDED
            && (At(buf, offset + 1) + 7) % 256 == KIND_FLOAT32 then
      Payloaded(buf, KIND_FLOAT32, At(buf, offset) % 32, offset + 2, offset + 2 + At(buf, offset) % 32)
    else ReadOneOf(buf, offset, FLOAT_KINDS)
  }

  /** ReadStringMaxSize; ReadString passes the largest size. A smaller maximum only refuses more strings. */
  function ReadStringMaxSize(buf: seq<byte>, offset: nat, maximum: nat): Option<(Value, nat)> {
    match DecodeStringValue(buf, offset)
    case None => None
    case Some(s) => if |s.bytes| > maximum then None else Some((String(s.bytes), s.next))
  }

  lemma InlineIntegerAgrees(buf: seq<byte>, offset: nat)
    ensures ReadInteger(buf, offset) == ReadOneOf(buf, offset, INTEGER_KINDS)
  {
    hide DecodeCtrl, ScalarValue;
    DirectHeader(buf, offset);
  }

  lemma InlineFloatAgrees(buf: seq<byte>, offset: nat)
    ensures ReadFloat(buf, offset) == ReadOneOf(buf, offset, FLOAT_KINDS)
  {
    hide DecodeCtrl, ScalarValue;
    DirectHeader(buf, offset);
  }

  lemma InlineScalarAgrees(buf: seq<byte>, offset: nat, kind: nat)
    requires IsScalarKind(kind)
    ensures ReadScalar(buf, offset, kind) == ReadOneOf(buf, offset, {kind})
  {
    hide DecodeCtrl, ScalarValue;
    DirectHeader(buf, offset);
  }

  /** The inline branches of the typed readers change neither the value nor the successor. */
  lemma InlineReadsAgree(buf: seq<byte>, offset: nat)
    ensures ReadInteger(buf, offset) == ReadOneOf(buf, offset, INTEGER_KINDS)
    ensures ReadFloat(buf, offset) == ReadOneOf(buf, offset, FLOAT_KINDS)
    ensures forall kind :: IsScalarKind(kind) ==> ReadScalar(buf, offset, kind) == ReadOneOf(buf, offset, {kind})
  {
    hide ReadInteger, ReadFloat, ReadScalar, ReadOneOf;
    InlineIntegerAgrees(buf, offset);
    InlineFloatAgrees(buf, offset);
    forall kind | IsScalarKind(kind)
      ensures ReadScalar(buf, offset, kind) == ReadOneOf(buf, offset, {kind})
    {
      InlineScalarAgrees(buf, offset, kind);
    }
  }

  /** A header of at most two bytes, read inline, is what the general parser reads. */
  lemma DirectHeader(buf: seq<byte>, offset: nat)
    ensures offset < |buf| && At(buf, offset) % 32 < 29 && At(buf, offset) / 32 != KIND_EXTENDED ==>
              DecodeCtrl(buf, offset) == Some(Ctrl(At(buf, offset) / 32, At(buf, offset) % 32, offset + 1))
    ensures offset + 1 < |buf| && At(buf, offset) % 32 < 29 && At(buf, offset) / 32 == KIND_EXTENDED ==>
              DecodeCtrl(buf, offset) == Some(Ctrl((At(buf, offset + 1) + 7) % 256, At(buf, offset) % 32, offset + 2))
  {
  }

  /** A typed read that succeeds ends where the plain skip of the value ends. */
  lemma ReadEndsAtSkip(buf: seq<byte>, offset: nat, kinds: set<nat>)
    requires ReadOneOf(buf, offset, kinds).Some? && KIND_POINTER !in kinds && KIND_MAP !in kinds && KIND_SLICE !in kinds
    ensures Skip(buf, offset) == Some(ReadOneOf(buf, offset, kinds).value.1)
  {
    hide DecodeCtrl, ScalarValue;
    SkipToken(buf, offset, 1);
  }

  /** Some successful read of the API gives `next` as the end of the value at `offset`. */
  predicate Reads(buf: seq<byte>, offset: nat, next: nat) {
    || Skip(buf, offset) == Some(next)
    || (exists kind | kind in {KIND_BOOL, KIND_BYTES, KIND_FLOAT32, KIND_FLOAT64, KIND_INT32, KIND_UINT128} ::
          ReadScalar(buf, offset, kind).Some? && ReadScalar(buf, offset, kind).value.1 == next)
    || (ReadOneOf(buf, offset, UINT_KINDS).Some? && ReadOneOf(buf, offset, UINT_KINDS).value.1 == next)
    || (ReadInteger(buf, offset).Some? && ReadInteger(buf, offset).value.1 == next)
    || (ReadFloat(buf, offset).Some? && ReadFloat(buf, offset).value.1 == next)
    || (ReadStringMaxSize(buf, offset, MAX_VALUE_SIZE).Some?
        && ReadStringMaxSize(buf, offset, MAX_VALUE_SIZE).value.1 == next)
  }

  lemma ReadsEndAtSkip(buf: seq<byte>, offset: nat, next: nat)
    requires Reads(buf, offset, next)
    ensures Skip(buf, offset) == Some(next)
  {
    hide DecodeCtrl, ReadInteger, ReadFloat, ReadOneOf, ReadScalar, Skip, DecodeStringValue, ResolveString;
    InlineReadsAgree(buf, offset);
    StringReaderAgrees(buf, offset);
    if ResolveString(buf, offset).Some? { StringEndsAtSkip(buf, offset); }
    if ReadOneOf(buf, offset, UINT_KINDS).Some? { ReadEndsAtSkip(buf, offset, UINT_KINDS); }
    if ReadOneOf(buf, offset, INTEGER_KINDS).Some? { ReadEndsAtSkip(buf, offset, INTEGER_KINDS); }
    if ReadOneOf(buf, offset, FLOAT_KINDS).Some? { ReadEndsAtSkip(buf, offset, FLOAT_KINDS); }
    forall kind | IsScalarKind(kind) && ReadOneOf(buf, offset, {kind}).Some?
      ensures Skip(buf, offset) == Some(ReadOneOf(buf, offset, {kind}).value.1)
    {
      ReadEndsAtSkip(buf, offset, {kind});
    }
  }

  // ---- Container cursors ----

  /**
   * Fields of a MapCursor or, with `isMap` false, a SliceCursor. A slice's index is `size - remaining`; only a slice
   * uses `dataOffset`, where its first element starts.
   */
  datatype Open = Open(
    isMap: bool,
    decoder: Option<nat>,
    failed: bool,
    valueOrigin: nat,
    dataOffset: nat,
    offset: nat,
    outerEnd: nat,
    size: nat,
    remaining: nat,
    pending: bool)

  /** Cursor.Map and Cursor.Slice: maps are preflighted when large, slices only bounds-checked. */
  function OpenContainer(inputs: Inputs, c: Cursor, isMap: bool): Option<Open> {
    if c.decoder.None? || c.decoder.value !in inputs then None else
    var buf := inputs[c.decoder.value];
    match ResolveCtrl(buf, c.offset)
    case None => None
    case Some(Resolved(kind, size, data, pointerEnd)) =>
      if kind != KindFor(isMap) || Children(kind, size) > |buf| - data then None
      else if isMap && Children(kind, size) >= PREFLIGHT_COUNT && !Preflighted(buf, true, size, data) then None
      else Some(Open(isMap, c.decoder, false, c.offset, data, data, pointerEnd, size, size, false))
  }

  /** The structural validator accepts the contents with a fresh allowance. */
  predicate Preflighted(buf: seq<byte>, isMap: bool, size: nat, data: nat) {
    var c := CheckEntries(buf, isMap, data, size, 0);
    c.Some? && c.value.slots <= SLOT_BUDGET
  }

  /** Size: a map's was checked on opening; a slice is preflighted here when large, and a refusal is kept as its error. */
  function SizeOf(inputs: Inputs, m: Open): (Open, Option<nat>) {
    if m.isMap then (m, Some(m.size))
    else if m.failed || m.decoder.None? || m.decoder.value !in inputs then (m, None)
    else
      var buf := inputs[m.decoder.value];
      if m.dataOffset > |buf| || m.size > |buf| - m.dataOffset then (m.(failed := true), None)
      else if m.size >= PREFLIGHT_COUNT && !Preflighted(buf, false, m.size, m.dataOffset) then (m.(failed := true), None)
      else (m, Some(m.size))
  }

  /** Next: consumes the successor of the pending value and opens the next entry. */
  function NextEntry(inputs: Inputs, m: Open, successor: Cursor): (Open, Option<(seq<byte>, Cursor)>) {
    if m.failed then (m, None)
    else if m.pending && (successor.decoder != m.decoder || successor.originToken != m.offset + 1) then
      (m.(failed := true), None)
    else if !m.pending && successor.decoder.Some? then (m.(failed := true), None)
    else
      var n := if m.pending && m.remaining > 0
               then m.(offset := successor.offset, remaining := m.remaining - 1, pending := false) else m;
      if n.remaining == 0 || n.decoder.None? || n.decoder.value !in inputs then (n, None)
      else if n.isMap then
        match DecodeKeyAt(inputs[n.decoder.value], n.offset)
        case None => (n.(failed := true), None)
        case Some(key) =>
          (n.(offset := key.next, pending := true), Some((key.bytes, Cursor(n.decoder, key.next, 0))))
      else (n.(pending := true), Some(([], Cursor(n.decoder, n.offset, 0))))
  }

  function EndOf(m: Open): Option<Cursor> {
    if m.failed || m.decoder.None? || m.pending || m.remaining != 0 then None
    else Some(Cursor(m.decoder, if m.outerEnd != 0 then m.outerEnd else m.offset, m.valueOrigin + 1))
  }

  /** Values of the container already passed: both halves of finished entries, and the key of a pending one. */
  function Passed(m: Open): nat
    requires m.remaining <= m.size
  {
    PerEntry(m.isMap) * (m.size - m.remaining) + if m.pending && m.isMap then 1 else 0
  }

  /** The cursor sits exactly `Passed` values into the container at its origin. */
  predicate Tracks(inputs: Inputs, m: Open) {
    && m.remaining <= m.size && (m.pending ==> m.remaining > 0)
    && (m.decoder.None? ==> m.size == 0)
    && (m.decoder.Some? ==>
          && m.decoder.value in inputs
          && var buf := inputs[m.decoder.value];
             var r := ResolveCtrl(buf, m.valueOrigin);
             && r.Some? && r.value.kind == KindFor(m.isMap) && r.value.size == m.size && r.value.pointerEnd == m.outerEnd
             && r.value.data == m.dataOffset <= |buf|
             && SkipN(buf, r.value.data, Passed(m)) == Some(m.offset))
  }

  lemma OpenTracks(inputs: Inputs, c: Cursor, isMap: bool)
    requires OpenContainer(inputs, c, isMap).Some?
    ensures Tracks(inputs, OpenContainer(inputs, c, isMap).value)
  {
    hide DecodeCtrl, ResolveCtrl, Preflighted;
  }

  /** Consuming a proven successor moves exactly one value forward. */
  lemma ConsumeTracks(inputs: Inputs, m: Open, successor: Cursor)
    requires Tracks(inputs, m) && m.decoder.Some? && m.pending && Proven(inputs, successor)
    requires successor.decoder == m.decoder && successor.originToken == m.offset + 1
    ensures Tracks(inputs, m.(offset := successor.offset, remaining := m.remaining - 1, pending := false))
  {
    hide ResolveCtrl, SkipN;
    var buf := inputs[m.decoder.value];
    var data := ResolveCtrl(buf, m.valueOrigin).value.data;
    SkipComposes(buf, data, Passed(m), 1);
  }

  /** Reading a key moves exactly one value forward. */
  lemma KeyTracks(inputs: Inputs, m: Open)
    requires Tracks(inputs, m) && m.decoder.Some? && m.isMap && !m.pending && m.remaining > 0
    requires DecodeKeyAt(inputs[m.decoder.value], m.offset).Some?
    ensures Tracks(inputs, m.(offset := DecodeKeyAt(inputs[m.decoder.value], m.offset).value.next, pending := true))
  {
    hide ResolveCtrl, SkipN, DecodeKeyAt, ResolveString;
    var buf := inputs[m.decoder.value];
    KeyReaderAgrees(buf, m.offset);
    StringEndsAtSkip(buf, m.offset);
    var data := ResolveCtrl(buf, m.valueOrigin).value.data;
    SkipComposes(buf, data, Passed(m), 1);
  }

  lemma NextTracks(inputs: Inputs, m: Open, successor: Cursor)
    requires Tracks(inputs, m) && Proven(inputs, successor)
    ensures Tracks(inputs, NextEntry(inputs, m, successor).0)
    ensures m.failed ==> NextEntry(inputs, m, successor) == (m, None)
    ensures NextEntry(inputs, m, successor).1.Some? ==> Proven(inputs, NextEntry(inputs, m, successor).1.value.1)
  {
    hide ResolveCtrl, SkipN, DecodeKeyAt;
    if !m.failed && m.decoder.Some? {
      var consumed := m.pending && successor.decoder == m.decoder && successor.originToken == m.offset + 1;
      if consumed { ConsumeTracks(inputs, m, successor); }
      var n := if consumed then m.(offset := successor.offset, remaining := m.remaining - 1, pending := false) else m;
      if !n.pending && n.remaining > 0 && n.isMap && DecodeKeyAt(inputs[n.decoder.value], n.offset).Some? {
        KeyTracks(inputs, n);
      }
    }
  }

  /** Asking for the size moves nothing, and fails for good on a slice whose elements the validator refuses. */
  lemma SizeTracks(inputs: Inputs, m: Open)
    requires Tracks(inputs, m)
    ensures var (n, r) := SizeOf(inputs, m);
            && Tracks(inputs, n) && n == m.(failed := n.failed) && (m.failed ==> n.failed)
            && (r.Some? ==> r.value == m.size && n == m)
            && (r.None? && m.decoder.Some? ==> n.failed && EndOf(n).None?)
  {
    hide ResolveCtrl, SkipN, Preflighted;
  }

  /** What the bounds check and the preflight see of a container that decodes with fresh limits. */
  lemma DecodableContents(buf: seq<byte>, offset: nat)
    requires Decodes(buf, offset) && Parse(buf, offset, 0, false).value.value.Container?
    ensures ResolveCtrl(buf, offset).Some?
    ensures var Resolved(kind, size, data, _) := ResolveCtrl(buf, offset).value;
            var v := Parse(buf, offset, 0, false).value.value;
            && kind == KindFor(v.isMap) && size == |v.entries| && Children(kind, size) <= |buf| - data
            && (Children(kind, size) >= PREFLIGHT_COUNT ==> Preflighted(buf, v.isMap, size, data))
  {
    hide DecodeCtrl, ResolveCtrl, Parse, ParseContents, CheckEntries, SkipN, Slots, Payload;
    var v := Parse(buf, offset, 0, false).value.value;
    var depth, strict := ParseResolves(buf, offset, 0, false);
    var Resolved(kind, size, data, _) := ResolveCtrl(buf, offset).value;
    ContainerCosts(v);
    ContentsMonotone(buf, v.isMap, data, size, depth, strict, 0, strict);
    ContentsAgree(buf, v.isMap, data, size, 0, strict);
    if strict {
      EntriesComplete(buf, v.isMap, data, size, 0);
    }
  }

  /** A container that decodes can be opened as its own kind, and only as that. */
  lemma OpenDecodable(inputs: Inputs, c: Cursor, isMap: bool)
    requires c.decoder.Some? && c.decoder.value in inputs && Decodes(inputs[c.decoder.value], c.offset)
    ensures var v := Parse(inputs[c.decoder.value], c.offset, 0, false).value.value;
            && (OpenContainer(inputs, c, isMap).Some? <==> v.Container? && v.isMap == isMap)
            && (OpenContainer(inputs, c, isMap).Some? ==> OpenContainer(inputs, c, isMap).value.size == |v.entries|)
  {
    hide ResolveCtrl, Parse, Preflighted, Slots, Payload;
    var buf := inputs[c.decoder.value];
    var depth, strict := ParseResolves(buf, c.offset, 0, false);
    if Parse(buf, c.offset, 0, false).value.value.Container? {
      DecodableContents(buf, c.offset);
    }
  }

  /** The size of a container that decodes with fresh limits is never refused, large or small. */
  lemma SizeOfDecodable(inputs: Inputs, m: Open)
    requires Tracks(inputs, m) && m.decoder.Some? && !m.failed && Decodes(inputs[m.decoder.value], m.valueOrigin)
    ensures SizeOf(inputs, m) == (m, Some(m.size))
  {
    hide ResolveCtrl, Parse, SkipN, Preflighted, Slots, Payload;
    var buf := inputs[m.decoder.value];
    var depth, strict := ParseResolves(buf, m.valueOrigin, 0, false);
    DecodableContents(buf, m.valueOrigin);
  }

  /**
   * End succeeds only when every entry is complete, and then returns the plain-skip end of the container's value:
   * the end of the pointer when the container was reached through one.
   */
  lemma EndIsProven(inputs: Inputs, m: Open)
    requires Tracks(inputs, m) && EndOf(m).Some?
    ensures Proven(inputs, EndOf(m).value) && EndOf(m).value.originToken == m.valueOrigin + 1
    ensures m.remaining == 0 && !m.pending && !m.failed
  {
    hide DecodeCtrl, SkipN;
    var buf := inputs[m.decoder.value];
    if m.outerEnd == 0 {
      SkipContainer(buf, m.valueOrigin);
    }
  }

  /** MapCursor and SliceCursor as the client holds them: mutable, updated by Next. */
  class ContainerCursor {
    const inputs: Inputs
    const isMap: bool
    const decoder: Option<nat>
    const valueOrigin: nat
    const dataOffset: nat
    const outerEnd: nat
    const size: nat
    var failed: bool
    var offset: nat
    var remaining: nat
    var pending: bool

    function State(): Open
      reads this
    {
      Open(isMap, decoder, failed, valueOrigin, dataOffset, offset, outerEnd, size, remaining, pending)
    }

    constructor (inputs: Inputs, m: Open)
      ensures this.inputs == inputs && State() == m
    {
      this.inputs := inputs;
      isMap, decoder, valueOrigin, dataOffset := m.isMap, m.decoder, m.valueOrigin, m.dataOffset;
      outerEnd, size := m.outerEnd, m.size;
      failed, offset, remaining, pending := m.failed, m.offset, m.remaining, m.pending;
    }

    method Next(successor: Cursor) returns (r: Option<(seq<byte>, Cursor)>)
      requires Tracks(inputs, State()) && Proven(inputs, successor)
      modifies this
      ensures (State(), r) == NextEntry(inputs, old(State()), successor)
      ensures Tracks(inputs, State()) && (r.Some? ==> Proven(inputs, r.value.1))
      ensures old(failed) ==> failed && r.None?
    {
      hide ResolveCtrl, SkipN, DecodeKeyAt;
      NextTracks(inputs, State(), successor);
      if failed { return None; }
      if pending {
        if successor.decoder != decoder || successor.originToken != offset + 1 {
          failed := true;
          return None;
        }
        offset, remaining, pending := successor.offset, remaining - 1, false;
      } else if successor.decoder.Some? {
        failed := true;
        return None;
      }
      if remaining == 0 { return None; }
      var key: seq<byte> := [];
      if isMap {
        match DecodeKeyAt(inputs[decoder.value], offset) {
          case None =>
            failed := true;
            return None;
          case Some(at) =>
            key, offset := at.bytes, at.next;
        }
      }
      pending := true;
      return Some((key, Cursor(decoder, offset, 0)));
    }

    method Size() returns (r: Option<nat>)
      requires Tracks(inputs, State())
      modifies this`failed
      ensures (State(), r) == SizeOf(inputs, old(State()))
      ensures Tracks(inputs, State()) && (old(failed) ==> failed)
      ensures r.Some? ==> r.value == size && failed == old(failed)
    {
      hide ResolveCtrl, SkipN, CheckEntries;
      SizeTracks(inputs, State());
      if isMap { return Some(size); }
      if failed || decoder.None? { return None; }
      var buf := inputs[decoder.value];
      if size > |buf| - dataOffset {
        failed := true;
        return None;
      }
      if size >= PREFLIGHT_COUNT {
        var validator := new StructuralValidator(buf, SLOT_BUDGET + size);
        var v := validator.ValidateContainerContents(KIND_SLICE, size, dataOffset, 0);
        if v.Err? {
          failed := true;
          return None;
        }
      }
      return Some(size);
    }

    method End() returns (r: Option<Cursor>)
      requires Tracks(inputs, State())
      ensures r == EndOf(State())
      ensures r.Some? ==> remaining == 0 && Proven(inputs, r.value)
    {
      hide SkipN, ResolveCtrl;
      if failed || decoder.None? { return None; }
      if pending || remaining != 0 { return None; }
      EndIsProven(inputs, State());
      var end := if outerEnd != 0 then outerEnd else offset;
      return Some(Cursor(decoder, end, valueOrigin + 1));
    }
  }

  // ---- Any sequence of client calls ----

  /** Everything a client has obtained from the API. */
  datatype Client = Client(cursors: set<Cursor>, opens: seq<Open>)

  datatype Op =
    | Start(decoder: nat, offset: nat)       // a cursor for a decoder's current value
    | Read(c: Cursor, next: nat)             // any successful read or skip
    | ReadMapKey(c: Cursor)
    | OpenAt(c: Cursor, isMap: bool)
    | Next(i: nat, successor: Cursor)
    | Size(i: nat)
    | Copy(i: nat)                           // a container cursor is a value; both copies go on independently
    | End(i: nat)

  /** A client passes only cursors it was given, or the zero cursor. */
  predicate Holds(s: Client, c: Cursor) {
    c in s.cursors || c == ZERO_CURSOR
  }

  predicate Possible(inputs: Inputs, s: Client, op: Op) {
    match op
    case Start(d, _) => d in inputs
    case Read(c, next) =>
      Holds(s, c) && c.decoder.Some? && c.decoder.value in inputs && Reads(inputs[c.decoder.value], c.offset, next)
    case ReadMapKey(c) => Holds(s, c) && c.decoder.Some? && c.decoder.value in inputs
    case OpenAt(c, _) => Holds(s, c)
    case Next(i, successor) => i < |s.opens| && Holds(s, successor)
    case Size(i) => i < |s.opens|
    case Copy(i) => i < |s.opens|
    case End(i) => i < |s.opens|
  }

  function Perform(inputs: Inputs, s: Client, op: Op): Client
    requires Possible(inputs, s, op)
  {
    match op
    case Start(d, offset) => s.(cursors := s.cursors + {Cursor(Some(d), offset, 0)})
    case Read(c, next) => s.(cursors := s.cursors + {Successor(c, next)})
    case ReadMapKey(c) =>
      (match DecodeKeyAt(inputs[c.decoder.value], c.offset)
       case None => s
       case Some(key) => s.(cursors := s.cursors + {Cursor(c.decoder, key.next, 0)}))
    case OpenAt(c, isMap) =>
      (match OpenContainer(inputs, c, isMap)
       case None => s
       case Some(m) => s.(opens := s.opens + [m]))
    case Next(i, successor) =>
      var (m, r) := NextEntry(inputs, s.opens[i], successor);
      Client(if r.Some? then s.cursors + {r.value.1} else s.cursors, s.opens[i := m])
    case Size(i) => s.(opens := s.opens[i := SizeOf(inputs, s.opens[i]).0])
    case Copy(i) => s.(opens := s.opens + [s.opens[i]])
    case End(i) =>
      (match EndOf(s.opens[i])
       case None => s
       case Some(c) => s.(cursors := s.cursors + {c}))
  }

  ghost predicate Safe(inputs: Inputs, s: Client) {
    && (forall c :: c in s.cursors ==> Proven(inputs, c))
    && (forall i :: 0 <= i < |s.opens| ==> Tracks(inputs, s.opens[i]))
  }

  lemma PerformIsSafe(inputs: Inputs, s: Client, op: Op)
    requires Safe(inputs, s) && Possible(inputs, s, op)
    ensures Safe(inputs, Perform(inputs, s, op))
  {
    hide Skip, Tracks, OpenContainer, NextEntry, SizeOf, EndOf, DecodeKeyAt, Reads;
    match op
    case Read(c, next) => ReadsEndAtSkip(inputs[c.decoder.value], c.offset, next);
    case OpenAt(c, isMap) => if OpenContainer(inputs, c, isMap).Some? { OpenTracks(inputs, c, isMap); }
    case Next(i, successor) => NextTracks(inputs, s.opens[i], successor);
    case Size(i) => SizeTracks(inputs, s.opens[i]);
    case End(i) => if EndOf(s.opens[i]).Some? { EndIsProven(inputs, s.opens[i]); }
    case _ =>
  }

  ghost predicate Run(inputs: Inputs, s: Client, ops: seq<Op>, end: Client)
    decreases |ops|
  {
    if ops == [] then end == s
    else Possible(inputs, s, ops[0]) && Run(inputs, Perform(inputs, s, ops[0]), ops[1..], end)
  }

  /** Whatever a client calls, every cursor it holds with token t + 1 sits at the plain-skip end of the value at t. */
  lemma {:induction false} EveryRunIsSafe(inputs: Inputs, s: Client, ops: seq<Op>, end: Client)
    requires Safe(inputs, s) && Run(inputs, s, ops, end)
    ensures Safe(inputs, end)
    decreases |ops|
  {
    hide Possible, Perform, Safe;
    if ops != [] {
      PerformIsSafe(inputs, s, ops[0]);
      EveryRunIsSafe(inputs, Perform(inputs, s, ops[0]), ops[1..], end);
    }
  }
}
