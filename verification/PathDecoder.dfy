/** Path decoding refines decoding the whole record and selecting from it (reflection.go). */
module PathDecoder {
  import opened Core
  import opened Format
  import opened Values
  import opened Grammar
  import opened Decoder
  import StringPaths

  datatype PathElement = Key(name: seq<byte>) | Index(i: int) | Other

  datatype Selection = Found(value: Value) | Absent | Misfit

  /** A path takes the first entry with a matching key. */
  function FirstWith(es: seq<Entry>, name: seq<byte>): Option<Value> {
    if es == [] then None
    else if es[0].key == name then Some(es[0].value)
    else FirstWith(es[1..], name)
  }

  /** Position named by an index into `size` elements; negative indices count from the end. */
  function Position(i: int, size: nat): (p: Option<nat>)
    ensures p.Some? ==> p.value < size
  {
    if i < 0 then (if size < -i then None else Some(size + i))
    else if size <= i then None else Some(i)
  }

  /** What one path element selects from a decoded value. */
  function SelectOne(v: Value, element: PathElement): Selection {
    match element
    case Key(name) =>
      if !(v.Container? && v.isMap) then Misfit
      else (match FirstWith(v.entries, name)
            case None => Absent
            case Some(u) => Found(u))
    case Index(i) =>
      if !(v.Container? && !v.isMap) then Misfit
      else (match Position(i, |v.entries|)
            case None => Absent
            case Some(p) => Found(v.entries[p].value))
    case Other => Misfit
  }

  /** What a path selects from a decoded value. */
  function Select(v: Value, path: seq<PathElement>): Selection
    decreases |path|
  {
    if path == [] then Found(v)
    else match SelectOne(v, path[0])
         case Found(u) => Select(u, path[1..])
         case other => other
  }

  /** Result of a path decode: `Ok(None)` leaves the destination unchanged. */
  function Outcome(s: Selection): Result<Option<Value>> {
    match s
    case Found(v) => Ok(Some(v))
    case Absent => Ok(None)
    case Misfit => Err(Mismatch)
  }

  /** A position in the record: the value there, the depth at which full decoding meets it, and the rule in force. */
  ghost predicate Holds(d: BudgetedDecoder, offset: nat, depth: nat, strict: bool, v: Value)
    reads d
    requires d.Valid()
  {
    && Parse(d.buf, offset, depth, strict).Some? && Parse(d.buf, offset, depth, strict).value.value == v
    && Slots(v) <= d.SlotsLeft() && Payload(v) <= d.payloadRemaining
  }

  ghost predicate HoldsContents(
    d: BudgetedDecoder, isMap: bool, offset: nat, n: nat, depth: nat, strict: bool, es: seq<Entry>)
    reads d
    requires d.Valid()
  {
    && ParseContents(d.buf, isMap, offset, n, depth, strict).Some?
    && ParseContents(d.buf, isMap, offset, n, depth, strict).value.entries == es
    && SlotsOf(es) <= d.SlotsLeft() && PayloadOf(es) <= d.payloadRemaining
  }

  /** Resolving the header of a value that decodes finds the shape of the value, at least as deep. */
  lemma ParseResolves(buf: seq<byte>, offset: nat, depth: nat, strict: bool) returns (depth': nat, strict': bool)
    requires Parse(buf, offset, depth, strict).Some?
    ensures ResolveCtrl(buf, offset).Some? && depth < depth'
    ensures Children(ResolveCtrl(buf, offset).value.kind, ResolveCtrl(buf, offset).value.size) >= PREFLIGHT_COUNT ==> strict'
    ensures var Resolved(kind, size, data, _) := ResolveCtrl(buf, offset).value;
            var v := Parse(buf, offset, depth, strict).value.value;
            && (IsContainer(kind) <==> v.Container?)
            && (v.Container? ==> var c := ParseContents(buf, kind == KIND_MAP, data, size, depth', strict');
                                 c.Some? && v == Container(kind == KIND_MAP, c.value.entries))
  {
    hide DecodeCtrl, ParseContents;
    var Ctrl(kind, size, data) := DecodeCtrl(buf, offset).value;
    if kind == KIND_POINTER {
      var target := DecodePointer(buf, size, data).value.0;
      assert Parse(buf, target, depth + 1, strict).Some?;
      var Ctrl(kind', size', _) := DecodeCtrl(buf, target).value;
      depth', strict' := depth + 2, strict || Children(kind', size') >= PREFLIGHT_COUNT;
    } else {
      depth', strict' := depth + 1, strict || Children(kind, size) >= PREFLIGHT_COUNT;
    }
  }

  /** The key search of decodePath: the offset of the first value whose key matches, charging every inspected key. */
  method FindKey(d: BudgetedDecoder, start: nat, size: nat, name: seq<byte>,
                 ghost depth: nat, ghost strict: bool, ghost es: seq<Entry>) returns (r: Result<Option<nat>>)
    requires d.Valid()
    modifies d
    ensures d.Valid()
    ensures old(HoldsContents(d, true, start, size, depth, strict, es)) ==>
              && r.Ok?
              && (r.value.Some? <==> FirstWith(es, name).Some?)
              && (r.value.Some? ==> Holds(d, r.value.value, depth, strict, FirstWith(es, name).value))
  {
    hide DecodeCtrl, Parse, ParseContents, Slots, Payload, ResolveString, InlineN;
    ghost var good := HoldsContents(d, true, start, size, depth, strict, es);
    ghost var rest := es;
    var offset := start;
    var j := 0;
    while j < size
      invariant j <= size && d.Valid()
      invariant good ==> HoldsContents(d, true, offset, size - j, depth, strict, rest)
      invariant good ==> FirstWith(rest, name) == FirstWith(es, name)
    {
      if good { ContentsHead(d.buf, true, offset, size - j, depth, strict); }
      StringPaths.KeyReaderAgrees(d.buf, offset);
      var key := StringPaths.DecodeKeyAt(d.buf, offset);
      if key.None? { return Err(Malformed); }
      var ok := d.ReservePayload(|key.value.bytes|);
      if !ok { return Err(TooLarge); }
      if key.value.bytes == name { return Ok(Some(key.value.next)); }
      if good { InlineBounded(d.buf, key.value.next, depth, strict); }
      var next := d.NextValueOffsetBudgeted(key.value.next, 1);
      if next.Err? { return Err(next.error); }
      if good { rest := rest[1..]; }
      offset, j := next.value, j + 1;
    }
    if good { NoContents(d.buf, true, offset, depth, strict); }
    return Ok(None);
  }

  /** The inline skip over the first elements ends at the indexed one, and both fit in what the whole run costs. */
  lemma ElementWithin(buf: seq<byte>, start: nat, size: nat, index: nat, depth: nat, strict: bool)
    requires ParseContents(buf, false, start, size, depth, strict).Some? && index < size
    ensures var es := ParseContents(buf, false, start, size, depth, strict).value.entries;
            var crossed := InlineN(buf, start, index);
            && crossed.Some? && Parse(buf, crossed.value.next, depth, strict).Some?
            && Parse(buf, crossed.value.next, depth, strict).value.value == es[index].value
            && crossed.value.slots + Slots(es[index].value) <= SlotsOf(es) && Payload(es[index].value) <= PayloadOf(es)
  {
    hide Parse, ParseContents, Slots, Payload, SlotsOf, PayloadOf, InlineN;
    var es := ParseContents(buf, false, start, size, depth, strict).value.entries;
    ContentsSplit(buf, false, start, size, depth, strict, index);
    InlineContents(buf, false, start, index, depth, strict);
    var head := ParseContents(buf, false, start, index, depth, strict).value;
    ContentsHead(buf, false, head.next, size - index, depth, strict);
    assert es == es[..index] + es[index..];
    CostsAppend(es[..index], es[index..]);
  }

  /** Moving to one element of a slice skips everything before it, charging only inline containers. */
  method SkipToIndex(d: BudgetedDecoder, start: nat, size: nat, index: nat,
                     ghost depth: nat, ghost strict: bool, ghost es: seq<Entry>) returns (r: Result<nat>)
    requires d.Valid() && index < size <= MAX_VALUE_SIZE
    modifies d
    ensures d.Valid()
    ensures old(HoldsContents(d, false, start, size, depth, strict, es)) ==>
              r.Ok? && |es| == size && Holds(d, r.value, depth, strict, es[index].value)
  {
    hide Parse, ParseContents, Slots, Payload, SlotsOf, PayloadOf, InlineN;
    if HoldsContents(d, false, start, size, depth, strict, es) {
      ElementWithin(d.buf, start, size, index, depth, strict);
    }
    r := d.NextValueOffsetBudgeted(start, index);
  }

  /** One turn of decodePath's loop: the offset of the selected value, `Ok(None)` when it is absent, or the mismatch. */
  method Navigate(d: BudgetedDecoder, offset: nat, element: PathElement, ghost depth: nat, ghost strict: bool, ghost cur: Value)
    returns (r: Result<Option<nat>>, ghost depth': nat, ghost strict': bool)
    requires d.Valid()
    modifies d
    ensures d.Valid() && depth < depth'
    ensures old(Holds(d, offset, depth, strict, cur)) ==>
              match SelectOne(cur, element)
              case Found(u) => r.Ok? && r.value.Some? && Holds(d, r.value.value, depth', strict', u)
              case Absent => r == Ok(None)
              case Misfit => r == Err(Mismatch)
  {
    hide DecodeCtrl, ResolveCtrl, Parse, ParseContents, Slots, Payload, FirstWith, Position;
    ghost var good := Holds(d, offset, depth, strict, cur);
    depth', strict' := depth + 1, strict;
    if good {
      depth', strict' := ParseResolves(d.buf, offset, depth, strict);
      if cur.Container? { ContainerCosts(cur); }
    }
    var ctrl := ResolveCtrl(d.buf, offset);
    if ctrl.None? { return Err(Malformed), depth', strict'; }
    var Resolved(kind, size, data, _) := ctrl.value;
    if kind == KIND_MAP || kind == KIND_SLICE {
      var ok := d.ReserveContainer(kind == KIND_MAP, size);
      if !ok { return Err(TooLarge), depth', strict'; }
    }
    match element
    case Key(name) =>
      if kind != KIND_MAP { return Err(Mismatch), depth', strict'; }
      var found := FindKey(d, data, size, name, depth', strict', if good then cur.entries else []);
      return found, depth', strict';
    case Index(index) =>
      if kind != KIND_SLICE { return Err(Mismatch), depth', strict'; }
      var position := Position(index, size);
      if position.None? { return Ok(None), depth', strict'; }
      SizeBound(d.buf, offset);
      var moved := SkipToIndex(d, data, size, position.value, depth', strict', if good then cur.entries else []);
      if moved.Err? { return Err(moved.error), depth', strict'; }
      return Ok(Some(moved.value)), depth', strict';
    case Other =>
      return Err(Mismatch), depth', strict';
  }

  lemma SizeBound(buf: seq<byte>, offset: nat)
    ensures ResolveCtrl(buf, offset).Some? ==> ResolveCtrl(buf, offset).value.size <= MAX_VALUE_SIZE
  {
    hide DecodeCtrl;
  }

  /**
   * DecodePath into `any`. Whenever the whole record decodes within the allowances in force, the path gives what
   * selecting from the decoded record gives: the value, an unchanged destination or the type mismatch. Navigation
   * itself never runs out of budget or depth.
   */
  method DecodePath(d: BudgetedDecoder, start: nat, path: seq<PathElement>) returns (r: Result<Option<Value>>)
    requires d.Valid()
    modifies d
    ensures d.Valid()
    ensures forall v :: old(Holds(d, start, 0, false, v)) ==> r == Outcome(Select(v, path))
  {
    hide DecodeCtrl, Parse, ParseContents, Slots, Payload, SelectOne;
    ghost var parsed := Parse(d.buf, start, 0, false);
    ghost var good := parsed.Some? && Holds(d, start, 0, false, parsed.value.value);
    ghost var whole := if good then parsed.value.value else Bool(false);
    ghost var cur, depth, strict := whole, 0, false;
    var offset := start;
    var i := 0;
    while i < |path|
      invariant i <= |path| && d.Valid() && i <= depth
      invariant good ==> Holds(d, offset, depth, strict, cur) && Select(whole, path) == Select(cur, path[i..])
    {
      ghost var rest := path[i..];
      assert rest[0] == path[i] && rest[1..] == path[i + 1..];
      ghost var selected := SelectOne(cur, path[i]);
      var next, depth', strict' := Navigate(d, offset, path[i], depth, strict, cur);
      if next.Err? { return Err(next.error); }
      if next.value.None? { return Ok(None); }
      offset := next.value.value;
      if good { cur := selected.value; }
      depth, strict := depth', strict';
      i := i + 1;
    }
    if good {
      ParseWithinDepth(d.buf, offset, depth, strict);
      ParseMonotone(d.buf, offset, depth, strict, |path|, false);
    }
    var decoded;
    if |path| <= MAX_DEPTH {
      decoded := d.DecodeAny(offset, |path|);
    } else {
      decoded := d.DecodeValue(offset, |path|);
    }
    if decoded.Err? { return Err(decoded.error); }
    return Ok(Some(decoded.value.value));
  }

  lemma ContainerCosts(v: Value)
    requires v.Container?
    ensures Slots(v) == Children(KindFor(v.isMap), |v.entries|) + SlotsOf(v.entries) && Payload(v) == PayloadOf(v.entries)
  {
  }

  /** DecodePath with a fresh decoder: on every record that decodes, the path selects from the decoded record. */
  method DecodePathFresh(buf: seq<byte>, start: nat, path: seq<PathElement>) returns (r: Result<Option<Value>>)
    requires |buf| <= MAX_LEN
    ensures Decodes(buf, start) ==> r == Outcome(Select(Parse(buf, start, 0, false).value.value, path))
  {
    hide Parse, Select, Slots, Payload;
    var d := new BudgetedDecoder(buf);
    if Decodes(buf, start) {
      assert Holds(d, start, 0, false, Parse(buf, start, 0, false).value.value);
    }
    r := DecodePath(d, start, path);
  }
}
