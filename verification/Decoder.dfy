/** The budgeted dynamic decoder: two operation-wide allowances threaded through recursion and preflights (reflection.go). */
module Decoder {
  import opened Core
  import opened Format
  import opened Values
  import opened Grammar
  import opened Validator
  import StringPaths

  const PAYLOAD_BUDGET: nat := 2_097_152

  /** Contract of one decoding step: success exactly within the allowances, which then shrink by the exact cost. */
  ghost predicate Charged(p: Option<Parsed>, slots: nat, payload: nat, slots': nat, payload': nat, r: Result<Parsed>) {
    && (r.Ok? <==> p.Some? && Slots(p.value.value) <= slots && Payload(p.value.value) <= payload)
    && (r.Ok? ==> r.value == p.value
                  && slots' == slots - Slots(p.value.value) && payload' == payload - Payload(p.value.value))
  }

  /** The only failures left for input the validator accepts: an exhausted budget or the depth limit. */
  predicate OnlyLimits<T>(r: Result<T>) {
    r.Err? ==> r.error == TooLarge || r.error == TooDeep
  }

  ghost predicate ContentsCharged(
    p: Option<Contents>, slots: nat, payload: nat, slots': nat, payload': nat, r: Result<Contents>)
  {
    && (r.Ok? <==> p.Some? && SlotsOf(p.value.entries) <= slots && PayloadOf(p.value.entries) <= payload)
    && (r.Ok? ==> r.value == p.value
                  && slots' == slots - SlotsOf(p.value.entries) && payload' == payload - PayloadOf(p.value.entries))
  }

  lemma SingleCost(e: Entry)
    ensures SlotsOf([e]) == Slots(e.value) && PayloadOf([e]) == |e.key| + Payload(e.value)
  {
    assert [e][1..] == [];
  }

  lemma PrependNothing(rest: Option<Contents>)
    ensures Prepend([], rest) == rest && SlotsOf([]) == 0 && PayloadOf([]) == 0
  {
    assert rest.Some? ==> [] + rest.value.entries == rest.value.entries;
  }

  lemma PrependAll(es: seq<Entry>, next: nat)
    ensures Prepend(es, Some(Contents([], next))) == Some(Contents(es, next))
  {
    assert es + [] == es;
  }

  /** Moving the next entry from what remains to what is decoded. */
  lemma PrependStep(es: seq<Entry>, e: Entry, rest: Option<Contents>)
    ensures Prepend(es, Prepend([e], rest)) == Prepend(es + [e], rest)
    ensures SlotsOf(es + [e]) == SlotsOf(es) + Slots(e.value)
    ensures PayloadOf(es + [e]) == PayloadOf(es) + |e.key| + Payload(e.value)
  {
    assert rest.Some? ==> es + ([e] + rest.value.entries) == es + [e] + rest.value.entries;
    CostsAppend(es, [e]);
    SingleCost(e);
  }

  lemma PrependCosts(es: seq<Entry>, rest: Option<Contents>)
    ensures Prepend(es, rest).Some? <==> rest.Some?
    ensures rest.Some? ==>
              var all := Prepend(es, rest).value.entries;
              && SlotsOf(all) == SlotsOf(es) + SlotsOf(rest.value.entries)
              && PayloadOf(all) == PayloadOf(es) + PayloadOf(rest.value.entries)
  {
    if rest.Some? { CostsAppend(es, rest.value.entries); }
  }

  /** The control-byte peek at a pointer target recognises exactly the pointers. */
  lemma PeekedKind(buf: seq<byte>, target: nat, kind: nat)
    requires target < |buf|
    requires kind == if At(buf, target) / 32 == KIND_EXTENDED && target + 1 < |buf|
                     then (At(buf, target + 1) + 7) % 256 else At(buf, target) / 32
    ensures kind == KIND_POINTER <==> IsPointerAt(buf, target)
  {
  }

  lemma NothingThere(buf: seq<byte>, target: nat)
    requires target >= |buf|
    ensures DecodeCtrl(buf, target).None?
  {
  }

  /** A header of one byte is what the general parser reads. */
  lemma CompactHeader(buf: seq<byte>, offset: nat)
    requires offset < |buf|
    ensures var kind, size := At(buf, offset) / 32, At(buf, offset) % 32;
            kind != KIND_EXTENDED && (kind == KIND_POINTER || size < 29) ==>
              DecodeCtrl(buf, offset) == Some(Ctrl(kind, size, offset + 1))
  {
  }

  /** For scalars and pointers of a valid size, the plain skip is the inline grammar and crosses no slots. */
  lemma PlainIsInline(buf: seq<byte>, offset: nat)
    requires offset < |buf|
    requires var kind, size := At(buf, offset) / 32, At(buf, offset) % 32;
             kind == KIND_POINTER || kind == KIND_STRING || kind == KIND_BYTES || (kind == KIND_FLOAT64 && size == 8)
             || (kind == KIND_UINT16 && size <= 2) || (kind == KIND_UINT32 && size <= 4)
    ensures InlineN(buf, offset, 1)
            == match SkipN(buf, offset, 1) { case None => None case Some(next) => Some(Checked(next, 0)) }
  {
    hide InlineN, SkipN;
    InlineToken(buf, offset, 1);
    SkipToken(buf, offset, 1);
    assert StrictToken(buf, offset) == PlainToken(buf, offset);
    var token := PlainToken(buf, offset);
    if token.Some? {
      assert token.value.children == 0;
      InlineZero(buf, token.value.next);
      SkipZero(buf, token.value.next);
    }
  }

  /** For a preflighted container, decoding under the strict rule is lax decoding plus acceptance by the validator. */
  lemma RelaxLarge(buf: seq<byte>, isMap: bool, offset: nat, n: nat, depth: nat, large: bool)
    ensures var strict := ParseContents(buf, isMap, offset, n, depth, large);
            var lax := ParseContents(buf, isMap, offset, n, depth, false);
            var c := CheckEntries(buf, isMap, offset, n, depth);
            && (strict.Some? ==> lax == strict)
            && (large && strict.Some? ==> c.Some? && c.value.slots == SlotsOf(strict.value.entries))
            && (lax.Some? && (large ==> c.Some?) ==> strict == lax)
  {
    hide ParseContents, CheckEntries;
    if ParseContents(buf, isMap, offset, n, depth, large).Some? {
      ContentsMonotone(buf, isMap, offset, n, depth, large, depth, false);
      if large { EntriesComplete(buf, isMap, offset, n, depth); }
    }
    if large && ParseContents(buf, isMap, offset, n, depth, false).Some?
       && CheckEntries(buf, isMap, offset, n, depth).Some? {
      ContentsStrict(buf, isMap, offset, n, depth, false);
    }
  }

  class BudgetedDecoder {
    const buf: seq<byte>
    /** 1 means no child slot is left and N means N - 1 are; 0 (inactive) never occurs once decoding started. */
    var budgetRemaining: nat
    var payloadRemaining: nat

    constructor (buf: seq<byte>)
      requires |buf| <= MAX_LEN
      ensures this.buf == buf && Valid() && SlotsLeft() == SLOT_BUDGET && payloadRemaining == PAYLOAD_BUDGET
    {
      this.buf := buf;
      budgetRemaining := SLOT_BUDGET + 1;
      payloadRemaining := PAYLOAD_BUDGET;
    }

    ghost predicate Valid()
      reads this
    {
      1 <= budgetRemaining <= SLOT_BUDGET + 1 && payloadRemaining <= PAYLOAD_BUDGET && |buf| <= MAX_LEN
    }

    ghost function SlotsLeft(): nat
      reads this
      requires Valid()
    {
      budgetRemaining - 1
    }

    /** reserveActiveContainer: grants a container exactly when its child slots are left. */
    method ReserveContainer(isMap: bool, size: nat) returns (ok: bool)
      requires Valid()
      modifies this`budgetRemaining
      ensures Valid()
      ensures ok <==> Children(KindFor(isMap), size) <= old(SlotsLeft())
      ensures SlotsLeft() == old(SlotsLeft()) - if ok then Children(KindFor(isMap), size) else 0
    {
      if isMap {
        if size >= (budgetRemaining + 1) / 2 { return false; }
        budgetRemaining := budgetRemaining - size * 2;
      } else {
        if size >= budgetRemaining { return false; }
        budgetRemaining := budgetRemaining - size;
      }
      return true;
    }

    method ReservePayload(size: nat) returns (ok: bool)
      requires Valid()
      modifies this`payloadRemaining
      ensures Valid() && (ok <==> size <= old(payloadRemaining))
      ensures payloadRemaining == old(payloadRemaining) - if ok then size else 0
    {
      if size > payloadRemaining { return false; }
      payloadRemaining := payloadRemaining - size;
      return true;
    }

    /** The unmarshal functions of scalar kinds for a dynamic destination. */
    method DecodeScalar(kind: nat, size: nat, data: nat) returns (r: Result<Parsed>)
      requires Valid() && data <= |buf|
      modifies this`payloadRemaining
      ensures Valid() && payloadRemaining <= old(payloadRemaining)
      ensures var end := ScalarEnd(buf, kind, size, data);
              && (end.None? ==> r == Err(Malformed))
              && (end.Some? ==>
                    var bytes := if kind == KIND_BOOL then [] else buf[data..end.value];
                    var p := Parsed(ScalarValue(kind, size, bytes), end.value);
                    && (r == Ok(p) || r == Err(TooLarge)) && (r.Ok? <==> Payload(p.value) <= old(payloadRemaining))
                    && (r.Ok? ==> payloadRemaining == old(payloadRemaining) - Payload(p.value)))
    {
      hide AsInt32, UintFromBytes;
      if kind == KIND_BOOL {
        if size > 1 { return Err(Malformed); }
        return Ok(Parsed(Bool(size != 0), data));
      }
      if kind == KIND_STRING || kind == KIND_BYTES {
        if !HasBufferRange(|buf|, data, size) { return Err(Malformed); }
        var ok := ReservePayload(size);
        if !ok { return Err(TooLarge); }
        var bytes := buf[data..data + size];
        return Ok(Parsed(if kind == KIND_STRING then String(bytes) else Blob(bytes), data + size));
      }
      if !ScalarSizeValid(kind, size) || data + size > |buf| { return Err(Malformed); }
      var bytes := buf[data..data + size];
      if kind == KIND_FLOAT64 { return Ok(Parsed(Float64(BigEndian(bytes)), data + size)); }
      if kind == KIND_FLOAT32 { return Ok(Parsed(Float32(BigEndian(bytes)), data + size)); }
      if kind == KIND_INT32 {
        var number := AccumulateInt32(bytes);
        return Ok(Parsed(Int32(number), data + size));
      }
      if kind == KIND_UINT128 {
        var hi, lo := AccumulateUint128(bytes);
        return Ok(Parsed(Uint128(hi * TWO64 + lo), data + size));
      }
      var n := AccumulateUint(bytes, if kind == KIND_UINT16 then 2 else if kind == KIND_UINT32 then 4 else 8);
      return Ok(Parsed(Uint(n), data + size));
    }

    /**
     * Decodes the value at `offset` into a dynamic destination. It succeeds exactly when the value parses and both
     * allowances cover the unfolded value; they then shrink by exactly its child slots and payload bytes. A value
     * the structural validator accepts fails for an exhausted budget or the depth limit only.
     */
    method DecodeValue(offset: nat, depth: nat) returns (r: Result<Parsed>)
      requires Valid()
      modifies this
      ensures Valid() && SlotsLeft() <= old(SlotsLeft()) && payloadRemaining <= old(payloadRemaining)
      ensures Charged(Parse(buf, offset, depth, false),
                      old(SlotsLeft()), old(payloadRemaining), SlotsLeft(), payloadRemaining, r)
      ensures CheckValue(buf, offset, depth, false).Some? ==> OnlyLimits(r)
      ensures depth > MAX_DEPTH ==> r == Err(TooDeep)
      decreases Remaining(depth), 0
    {
      hide DecodeCtrl;
      if depth > MAX_DEPTH { return Err(TooDeep); }
      var ctrl := DecodeCtrl(buf, offset);
      if ctrl.None? { return Err(Malformed); }
      r := DecodeFromType(ctrl.value.kind, ctrl.value.size, ctrl.value.data, depth + 1, offset);
    }

    /** decodeFromType for the header read at `origin`; `depth` counts that value already. */
    method DecodeFromType(kind: nat, size: nat, data: nat, depth: nat, ghost origin: nat) returns (r: Result<Parsed>)
      requires Valid() && 0 < depth <= MAX_DEPTH + 1 && DecodeCtrl(buf, origin) == Some(Ctrl(kind, size, data))
      modifies this
      ensures Valid() && SlotsLeft() <= old(SlotsLeft()) && payloadRemaining <= old(payloadRemaining)
      ensures Charged(Parse(buf, origin, depth - 1, false),
                      old(SlotsLeft()), old(payloadRemaining), SlotsLeft(), payloadRemaining, r)
      ensures CheckValue(buf, origin, depth - 1, false).Some? ==> OnlyLimits(r)
      decreases Remaining(depth), 4
    {
      hide DecodeCtrl, ScalarValue, ScalarEnd;
      if kind == KIND_MAP || kind == KIND_SLICE {
        r := UnmarshalContainer(kind, size, data, depth, origin);
      } else if kind == KIND_POINTER {
        r := UnmarshalPointer(size, data, depth, origin);
      } else {
        r := DecodeScalar(kind, size, data);
      }
    }

    method UnmarshalPointer(size: nat, data: nat, depth: nat, ghost origin: nat) returns (r: Result<Parsed>)
      requires Valid() && 0 < depth <= MAX_DEPTH + 1 && DecodeCtrl(buf, origin) == Some(Ctrl(KIND_POINTER, size, data))
      modifies this
      ensures Valid() && SlotsLeft() <= old(SlotsLeft()) && payloadRemaining <= old(payloadRemaining)
      ensures Charged(Parse(buf, origin, depth - 1, false),
                      old(SlotsLeft()), old(payloadRemaining), SlotsLeft(), payloadRemaining, r)
      ensures CheckValue(buf, origin, depth - 1, false).Some? ==> OnlyLimits(r)
      decreases Remaining(depth), 3
    {
      hide DecodeCtrl;
      var pointer := DecodePointer(buf, size, data);
      if pointer.None? { return Err(Malformed); }
      var (target, next) := pointer.value;
      if target < |buf| {
        var kind := At(buf, target) / 32;
        if kind == KIND_EXTENDED && target + 1 < |buf| {
          kind := (At(buf, target + 1) + 7) % 256;
        }
        PeekedKind(buf, target, kind);
        if kind == KIND_POINTER { return Err(Malformed); }
      } else {
        NothingThere(buf, target);
      }
      r := DecodeValue(target, depth);
      if r.Ok? { r := Ok(Parsed(r.value.value, next)); }
    }

    /** unmarshalMap and unmarshalSlice: reserve the children, preflight large containers, then decode. */
    method UnmarshalContainer(kind: nat, size: nat, data: nat, depth: nat, ghost origin: nat) returns (r: Result<Parsed>)
      requires Valid() && 0 < depth <= MAX_DEPTH + 1 && IsContainer(kind)
      requires DecodeCtrl(buf, origin) == Some(Ctrl(kind, size, data))
      modifies this
      ensures Valid() && SlotsLeft() <= old(SlotsLeft()) && payloadRemaining <= old(payloadRemaining)
      ensures Charged(Parse(buf, origin, depth - 1, false),
                      old(SlotsLeft()), old(payloadRemaining), SlotsLeft(), payloadRemaining, r)
      ensures CheckValue(buf, origin, depth - 1, false).Some? ==> OnlyLimits(r)
      decreases Remaining(depth), 3
    {
      hide DecodeCtrl, ParseContents, CheckEntries, SlotsOf, PayloadOf;
      var isMap := kind == KIND_MAP;
      ghost var large := Children(kind, size) >= PREFLIGHT_COUNT;
      RelaxLarge(buf, isMap, data, size, depth, large);
      var ok := ReserveContainer(isMap, size);
      if !ok { return Err(TooLarge); }
      var valid := ValidateContainerSize(kind, size, data, depth);
      if valid.Err? { return Err(valid.error); }
      var contents := DecodeContents(isMap, size, data, depth);
      if contents.Err? { return Err(contents.error); }
      return Ok(Parsed(Container(isMap, contents.value.entries), contents.value.next));
    }

    /** validateContainerSize: a count no larger than the bytes left, and a full preflight for large containers. */
    method ValidateContainerSize(kind: nat, size: nat, data: nat, depth: nat) returns (r: Result<()>)
      requires IsContainer(kind) && data <= |buf|
      ensures var large := Children(kind, size) >= PREFLIGHT_COUNT;
              var c := CheckEntries(buf, kind == KIND_MAP, data, size, depth);
              && (r.Ok? && large ==> c.Some? && c.value.slots <= SLOT_BUDGET)
              && (c.Some? && c.value.slots <= SLOT_BUDGET ==> r.Ok?)
              && (c.Some? ==> OnlyLimits(r))
              && (!large && ParseContents(buf, kind == KIND_MAP, data, size, depth, false).Some? ==> r.Ok?)
    {
      hide DecodeCtrl, SkipN, CheckEntries, ParseContents;
      var valueCount := if kind == KIND_MAP then size * 2 else size;
      if CheckEntries(buf, kind == KIND_MAP, data, size, depth).Some? {
        EntriesAgree(buf, kind == KIND_MAP, data, size, depth);
      }
      if ParseContents(buf, kind == KIND_MAP, data, size, depth, false).Some? {
        ContentsAgree(buf, kind == KIND_MAP, data, size, depth, false);
      }
      if valueCount > |buf| - data { return Err(Malformed); }
      if valueCount >= PREFLIGHT_COUNT {
        var validator := new StructuralValidator(buf, SLOT_BUDGET + valueCount);
        var v := validator.ValidateContainerContents(kind, size, data, depth);
        if v.Err? { return Err(v.error); }
      }
      return Ok(());
    }

    /** The loops of decodeMap and decodeSlice; keys are charged in full. */
    method DecodeContents(isMap: bool, size: nat, start: nat, depth: nat) returns (r: Result<Contents>)
      requires Valid()
      modifies this
      ensures Valid() && SlotsLeft() <= old(SlotsLeft()) && payloadRemaining <= old(payloadRemaining)
      ensures ContentsCharged(ParseContents(buf, isMap, start, size, depth, false),
                              old(SlotsLeft()), old(payloadRemaining), SlotsLeft(), payloadRemaining, r)
      ensures CheckEntries(buf, isMap, start, size, depth).Some? ==> OnlyLimits(r)
      decreases Remaining(depth), 2
    {
      hide ParseContents, CheckEntries, Slots, Payload, SlotsOf, PayloadOf, Prepend;
      ghost var whole := ParseContents(buf, isMap, start, size, depth, false);
      ghost var sound := CheckEntries(buf, isMap, start, size, depth).Some?;
      var offset := start;
      var entries: seq<Entry> := [];
      var i := 0;
      PrependNothing(whole);
      while i < size
        invariant i <= size && Valid()
        invariant whole == Prepend(entries, ParseContents(buf, isMap, offset, size - i, depth, false))
        invariant SlotsLeft() + SlotsOf(entries) == old(SlotsLeft())
        invariant payloadRemaining + PayloadOf(entries) == old(payloadRemaining)
        invariant sound ==> CheckEntries(buf, isMap, offset, size - i, depth).Some?
      {
        var entry := DecodeEntry(isMap, offset, size - i, depth);
        if entry.Err? {
          PrependCosts(entries, ParseContents(buf, isMap, offset, size - i, depth, false));
          return Err(entry.error);
        }
        PrependStep(entries, entry.value.0, ParseContents(buf, isMap, entry.value.1, size - i - 1, depth, false));
        entries := entries + [entry.value.0];
        offset := entry.value.1;
        i := i + 1;
      }
      NoContents(buf, isMap, offset, depth, false);
      PrependAll(entries, offset);
      return Ok(Contents(entries, offset));
    }

    /** One turn of the loops: the first of `n` entries still to decode. */
    method DecodeEntry(isMap: bool, offset: nat, n: nat, depth: nat) returns (r: Result<(Entry, nat)>)
      requires Valid() && n > 0
      modifies this
      ensures Valid() && SlotsLeft() <= old(SlotsLeft()) && payloadRemaining <= old(payloadRemaining)
      ensures var c := ParseContents(buf, isMap, offset, n, depth, false);
              && (r.Ok? ==>
                    var Entry(key, value) := r.value.0;
                    && c == Prepend([r.value.0], ParseContents(buf, isMap, r.value.1, n - 1, depth, false))
                    && SlotsLeft() == old(SlotsLeft()) - Slots(value)
                    && payloadRemaining == old(payloadRemaining) - |key| - Payload(value))
              && (r.Err? && c.Some? ==>
                    SlotsOf(c.value.entries) > old(SlotsLeft()) || PayloadOf(c.value.entries) > old(payloadRemaining))
      ensures CheckEntries(buf, isMap, offset, n, depth).Some? ==>
                OnlyLimits(r) && (r.Ok? ==> CheckEntries(buf, isMap, r.value.1, n - 1, depth).Some?)
      decreases Remaining(depth), 1
    {
      hide DecodeCtrl, Parse, Slots, Payload, CheckKey, CheckItem, SkipN, ResolveString;
      ghost var sound := CheckEntries(buf, isMap, offset, n, depth).Some?;
      if ParseContents(buf, isMap, offset, n, depth, false).Some? {
        ContentsHead(buf, isMap, offset, n, depth, false);
      }
      if sound {
        CheckedEntry(buf, isMap, offset, depth);
        CheckedItem(buf, CheckKey(buf, isMap, offset, depth).value.next, depth);
      }
      var key: seq<byte>, valueOffset := [], offset;
      if isMap {
        StringPaths.KeyReaderAgrees(buf, offset);
        var at := StringPaths.DecodeKeyAt(buf, offset);
        if at.None? { return Err(Malformed); }
        var ok := ReservePayload(|at.value.bytes|);
        if !ok { return Err(TooLarge); }
        key, valueOffset := at.value.bytes, at.value.next;
      }
      var p := DecodeValue(valueOffset, depth);
      if p.Err? { return Err(p.error); }
      ParseAgrees(buf, valueOffset, depth, false);
      return Ok((Entry(key, p.value.value), p.value.next));
    }

    /** decodeAny: like DecodeValue for a caller that already bounded the depth; direct unsigned integers skip dispatch. */
    method DecodeAny(offset: nat, depth: nat) returns (r: Result<Parsed>)
      requires Valid() && depth <= MAX_DEPTH
      modifies this
      ensures Valid() && SlotsLeft() <= old(SlotsLeft()) && payloadRemaining <= old(payloadRemaining)
      ensures Charged(Parse(buf, offset, depth, false),
                      old(SlotsLeft()), old(payloadRemaining), SlotsLeft(), payloadRemaining, r)
      ensures CheckValue(buf, offset, depth, false).Some? ==> OnlyLimits(r)
    {
      hide DecodeCtrl, ScalarEnd, ScalarValue;
      var ctrl := DecodeCtrl(buf, offset);
      if ctrl.None? { return Err(Malformed); }
      var Ctrl(kind, size, data) := ctrl.value;
      if kind == KIND_UINT16 || kind == KIND_UINT32 || kind == KIND_UINT64 {
        r := DecodeScalar(kind, size, data);
      } else {
        r := DecodeFromType(kind, size, data, depth + 1, offset);
      }
    }

    /**
     * The budgeted skip: crosses exactly what the inline grammar crosses when the slots of the inline containers
     * are left, and charges exactly those slots.
     */
    method NextValueOffsetBudgeted(start: nat, count: nat) returns (r: Result<nat>)
      requires Valid() && count <= MAX_UINT
      modifies this`budgetRemaining
      ensures Valid() && SlotsLeft() <= old(SlotsLeft())
      ensures var c := InlineN(buf, start, count);
              && (r.Ok? <==> c.Some? && c.value.slots <= old(SlotsLeft()))
              && (r.Ok? ==> r.value == c.value.next && SlotsLeft() == old(SlotsLeft()) - c.value.slots)
    {
      if count == 1 && start < |buf| {
        var kind, size := At(buf, start) / 32, At(buf, start) % 32;
        if kind == KIND_POINTER || kind == KIND_STRING || kind == KIND_BYTES || (kind == KIND_FLOAT64 && size == 8)
           || (kind == KIND_UINT16 && size <= 2) || (kind == KIND_UINT32 && size <= 4)
        {
          PlainIsInline(buf, start);
          var next := NextValueOffset(buf, start, 1);
          if next.None? { return Err(Malformed); }
          return Ok(next.value);
        }
      }
      r := NextValueOffsetBudgetedSlow(start, count);
    }

    method NextValueOffsetBudgetedSlow(start: nat, count: nat) returns (r: Result<nat>)
      requires Valid() && count <= MAX_UINT
      modifies this`budgetRemaining
      ensures Valid() && SlotsLeft() <= old(SlotsLeft())
      ensures var c := InlineN(buf, start, count);
              && (r.Ok? <==> c.Some? && c.value.slots <= old(SlotsLeft()))
              && (r.Ok? ==> r.value == c.value.next && SlotsLeft() == old(SlotsLeft()) - c.value.slots)
    {
      hide StrictToken, PlainToken, InlineN;
      ghost var whole := InlineN(buf, start, count);
      ghost var used: nat := 0;
      var offset: nat, numberToSkip: nat := start, count;
      while numberToSkip > 0
        invariant Valid() && numberToSkip <= MAX_UINT && SlotsLeft() + used == old(SlotsLeft())
        invariant whole == AddSlots(InlineN(buf, offset, numberToSkip), used)
        decreases |buf| - offset, numberToSkip
      {
        InlineToken(buf, offset, numberToSkip);
        var token := CrossToken(offset);
        if token.Err? { return Err(token.error); }
        if token.value.children > MAX_UINT - numberToSkip { return Err(Malformed); }
        numberToSkip, used := numberToSkip + token.value.children - 1, used + token.value.children;
        offset := token.value.next;
      }
      InlineZero(buf, offset);
      return Ok(offset);
    }

    /** One header of the skip: compact headers are read inline, and a container's children are reserved at once. */
    method CrossToken(offset: nat) returns (r: Result<Token>)
      requires Valid()
      modifies this`budgetRemaining
      ensures Valid() && SlotsLeft() <= old(SlotsLeft())
      ensures var token := StrictToken(buf, offset);
              && (r.Ok? <==> token.Some? && token.value.children <= old(SlotsLeft()))
              && (r.Ok? ==> r.value == token.value && SlotsLeft() == old(SlotsLeft()) - token.value.children)
    {
      hide DecodeCtrl, PlainToken, ScalarEnd;
      if offset >= |buf| {
        NothingThere(buf, offset);
        return Err(Malformed);
      }
      CompactHeader(buf, offset);
      var kind: nat, size: nat, data: nat := At(buf, offset) / 32, At(buf, offset) % 32, offset + 1;
      if kind == KIND_EXTENDED || (kind != KIND_POINTER && size >= 29) {
        var ctrl := DecodeCtrl(buf, offset);
        if ctrl.None? { return Err(Malformed); }
        kind, size, data := ctrl.value.kind, ctrl.value.size, ctrl.value.data;
      }
      if kind == KIND_POINTER {
        if !HasBufferRange(|buf|, data, PointerSize(size)) { return Err(Malformed); }
        return Ok(Token(data + PointerSize(size), 0));
      }
      if kind == KIND_MAP || kind == KIND_SLICE {
        var ok := ReserveContainer(kind == KIND_MAP, size);
        if !ok { return Err(TooLarge); }
        return Ok(Token(data, Children(kind, size)));
      }
      match ScalarEnd(buf, kind, size, data)
      case None => return Err(Malformed);
      case Some(end) => return Ok(Token(end, 0));
    }
  }

  /** A fresh decode at `offset` can succeed: the value parses and its unfolded cost is within both limits. */
  ghost predicate Decodes(buf: seq<byte>, offset: nat) {
    var p := Parse(buf, offset, 0, false);
    p.Some? && Slots(p.value.value) <= SLOT_BUDGET && Payload(p.value.value) <= PAYLOAD_BUDGET
  }

  /**
   * Decode into `any` with a fresh decoder: succeeds exactly on what decodes, gives that value, and fails only for
   * an exhausted budget or the depth limit on a value the structural validator accepts.
   */
  method DecodeFresh(buf: seq<byte>, offset: nat) returns (r: Result<Parsed>)
    requires |buf| <= MAX_LEN
    ensures r.Ok? <==> Decodes(buf, offset)
    ensures r.Ok? ==> Parse(buf, offset, 0, false) == Some(r.value) && Skip(buf, offset) == Some(r.value.next)
    ensures CheckValue(buf, offset, 0, false).Some? ==> OnlyLimits(r)
  {
    hide Parse, Skip, CheckValue, Slots, Payload;
    var d := new BudgetedDecoder(buf);
    r := d.DecodeAny(offset, 0);
    if r.Ok? { ParseAgrees(buf, offset, 0, false); }
  }
}
