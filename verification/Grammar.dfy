/**
 * The unfolded meaning of a data section: what a value decodes to, what the structural validator accepts, what the
 * budgeted skip crosses, and that all of them agree on where a value ends (reflection.go).
 */
module Grammar {
  import opened Core
  import opened Format
  import opened Values

  const MAX_DEPTH: nat := 512
  const PREFLIGHT_COUNT: nat := 1024

  function Remaining(depth: nat): nat {
    if depth <= MAX_DEPTH + 1 then MAX_DEPTH + 2 - depth else 0
  }

  /** The value at `offset` is encoded as a pointer. */
  predicate IsPointerAt(buf: seq<byte>, offset: nat) {
    var ctrl := DecodeCtrl(buf, offset);
    ctrl.Some? && ctrl.value.kind == KIND_POINTER
  }

  // ---- Dynamic decoding without budgets ----

  datatype Parsed = Parsed(value: Value, next: nat)
  datatype Contents = Contents(entries: seq<Entry>, next: nat)

  /**
   * The value at `offset`, pointers unfolded, when nesting stays within the depth limit. `strict` holds inside a
   * container large enough to be preflighted: there a pointer key also needs one level of depth.
   */
  function Parse(buf: seq<byte>, offset: nat, depth: nat, strict: bool): (r: Option<Parsed>)
    decreases Remaining(depth), 0
  {
    if depth > MAX_DEPTH then None else
    match DecodeCtrl(buf, offset)
    case None => None
    case Some(Ctrl(kind, size, data)) =>
      if kind == KIND_POINTER then
        match DecodePointer(buf, size, data)
        case None => None
        case Some((target, end)) =>
          if IsPointerAt(buf, target) then None else
          match Parse(buf, target, depth + 1, strict)
          case None => None
          case Some(p) => Some(Parsed(p.value, end))
      else if IsContainer(kind) then
        match ParseContents(buf, kind == KIND_MAP, data, size, depth + 1, strict || Children(kind, size) >= PREFLIGHT_COUNT)
        case None => None
        case Some(c) => Some(Parsed(Container(kind == KIND_MAP, c.entries), c.next))
      else
        match ScalarEnd(buf, kind, size, data)
        case None => None
        case Some(end) => Some(Parsed(ScalarValue(kind, size, if kind == KIND_BOOL then [] else buf[data..end]), end))
  }

  function ParseKey(buf: seq<byte>, isMap: bool, offset: nat, depth: nat, strict: bool): (r: Option<StringAt>)
    ensures r.Some? && isMap ==> r == ResolveString(buf, offset)
  {
    if !isMap then Some(StringAt([], 0, offset))
    else if strict && depth >= MAX_DEPTH && IsPointerAt(buf, offset) then None
    else ResolveString(buf, offset)
  }

  /** `n` consecutive entries: a key and a value for maps, a value for slices. */
  function ParseContents(buf: seq<byte>, isMap: bool, offset: nat, n: nat, depth: nat, strict: bool): (r: Option<Contents>)
    ensures r.Some? ==> |r.value.entries| == n
    decreases Remaining(depth), n + 1
  {
    if n == 0 then Some(Contents([], offset)) else
    match ParseKey(buf, isMap, offset, depth, strict)
    case None => None
    case Some(key) =>
      match Parse(buf, key.next, depth, strict)
      case None => None
      case Some(p) =>
        match ParseContents(buf, isMap, p.next, n - 1, depth, strict)
        case None => None
        case Some(rest) => Some(Contents([Entry(key.bytes, p.value)] + rest.entries, rest.next))
  }

  // ---- Structural validation without its budget ----

  /** Where an accepted value ends and how many child slots the validator reserves for it. */
  datatype Checked = Checked(next: nat, slots: nat)

  function CheckValue(buf: seq<byte>, offset: nat, depth: nat, requireString: bool): (r: Option<Checked>)
    decreases Remaining(depth), 0
  {
    if depth > MAX_DEPTH then None else
    match DecodeCtrl(buf, offset)
    case None => None
    case Some(Ctrl(kind, size, data)) =>
      if kind == KIND_POINTER then
        match DecodePointer(buf, size, data)
        case None => None
        case Some((target, end)) =>
          if DecodeCtrl(buf, target).None? || IsPointerAt(buf, target) then None else
          match CheckValue(buf, target, depth + 1, requireString)
          case None => None
          case Some(c) => Some(Checked(end, c.slots))
      else if requireString && kind != KIND_STRING then None
      else if IsContainer(kind) then
        match CheckEntries(buf, kind == KIND_MAP, data, size, depth + 1)
        case None => None
        case Some(c) => Some(Checked(c.next, Children(kind, size) + c.slots))
      else
        match ScalarEnd(buf, kind, size, data)
        case None => None
        case Some(end) => Some(Checked(end, 0))
  }

  /** The inline key shape of the validator: a compact string that fits. */
  function FastKey(buf: seq<byte>, offset: nat): Option<nat> {
    if offset < |buf| && At(buf, offset) / 32 == KIND_STRING && At(buf, offset) % 32 < 29
       && HasBufferRange(|buf|, offset + 1, At(buf, offset) % 32)
    then Some(offset + 1 + At(buf, offset) % 32)
    else None
  }

  /** The inline value shapes of the validator: booleans, compact strings and small integers, at any depth. */
  function FastValue(buf: seq<byte>, offset: nat): Option<nat> {
    if offset + 1 < |buf| && At(buf, offset) <= 1 && At(buf, offset + 1) == 7 then Some(offset + 2)
    else if offset >= |buf| then None
    else
      var kind, size := At(buf, offset) / 32, At(buf, offset) % 32;
      var valid := || (kind == KIND_STRING && size < 29)
                   || (kind == KIND_UINT16 && size <= 2)
                   || (kind == KIND_UINT32 && size <= 4);
      if valid && HasBufferRange(|buf|, offset + 1, size) then Some(offset + 1 + size) else None
  }

  function CheckKey(buf: seq<byte>, isMap: bool, offset: nat, depth: nat): Option<Checked>
    decreases Remaining(depth), 1
  {
    if !isMap then Some(Checked(offset, 0))
    else match FastKey(buf, offset)
         case Some(next) => Some(Checked(next, 0))
         case None => CheckValue(buf, offset, depth, true)
  }

  function CheckItem(buf: seq<byte>, offset: nat, depth: nat): Option<Checked>
    decreases Remaining(depth), 1
  {
    match FastValue(buf, offset)
    case Some(next) => Some(Checked(next, 0))
    case None => CheckValue(buf, offset, depth, false)
  }

  /** The loop of validateContainerContents; the container's own slots are charged by the caller. */
  function CheckEntries(buf: seq<byte>, isMap: bool, offset: nat, n: nat, depth: nat): (r: Option<Checked>)
    decreases Remaining(depth), n + 2
  {
    if n == 0 then Some(Checked(offset, 0)) else
    match CheckKey(buf, isMap, offset, depth)
    case None => None
    case Some(key) =>
      match CheckItem(buf, key.next, depth)
      case None => None
      case Some(item) =>
        match CheckEntries(buf, isMap, item.next, n - 1, depth)
        case None => None
        case Some(rest) => Some(Checked(rest.next, key.slots + item.slots + rest.slots))
  }

  lemma EntriesStep(buf: seq<byte>, isMap: bool, offset: nat, n: nat, depth: nat)
    requires n > 0
    ensures CheckEntries(buf, isMap, offset, n, depth)
            == match CheckKey(buf, isMap, offset, depth) {
                 case None => None
                 case Some(key) =>
                   match CheckItem(buf, key.next, depth)
                   case None => None
                   case Some(item) =>
                     AddSlots(CheckEntries(buf, isMap, item.next, n - 1, depth), key.slots + item.slots)
               }
  {
    hide CheckKey, CheckItem;
  }

  // ---- Budgeted skip without its budget ----

  function AddSlots(r: Option<Checked>, slots: nat): Option<Checked> {
    match r
    case None => None
    case Some(c) => Some(Checked(c.next, slots + c.slots))
  }

  /** `n` values skipped inline: the end offset and the child slots of the inline containers crossed. */
  function InlineN(buf: seq<byte>, offset: nat, n: nat): (r: Option<Checked>)
    ensures r.Some? ==> offset + n <= r.value.next
    ensures r.Some? && n > 0 ==> r.value.next <= |buf|
    decreases |buf| - offset, n
  {
    if n == 0 then Some(Checked(offset, 0))
    else match StrictToken(buf, offset)
         case None => None
         case Some(Token(next, children)) =>
           match InlineN(buf, next, children)
           case None => None
           case Some(c) => AddSlots(InlineN(buf, c.next, n - 1), children + c.slots)
  }

  /** Whatever the budgeted skip crosses, the plain skip crosses to the same offset. */
  lemma {:induction false} InlineAgrees(buf: seq<byte>, offset: nat, n: nat)
    requires InlineN(buf, offset, n).Some?
    ensures SkipN(buf, offset, n) == Some(InlineN(buf, offset, n).value.next)
    decreases |buf| - offset, n
  {
    hide StrictToken, PlainToken;
    if n > 0 {
      var Token(next, children) := StrictToken(buf, offset).value;
      InlineAgrees(buf, next, children);
      InlineAgrees(buf, InlineN(buf, next, children).value.next, n - 1);
    }
  }

  lemma InlineFirst(buf: seq<byte>, offset: nat, n: nat)
    requires n > 0
    ensures InlineN(buf, offset, n)
            == var token := StrictToken(buf, offset);
               if token.None? then None
               else
                 var inner := InlineN(buf, token.value.next, token.value.children);
                 if inner.None? then None
                 else AddSlots(InlineN(buf, inner.value.next, n - 1), token.value.children + inner.value.slots)
  {
    hide StrictToken, PlainToken, AddSlots;
  }

  lemma {:induction false} InlineComposes(buf: seq<byte>, offset: nat, a: nat, b: nat)
    ensures InlineN(buf, offset, a + b)
            == match InlineN(buf, offset, a) { case None => None case Some(c) => AddSlots(InlineN(buf, c.next, b), c.slots) }
    decreases |buf| - offset, a
  {
    hide InlineN, StrictToken, PlainToken;
    if a == 0 {
      InlineZero(buf, offset);
    } else {
      InlineFirst(buf, offset, a);
      InlineFirst(buf, offset, a + b);
      var token := StrictToken(buf, offset);
      if token.Some? {
        var inner := InlineN(buf, token.value.next, token.value.children);
        if inner.Some? {
          InlineComposes(buf, inner.value.next, a - 1, b);
        }
      }
    }
  }

  lemma InlineToken(buf: seq<byte>, offset: nat, n: nat)
    requires n > 0
    ensures InlineN(buf, offset, n)
            == match StrictToken(buf, offset) {
                 case None => None
                 case Some(t) => AddSlots(InlineN(buf, t.next, t.children + n - 1), t.children)
               }
  {
    hide StrictToken, PlainToken;
    match StrictToken(buf, offset)
    case None =>
    case Some(t) => InlineComposes(buf, t.next, t.children, n - 1);
  }

  // ---- The walkers agree ----

  function PerEntry(isMap: bool): nat {
    if isMap then 2 else 1
  }

  lemma SkipTwo(buf: seq<byte>, offset: nat, isMap: bool, key: nat, next: nat, n: nat)
    requires if isMap then Skip(buf, offset) == Some(key) else key == offset
    requires Skip(buf, key) == Some(next)
    ensures SkipN(buf, offset, PerEntry(isMap) * (n + 1)) == SkipN(buf, next, PerEntry(isMap) * n)
  {
    hide PlainToken, SkipN;
    if isMap {
      SkipComposes(buf, offset, 1, 2 * n + 1);
    }
    SkipComposes(buf, key, 1, PerEntry(isMap) * n);
  }

  lemma SkipContainer(buf: seq<byte>, offset: nat)
    requires DecodeCtrl(buf, offset).Some? && IsContainer(DecodeCtrl(buf, offset).value.kind)
    ensures var Ctrl(kind, size, data) := DecodeCtrl(buf, offset).value;
            Skip(buf, offset) == SkipN(buf, data, PerEntry(kind == KIND_MAP) * size)
  {
    hide DecodeCtrl;
    SkipToken(buf, offset, 1);
  }

  /** Whatever decodes ends where the plain skip ends. */
  lemma {:induction false} ParseAgrees(buf: seq<byte>, offset: nat, depth: nat, strict: bool)
    requires Parse(buf, offset, depth, strict).Some?
    ensures Skip(buf, offset) == Some(Parse(buf, offset, depth, strict).value.next)
    decreases Remaining(depth), 0
  {
    hide DecodeCtrl;
    var Ctrl(kind, size, data) := DecodeCtrl(buf, offset).value;
    SkipToken(buf, offset, 1);
    if IsContainer(kind) {
      SkipContainer(buf, offset);
      ContentsAgree(buf, kind == KIND_MAP, data, size, depth + 1, strict || Children(kind, size) >= PREFLIGHT_COUNT);
    }
  }

  lemma {:induction false} ContentsAgree(buf: seq<byte>, isMap: bool, offset: nat, n: nat, depth: nat, strict: bool)
    requires ParseContents(buf, isMap, offset, n, depth, strict).Some?
    ensures SkipN(buf, offset, PerEntry(isMap) * n) == Some(ParseContents(buf, isMap, offset, n, depth, strict).value.next)
    decreases Remaining(depth), n + 1
  {
    hide DecodeCtrl, ResolveString, PlainToken, Parse, SkipN;
    if n == 0 {
      SkipZero(buf, offset);
    } else {
      var key := ParseKey(buf, isMap, offset, depth, strict).value;
      var p := Parse(buf, key.next, depth, strict).value;
      if isMap { StringEndsAtSkip(buf, offset); }
      ParseAgrees(buf, key.next, depth, strict);
      SkipTwo(buf, offset, isMap, key.next, p.next, n - 1);
      ContentsAgree(buf, isMap, p.next, n - 1, depth, strict);
    }
  }

  lemma FastKeyIsString(buf: seq<byte>, offset: nat)
    requires FastKey(buf, offset).Some?
    ensures DecodeCtrl(buf, offset) == Some(Ctrl(KIND_STRING, At(buf, offset) % 32, offset + 1))
    ensures FastKey(buf, offset).value == offset + 1 + At(buf, offset) % 32 <= |buf| && At(buf, offset) % 32 < 29
    ensures Skip(buf, offset) == FastKey(buf, offset)
  {
    SkipToken(buf, offset, 1);
  }

  /** The inline value shapes are scalars with a valid size. */
  lemma FastValueIsScalar(buf: seq<byte>, offset: nat)
    requires FastValue(buf, offset).Some?
    ensures DecodeCtrl(buf, offset).Some?
    ensures var Ctrl(kind, size, data) := DecodeCtrl(buf, offset).value;
            kind != KIND_POINTER && !IsContainer(kind) && ScalarEnd(buf, kind, size, data) == FastValue(buf, offset)
    ensures Skip(buf, offset) == FastValue(buf, offset)
  {
    SkipToken(buf, offset, 1);
  }

  /** Whatever the validator accepts ends where the plain skip ends. */
  lemma {:induction false} CheckAgrees(buf: seq<byte>, offset: nat, depth: nat, requireString: bool)
    requires CheckValue(buf, offset, depth, requireString).Some?
    ensures Skip(buf, offset) == Some(CheckValue(buf, offset, depth, requireString).value.next)
    decreases Remaining(depth), 0
  {
    hide DecodeCtrl;
    var Ctrl(kind, size, data) := DecodeCtrl(buf, offset).value;
    SkipToken(buf, offset, 1);
    if IsContainer(kind) {
      SkipContainer(buf, offset);
      EntriesAgree(buf, kind == KIND_MAP, data, size, depth + 1);
    }
  }

  lemma {:induction false} CheckedKeyEnds(buf: seq<byte>, offset: nat, depth: nat)
    requires CheckKey(buf, true, offset, depth).Some?
    ensures Skip(buf, offset) == Some(CheckKey(buf, true, offset, depth).value.next)
    decreases Remaining(depth), 1
  {
    hide DecodeCtrl, FastKey;
    if FastKey(buf, offset).Some? {
      FastKeyIsString(buf, offset);
    } else {
      CheckAgrees(buf, offset, depth, true);
    }
  }

  /** An accepted item of a container, inline shapes included, ends where the plain skip ends. */
  lemma {:induction false} CheckedItem(buf: seq<byte>, offset: nat, depth: nat)
    requires CheckItem(buf, offset, depth).Some?
    ensures depth <= MAX_DEPTH ==> CheckValue(buf, offset, depth, false) == CheckItem(buf, offset, depth)
    ensures Skip(buf, offset) == Some(CheckItem(buf, offset, depth).value.next)
    decreases Remaining(depth), 1
  {
    hide DecodeCtrl, FastValue;
    if FastValue(buf, offset).Some? {
      FastValueIsScalar(buf, offset);
    } else {
      CheckAgrees(buf, offset, depth, false);
    }
  }

  lemma {:induction false} EntriesAgree(buf: seq<byte>, isMap: bool, offset: nat, n: nat, depth: nat)
    requires CheckEntries(buf, isMap, offset, n, depth).Some?
    ensures SkipN(buf, offset, PerEntry(isMap) * n) == Some(CheckEntries(buf, isMap, offset, n, depth).value.next)
    decreases Remaining(depth), n + 2
  {
    hide CheckItem, CheckValue, FastKey, SkipN;
    if n == 0 {
      SkipZero(buf, offset);
    } else {
      var key := CheckKey(buf, isMap, offset, depth).value;
      var item := CheckItem(buf, key.next, depth).value;
      if isMap { CheckedKeyEnds(buf, offset, depth); }
      CheckedItem(buf, key.next, depth);
      SkipTwo(buf, offset, isMap, key.next, item.next, n - 1);
      EntriesAgree(buf, isMap, item.next, n - 1, depth);
    }
  }

  // ---- How the meanings relate ----

  /** A key that resolves passes the validator, unless it is a pointer at the depth limit. */
  lemma KeyChecks(buf: seq<byte>, offset: nat, depth: nat)
    requires ResolveString(buf, offset).Some? && depth <= MAX_DEPTH
    requires !(depth >= MAX_DEPTH && IsPointerAt(buf, offset))
    ensures CheckValue(buf, offset, depth, true) == Some(Checked(ResolveString(buf, offset).value.next, 0))
  {
    hide DecodeCtrl;
  }

  /** What decodes under the strict rule is accepted by the validator, which reserves exactly its slots. */
  lemma {:induction false} CheckComplete(buf: seq<byte>, offset: nat, depth: nat)
    requires Parse(buf, offset, depth, true).Some?
    ensures var p := Parse(buf, offset, depth, true).value;
            CheckValue(buf, offset, depth, false) == Some(Checked(p.next, Slots(p.value)))
    decreases Remaining(depth), 0
  {
    hide DecodeCtrl, ParseContents, CheckEntries, SlotsOf, ScalarValue, ScalarEnd;
    var Ctrl(kind, size, data) := DecodeCtrl(buf, offset).value;
    if kind == KIND_POINTER {
      CheckComplete(buf, DecodePointer(buf, size, data).value.0, depth + 1);
    } else if IsContainer(kind) {
      EntriesComplete(buf, kind == KIND_MAP, data, size, depth + 1);
    }
  }

  lemma {:induction false} EntriesComplete(buf: seq<byte>, isMap: bool, offset: nat, n: nat, depth: nat)
    requires ParseContents(buf, isMap, offset, n, depth, true).Some?
    ensures var c := ParseContents(buf, isMap, offset, n, depth, true).value;
            CheckEntries(buf, isMap, offset, n, depth) == Some(Checked(c.next, SlotsOf(c.entries)))
    decreases Remaining(depth), n + 1
  {
    hide ParseContents, CheckEntries, ParseKey, CheckKey, CheckItem, CheckValue, Parse, Slots;
    if n == 0 {
      NoContents(buf, isMap, offset, depth, true);
      NoEntries(buf, isMap, offset, depth);
    } else {
      ContentsHead(buf, isMap, offset, n, depth, true);
      var key := ParseKey(buf, isMap, offset, depth, true).value;
      ParseWithinDepth(buf, key.next, depth, true);
      KeyComplete(buf, isMap, offset, depth);
      CheckComplete(buf, key.next, depth);
      ItemComplete(buf, key.next, depth);
      EntriesComplete(buf, isMap, Parse(buf, key.next, depth, true).value.next, n - 1, depth);
      EntriesStep(buf, isMap, offset, n, depth);
    }
  }

  lemma NoEntries(buf: seq<byte>, isMap: bool, offset: nat, depth: nat)
    ensures CheckEntries(buf, isMap, offset, 0, depth) == Some(Checked(offset, 0))
  {
  }

  lemma KeyComplete(buf: seq<byte>, isMap: bool, offset: nat, depth: nat)
    requires ParseKey(buf, isMap, offset, depth, true).Some? && depth <= MAX_DEPTH
    ensures CheckKey(buf, isMap, offset, depth) == Some(Checked(ParseKey(buf, isMap, offset, depth, true).value.next, 0))
  {
    hide DecodeCtrl;
    if isMap {
      if FastKey(buf, offset).Some? { FastKeyIsString(buf, offset); } else { KeyChecks(buf, offset, depth); }
    }
  }

  lemma ItemComplete(buf: seq<byte>, offset: nat, depth: nat)
    requires Parse(buf, offset, depth, true).Some?
    requires var p := Parse(buf, offset, depth, true).value;
             CheckValue(buf, offset, depth, false) == Some(Checked(p.next, Slots(p.value)))
    ensures CheckItem(buf, offset, depth) == CheckValue(buf, offset, depth, false)
  {
    hide DecodeCtrl, FastValue;
    if FastValue(buf, offset).Some? { FastValueIsScalar(buf, offset); }
  }

  /** Decoding less deep, or under the laxer rule, gives the same value. */
  lemma {:induction false} ParseMonotone(buf: seq<byte>, offset: nat, depth: nat, strict: bool, depth': nat, strict': bool)
    requires Parse(buf, offset, depth, strict).Some? && depth' <= depth && (strict' ==> strict)
    ensures Parse(buf, offset, depth', strict') == Parse(buf, offset, depth, strict)
    decreases Remaining(depth), 0
  {
    hide DecodeCtrl, ParseContents, ScalarValue, ScalarEnd;
    var Ctrl(kind, size, data) := DecodeCtrl(buf, offset).value;
    if kind == KIND_POINTER {
      ParseMonotone(buf, DecodePointer(buf, size, data).value.0, depth + 1, strict, depth' + 1, strict');
    } else if IsContainer(kind) {
      var large := Children(kind, size) >= PREFLIGHT_COUNT;
      ContentsMonotone(buf, kind == KIND_MAP, data, size, depth + 1, strict || large, depth' + 1, strict' || large);
    }
  }

  lemma {:induction false} ContentsMonotone(
    buf: seq<byte>, isMap: bool, offset: nat, n: nat, depth: nat, strict: bool, depth': nat, strict': bool)
    requires ParseContents(buf, isMap, offset, n, depth, strict).Some? && depth' <= depth && (strict' ==> strict)
    ensures ParseContents(buf, isMap, offset, n, depth', strict') == ParseContents(buf, isMap, offset, n, depth, strict)
    decreases Remaining(depth), n + 1
  {
    hide DecodeCtrl, ResolveString;
    if n > 0 {
      var key := ParseKey(buf, isMap, offset, depth, strict).value;
      ParseMonotone(buf, key.next, depth, strict, depth', strict');
      ContentsMonotone(buf, isMap, Parse(buf, key.next, depth, strict).value.next, n - 1, depth, strict, depth', strict');
    }
  }

  function Prepend(es: seq<Entry>, rest: Option<Contents>): Option<Contents> {
    match rest
    case None => None
    case Some(c) => Some(Contents(es + c.entries, c.next))
  }

  /** A run of entries is its first entry followed by the rest. */
  lemma ContentsCons(buf: seq<byte>, isMap: bool, offset: nat, n: nat, depth: nat, strict: bool)
    requires n > 0 && ParseKey(buf, isMap, offset, depth, strict).Some?
    requires Parse(buf, ParseKey(buf, isMap, offset, depth, strict).value.next, depth, strict).Some?
    ensures var key := ParseKey(buf, isMap, offset, depth, strict).value;
            var p := Parse(buf, key.next, depth, strict).value;
            ParseContents(buf, isMap, offset, n, depth, strict)
            == Prepend([Entry(key.bytes, p.value)], ParseContents(buf, isMap, p.next, n - 1, depth, strict))
  {
    hide Parse, ParseKey;
  }

  lemma ContentsParts(buf: seq<byte>, isMap: bool, offset: nat, n: nat, depth: nat, strict: bool)
    requires n > 0 && ParseContents(buf, isMap, offset, n, depth, strict).Some?
    ensures ParseKey(buf, isMap, offset, depth, strict).Some?
    ensures Parse(buf, ParseKey(buf, isMap, offset, depth, strict).value.next, depth, strict).Some?
  {
    hide Parse, ParseKey;
  }

  /** Decoding a run of entries is decoding its first `i` and then the rest. */
  lemma {:induction false} ContentsSplit(buf: seq<byte>, isMap: bool, offset: nat, n: nat, depth: nat, strict: bool, i: nat)
    requires ParseContents(buf, isMap, offset, n, depth, strict).Some? && i <= n
    ensures var c := ParseContents(buf, isMap, offset, n, depth, strict).value;
            var head := ParseContents(buf, isMap, offset, i, depth, strict);
            && head.Some? && head.value.entries == c.entries[..i]
            && ParseContents(buf, isMap, head.value.next, n - i, depth, strict) == Some(Contents(c.entries[i..], c.next))
    decreases i
  {
    hide Parse, ParseKey, ParseContents, ResolveString;
    var c := ParseContents(buf, isMap, offset, n, depth, strict).value;
    if i == 0 {
      NoContents(buf, isMap, offset, depth, strict);
      assert c.entries[0..] == c.entries;
    } else {
      ContentsParts(buf, isMap, offset, n, depth, strict);
      ContentsCons(buf, isMap, offset, n, depth, strict);
      ContentsCons(buf, isMap, offset, i, depth, strict);
      var key := ParseKey(buf, isMap, offset, depth, strict).value;
      var p := Parse(buf, key.next, depth, strict).value;
      ContentsSplit(buf, isMap, p.next, n - 1, depth, strict, i - 1);
      var rest := ParseContents(buf, isMap, p.next, n - 1, depth, strict).value.entries;
      assert c.entries == [c.entries[0]] + rest;
      assert c.entries[..i] == [c.entries[0]] + rest[..i - 1];
      assert c.entries[i..] == rest[i - 1..];
    }
  }

  lemma NoContents(buf: seq<byte>, isMap: bool, offset: nat, depth: nat, strict: bool)
    ensures ParseContents(buf, isMap, offset, 0, depth, strict) == Some(Contents([], offset))
  {
  }

  /** Skipping a value that decodes crosses inline containers only: never more slots than the value unfolds to. */
  lemma {:induction false} InlineBounded(buf: seq<byte>, offset: nat, depth: nat, strict: bool)
    requires Parse(buf, offset, depth, strict).Some?
    ensures var p := Parse(buf, offset, depth, strict).value;
            var c := InlineN(buf, offset, 1);
            c.Some? && c.value.next == p.next && c.value.slots <= Slots(p.value)
    decreases Remaining(depth), 0
  {
    hide DecodeCtrl, PlainToken, InlineN, ParseContents, SlotsOf, ScalarValue, ScalarEnd;
    InlineToken(buf, offset, 1);
    var Ctrl(kind, size, data) := DecodeCtrl(buf, offset).value;
    InlineZero(buf, Parse(buf, offset, depth, strict).value.next);
    if IsContainer(kind) {
      InlineContents(buf, kind == KIND_MAP, data, size, depth + 1, strict || Children(kind, size) >= PREFLIGHT_COUNT);
    }
  }

  lemma {:induction false} InlineContents(buf: seq<byte>, isMap: bool, offset: nat, n: nat, depth: nat, strict: bool)
    requires ParseContents(buf, isMap, offset, n, depth, strict).Some?
    ensures var p := ParseContents(buf, isMap, offset, n, depth, strict).value;
            var c := InlineN(buf, offset, PerEntry(isMap) * n);
            c.Some? && c.value.next == p.next && c.value.slots <= SlotsOf(p.entries)
    decreases Remaining(depth), n + 1
  {
    hide ResolveString, InlineN, Slots, Payload, PayloadOf, Parse, ParseContents;
    if n == 0 {
      NoContents(buf, isMap, offset, depth, strict);
      InlineZero(buf, offset);
    } else {
      ContentsHead(buf, isMap, offset, n, depth, strict);
      var key := ParseKey(buf, isMap, offset, depth, strict).value;
      var p := Parse(buf, key.next, depth, strict).value;
      if isMap {
        InlineKey(buf, offset);
        InlineComposes(buf, offset, 1, 2 * n - 1);
      }
      InlineBounded(buf, key.next, depth, strict);
      InlineComposes(buf, key.next, 1, PerEntry(isMap) * (n - 1));
      InlineContents(buf, isMap, p.next, n - 1, depth, strict);
    }
  }

  lemma InlineZero(buf: seq<byte>, offset: nat)
    ensures InlineN(buf, offset, 0) == Some(Checked(offset, 0))
  {
  }

  lemma InlineKey(buf: seq<byte>, offset: nat)
    requires ResolveString(buf, offset).Some?
    ensures InlineN(buf, offset, 1) == Some(Checked(ResolveString(buf, offset).value.next, 0))
  {
    hide DecodeCtrl;
    InlineToken(buf, offset, 1);
    InlineZero(buf, ResolveString(buf, offset).value.next);
    StringEndsAtSkip(buf, offset);
    SkipToken(buf, offset, 1);
  }

  /** A key the validator accepts resolves to a string ending where the validator says. */
  lemma CheckedKeyResolves(buf: seq<byte>, offset: nat, depth: nat)
    requires CheckKey(buf, true, offset, depth).Some?
    ensures ResolveString(buf, offset).Some?
    ensures ResolveString(buf, offset).value.next == CheckKey(buf, true, offset, depth).value.next
    ensures IsPointerAt(buf, offset) ==> depth < MAX_DEPTH
  {
    hide DecodeCtrl, FastKey;
    if FastKey(buf, offset).Some? {
      FastKeyIsString(buf, offset);
    } else {
      HeaderFits(buf, offset);
      var ctrl := DecodeCtrl(buf, offset).value;
      if ctrl.kind == KIND_POINTER {
        var target := DecodePointer(buf, ctrl.size, ctrl.data).value.0;
        HeaderFits(buf, target);
        assert CheckValue(buf, target, depth + 1, true).Some?;
        assert ScalarEnd(buf, KIND_STRING, DecodeCtrl(buf, target).value.size, DecodeCtrl(buf, target).value.data).Some?;
      }
    }
  }

  /** The header of a directly encoded string is at least as long as its size calls for. */
  lemma HeaderFits(buf: seq<byte>, offset: nat)
    ensures DecodeCtrl(buf, offset).Some? ==>
              DecodeCtrl(buf, offset).value.kind != KIND_POINTER ==>
                HeaderSize(DecodeCtrl(buf, offset).value.size) <= DecodeCtrl(buf, offset).value.data - offset
  {
  }

  /** A value that decodes and that the validator accepts also decodes under the strict rule. */
  lemma {:induction false} StrictFromCheck(buf: seq<byte>, offset: nat, depth: nat, strict: bool)
    requires Parse(buf, offset, depth, strict).Some? && CheckValue(buf, offset, depth, false).Some?
    ensures Parse(buf, offset, depth, true) == Parse(buf, offset, depth, strict)
    decreases Remaining(depth), 0
  {
    hide DecodeCtrl, ParseContents, CheckEntries, ScalarValue, ScalarEnd;
    var Ctrl(kind, size, data) := DecodeCtrl(buf, offset).value;
    if kind == KIND_POINTER {
      StrictFromCheck(buf, DecodePointer(buf, size, data).value.0, depth + 1, strict);
    } else if IsContainer(kind) {
      ContentsStrict(buf, kind == KIND_MAP, data, size, depth + 1, strict || Children(kind, size) >= PREFLIGHT_COUNT);
    }
  }

  lemma {:induction false} ContentsStrict(buf: seq<byte>, isMap: bool, offset: nat, n: nat, depth: nat, strict: bool)
    requires ParseContents(buf, isMap, offset, n, depth, strict).Some? && CheckEntries(buf, isMap, offset, n, depth).Some?
    ensures ParseContents(buf, isMap, offset, n, depth, true) == ParseContents(buf, isMap, offset, n, depth, strict)
    decreases Remaining(depth), n + 1
  {
    hide DecodeCtrl, ResolveString, CheckKey, CheckItem, SkipN;
    if n > 0 {
      var key := ParseKey(buf, isMap, offset, depth, strict).value;
      var p := Parse(buf, key.next, depth, strict).value;
      CheckedEntry(buf, isMap, offset, depth);
      CheckedItem(buf, key.next, depth);
      ParseAgrees(buf, key.next, depth, strict);
      ParseWithinDepth(buf, key.next, depth, strict);
      StrictFromCheck(buf, key.next, depth, strict);
      ContentsStrict(buf, isMap, p.next, n - 1, depth, strict);
    }
  }

  lemma ParseWithinDepth(buf: seq<byte>, offset: nat, depth: nat, strict: bool)
    requires Parse(buf, offset, depth, strict).Some?
    ensures depth <= MAX_DEPTH
  {
  }

  lemma CheckedEntry(buf: seq<byte>, isMap: bool, offset: nat, depth: nat)
    requires CheckKey(buf, isMap, offset, depth).Some?
    ensures forall strict ::
              && ParseKey(buf, isMap, offset, depth, strict).Some?
              && ParseKey(buf, isMap, offset, depth, strict).value.next == CheckKey(buf, isMap, offset, depth).value.next
    ensures ParseKey(buf, isMap, offset, depth, true) == ParseKey(buf, isMap, offset, depth, false)
  {
    hide DecodeCtrl, ResolveString;
    if isMap { CheckedKeyResolves(buf, offset, depth); }
  }

  /** The costs of a decoded run split off at its first entry. */
  lemma ContentsHead(buf: seq<byte>, isMap: bool, offset: nat, n: nat, depth: nat, strict: bool)
    requires n > 0 && ParseContents(buf, isMap, offset, n, depth, strict).Some?
    ensures ParseKey(buf, isMap, offset, depth, strict).Some?
    ensures Parse(buf, ParseKey(buf, isMap, offset, depth, strict).value.next, depth, strict).Some?
    ensures var key := ParseKey(buf, isMap, offset, depth, strict).value;
            var p := Parse(buf, key.next, depth, strict).value;
            var rest := ParseContents(buf, isMap, p.next, n - 1, depth, strict);
            var c := ParseContents(buf, isMap, offset, n, depth, strict);
            && rest.Some? && c == Prepend([Entry(key.bytes, p.value)], rest)
            && SlotsOf(c.value.entries) == Slots(p.value) + SlotsOf(rest.value.entries)
            && PayloadOf(c.value.entries) == |key.bytes| + Payload(p.value) + PayloadOf(rest.value.entries)
  {
    hide Parse, ParseKey, ParseContents, Slots, Payload;
    ContentsParts(buf, isMap, offset, n, depth, strict);
    ContentsCons(buf, isMap, offset, n, depth, strict);
    var c := ParseContents(buf, isMap, offset, n, depth, strict).value;
    var p := Parse(buf, ParseKey(buf, isMap, offset, depth, strict).value.next, depth, strict).value;
    assert c.entries[1..] == ParseContents(buf, isMap, p.next, n - 1, depth, strict).value.entries;
  }
}
