/** The lock-free string cache under every interleaving of its atomic loads and stores (string_cache.go). */
module StringCache {
  import opened Core
  import opened Format

  const SLOTS: nat := 4096

  // ---- The cache key ----

  /** Control byte that makes a header an extended string: 251 + 7 wraps to kind 2. */
  const WRAPPED_STRING: nat := 251

  /** Where the record of a string starts, seen from its cache offset. */
  lemma RecordOf(buf: seq<byte>, record: nat)
    requires DecodeCtrl(buf, record).Some? && DecodeCtrl(buf, record).value.kind == KIND_STRING
    ensures var Ctrl(_, size, data) := DecodeCtrl(buf, record).value;
            var key := data - HeaderSize(size);
            if At(buf, record) / 32 == KIND_STRING then key == record
            else key == record + 1 < |buf| && At(buf, key) == WRAPPED_STRING
  {
  }

  /** The record a resolved string was read from, directly or through a pointer. */
  lemma ResolvedRecord(buf: seq<byte>, offset: nat) returns (record: nat)
    requires ResolveString(buf, offset).Some?
    ensures DecodeCtrl(buf, record).Some? && DecodeCtrl(buf, record).value.kind == KIND_STRING
    ensures var Ctrl(_, size, data) := DecodeCtrl(buf, record).value;
            var s := ResolveString(buf, offset).value;
            data + size <= |buf| && s.bytes == buf[data..data + size] && s.cacheOffset == data - HeaderSize(size)
  {
    hide DecodeCtrl;
    var Ctrl(kind, size, data) := DecodeCtrl(buf, offset).value;
    record := if kind == KIND_POINTER then DecodePointer(buf, size, data).value.0 else offset;
  }

  /**
   * Over an immutable buffer the cache offset determines the payload, however the string was reached: overlapping
   * encodings and extended kinds that wrap to "string" included.
   */
  lemma CacheOffsetDeterminesPayload(buf: seq<byte>, a: nat, b: nat)
    requires ResolveString(buf, a).Some? && ResolveString(buf, b).Some?
    requires ResolveString(buf, a).value.cacheOffset == ResolveString(buf, b).value.cacheOffset
    ensures ResolveString(buf, a).value.bytes == ResolveString(buf, b).value.bytes
  {
    hide DecodeCtrl, ResolveString;
    var ra := ResolvedRecord(buf, a);
    var rb := ResolvedRecord(buf, b);
    RecordOf(buf, ra);
    RecordOf(buf, rb);
    assert ra == rb;
  }

  predicate ReadsAs(buf: seq<byte>, o: nat, offset: nat, value: seq<byte>) {
    var s := ResolveString(buf, o);
    s.Some? && s.value.bytes == value && s.value.cacheOffset == offset
  }

  /** A call the decoders can make: some string of the buffer with this cache offset has this payload. */
  ghost predicate Genuine(buf: seq<byte>, offset: nat, value: seq<byte>) {
    exists o :: ReadsAs(buf, o, offset, value)
  }

  /** The payload and cache offset of every string record, as decodeString computes them, make a genuine call. */
  lemma StringRecordIsGenuine(buf: seq<byte>, record: nat)
    requires DecodeCtrl(buf, record).Some? && DecodeCtrl(buf, record).value.kind == KIND_STRING
    requires DecodeCtrl(buf, record).value.data + DecodeCtrl(buf, record).value.size <= |buf|
    ensures var Ctrl(_, size, data) := DecodeCtrl(buf, record).value;
            data >= HeaderSize(size) && Genuine(buf, data - HeaderSize(size), buf[data..data + size])
  {
    RecordOf(buf, record);
    hide DecodeCtrl;
    var Ctrl(_, size, data) := DecodeCtrl(buf, record).value;
    assert ReadsAs(buf, record, data - HeaderSize(size), buf[data..data + size]);
  }

  lemma GenuineUnique(buf: seq<byte>, offset: nat, x: seq<byte>, y: seq<byte>)
    requires Genuine(buf, offset, x) && Genuine(buf, offset, y)
    ensures x == y
  {
    hide ResolveString;
    var a :| ReadsAs(buf, a, offset, x);
    var b :| ReadsAs(buf, b, offset, y);
    CacheOffsetDeterminesPayload(buf, a, b);
  }

  // ---- Slots ----

  function Primary(offset: nat): (i: nat)
    ensures i < SLOTS
  {
    offset % SLOTS
  }

  /** stringCacheAlternateIndex; setting the low bit makes the step odd. The 64-bit wrap vanishes modulo 4096. */
  function Alternate(offset: nat): (i: nat)
    ensures i < SLOTS
  {
    (Primary(offset) + SetLowBit(offset / SLOTS * 0x9e37)) % SLOTS
  }

  function SetLowBit(n: nat): (r: nat)
    ensures r % 2 == 1
  {
    if n % 2 == 0 then n + 1 else n
  }

  /** An odd step modulo an even size always leaves the primary slot. */
  lemma AlternateDiffers(offset: nat)
    ensures Alternate(offset) != Primary(offset)
  {
    hide Primary;
    OddStep(Primary(offset), SetLowBit(offset / SLOTS * 0x9e37));
  }

  lemma OddStep(slot: nat, step: nat)
    requires slot < SLOTS && step % 2 == 1
    ensures (slot + step) % SLOTS != slot
  {
    ParityOf(slot + step);
  }

  lemma ParityOf(n: nat)
    ensures n % SLOTS % 2 == n % 2
  {
    var q := n / SLOTS;
    assert n == 2 * (2048 * q) + n % SLOTS;
  }

  // ---- The protocol ----

  datatype CacheEntry = CacheEntry(str: seq<byte>, offset: nat)

  datatype Shared = Shared(entries: map<nat, CacheEntry>, recentMisses: map<nat, nat>)

  /** Program points of internAt between its atomic operations. */
  datatype Point =
    | Entered
    | MissedPrimary
    | MissedBoth
    | Admitting
    | Storing(slot: nat)
    | RecordingMiss
    | Returned(result: seq<byte>)

  datatype Call = Call(offset: nat, value: seq<byte>, point: Point)

  datatype State = State(shared: Shared, calls: map<nat, Call>)

  predicate Hit(shared: Shared, slot: nat, offset: nat) {
    slot in shared.entries && shared.entries[slot].offset == offset
  }

  predicate Cacheable(value: seq<byte>) {
    2 <= |value| <= 100
  }

  /** One atomic step of one call: the new shared state and the next program point. */
  function Step(shared: Shared, call: Call): (Shared, Point) {
    var Call(offset, value, point) := call;
    match point
    case Entered =>
      if !Cacheable(value) then (shared, Returned(value))
      else if Hit(shared, Primary(offset), offset) then (shared, Returned(shared.entries[Primary(offset)].str))
      else (shared, MissedPrimary)
    case MissedPrimary =>
      if Hit(shared, Alternate(offset), offset) then (shared, Returned(shared.entries[Alternate(offset)].str))
      else (shared, MissedBoth)
    case MissedBoth =>
      var seen := Alternate(offset) in shared.recentMisses && shared.recentMisses[Alternate(offset)] == offset + 1;
      (shared, if seen then Admitting else RecordingMiss)
    case Admitting =>
      (shared, Storing(if Primary(offset) in shared.entries then Alternate(offset) else Primary(offset)))
    case Storing(slot) =>
      (shared.(entries := shared.entries[slot := CacheEntry(value, offset)]), Returned(value))
    case RecordingMiss =>
      (shared.(recentMisses := shared.recentMisses[Alternate(offset) := offset + 1]), Returned(value))
    case Returned(_) => (shared, point)
  }

  ghost predicate Next(buf: seq<byte>, s: State, s': State) {
    || (exists id: nat, offset: nat, value :: id !in s.calls && Genuine(buf, offset, value)
                                    && s' == s.(calls := s.calls[id := Call(offset, value, Entered)]))
    || (exists id: nat :: id in s.calls && s' == Advance(s, id))
  }

  function Advance(s: State, id: nat): State
    requires id in s.calls
  {
    var (shared, point) := Step(s.shared, s.calls[id]);
    State(shared, s.calls[id := s.calls[id].(point := point)])
  }

  /** Every cached string is the payload its offset determines, every call is genuine, every result is the argument. */
  ghost predicate Inv(buf: seq<byte>, s: State) {
    && (forall slot :: slot in s.shared.entries ==>
          Genuine(buf, s.shared.entries[slot].offset, s.shared.entries[slot].str))
    && (forall id :: id in s.calls ==> Genuine(buf, s.calls[id].offset, s.calls[id].value))
    && (forall id :: id in s.calls && s.calls[id].point.Returned? ==> s.calls[id].point.result == s.calls[id].value)
  }

  lemma StepKeepsInv(buf: seq<byte>, s: State, id: nat)
    requires Inv(buf, s) && id in s.calls
    ensures Inv(buf, Advance(s, id))
  {
    hide Genuine;
    var call := s.calls[id];
    var s' := Advance(s, id);
    if s'.calls[id].point.Returned? && !call.point.Returned? {
      forall slot | Hit(s.shared, slot, call.offset)
        ensures s.shared.entries[slot].str == call.value
      {
        GenuineUnique(buf, call.offset, s.shared.entries[slot].str, call.value);
      }
    }
  }

  /** In every run from an empty cache, whatever the interleaving, each call that returns gives back its argument. */
  lemma {:induction false} CacheIsTransparent(buf: seq<byte>, run: seq<State>, k: nat)
    requires k < |run| && run[0] == State(Shared(map[], map[]), map[])
    requires forall i :: 0 <= i < |run| - 1 ==> Next(buf, run[i], run[i + 1])
    ensures Inv(buf, run[k])
    ensures forall id :: id in run[k].calls && run[k].calls[id].point.Returned? ==>
              run[k].calls[id].point.result == run[k].calls[id].value
    decreases k
  {
    hide Genuine, Advance;
    if k > 0 {
      CacheIsTransparent(buf, run, k - 1);
      var s, s' := run[k - 1], run[k];
      assert Next(buf, run[k - 1], run[k - 1 + 1]);
      if id :| id in s.calls && s' == Advance(s, id) {
        StepKeepsInv(buf, s, id);
      }
    }
  }

  // ---- What the cache admits ----

  /** Atomic steps a call still has to take at most. */
  function StepsLeft(point: Point): nat {
    match point
    case Entered => 5
    case MissedPrimary => 4
    case MissedBoth => 3
    case Admitting => 2
    case Storing(_) => 1
    case RecordingMiss => 1
    case Returned(_) => 0
  }

  /** No call waits for another: whatever the others do to the shared state, it returns within five steps of its own. */
  lemma NoCallWaits(shared: Shared, call: Call)
    requires !call.point.Returned?
    ensures StepsLeft(Step(shared, call).1) < StepsLeft(call.point)
  {
    hide Hit, Cacheable, Primary, Alternate;
  }

  /** The shared state after a call that runs without interference. */
  function Complete(shared: Shared, call: Call): Shared
    decreases StepsLeft(call.point)
  {
    if call.point.Returned? then shared
    else
      NoCallWaits(shared, call);
      var (after, point) := Step(shared, call);
      Complete(after, call.(point := point))
  }

  predicate Cached(shared: Shared, offset: nat) {
    Hit(shared, Primary(offset), offset) || Hit(shared, Alternate(offset), offset)
  }

  /** A call completes by its first step and the rest. */
  lemma OneStep(shared: Shared, call: Call)
    ensures call.point.Returned? ==> Complete(shared, call) == shared
    ensures var (after, point) := Step(shared, call);
            Complete(shared, call) == Complete(after, call.(point := point))
  {
    hide Step;
    if call.point.Returned? {
      assert Step(shared, call) == (shared, call.point) by { Stays(shared, call); }
    }
  }

  lemma Stays(shared: Shared, call: Call)
    requires call.point.Returned?
    ensures Step(shared, call) == (shared, call.point)
  {
  }

  /** A call for a cached string, or for one of a length the cache refuses, changes nothing. */
  lemma HitsChangeNothing(shared: Shared, offset: nat, value: seq<byte>)
    requires Cached(shared, offset) || !Cacheable(value)
    ensures Complete(shared, Call(offset, value, Entered)) == shared
  {
    hide Complete, Cacheable, Primary, Alternate;
    var call := Call(offset, value, Entered);
    var next := call.(point := Step(shared, call).1);
    OneStep(shared, call);
    OneStep(shared, next);
    OneStep(shared, next.(point := Step(shared, next).1));
  }

  predicate JustMissed(shared: Shared, offset: nat) {
    Alternate(offset) in shared.recentMisses && shared.recentMisses[Alternate(offset)] == offset + 1
  }

  /** The first miss stores no string and is remembered; a miss right after it admits the string. */
  lemma MissOutcome(shared: Shared, offset: nat, value: seq<byte>)
    requires !Cached(shared, offset) && Cacheable(value)
    ensures var after := Complete(shared, Call(offset, value, Entered));
            if JustMissed(shared, offset) then Cached(after, offset)
            else after.entries == shared.entries && JustMissed(after, offset)
  {
    hide Complete, Cacheable, Primary, Alternate;
    var call := Call(offset, value, Entered);
    OneStep(shared, call);
    OneStep(shared, call.(point := MissedPrimary));
    OneStep(shared, call.(point := MissedBoth));
    if JustMissed(shared, offset) {
      var slot := if Primary(offset) in shared.entries then Alternate(offset) else Primary(offset);
      OneStep(shared, call.(point := Admitting));
      OneStep(shared, call.(point := Storing(slot)));
      OneStep(shared.(entries := shared.entries[slot := CacheEntry(value, offset)]), call.(point := Returned(value)));
    } else {
      OneStep(shared, call.(point := RecordingMiss));
      OneStep(shared.(recentMisses := shared.recentMisses[Alternate(offset) := offset + 1]), call.(point := Returned(value)));
    }
  }

  /** Two calls in a row admit a string, whatever the cache held: from then on calls for it hit. */
  lemma SecondCallAdmits(shared: Shared, offset: nat, value: seq<byte>)
    requires Cacheable(value)
    ensures var call := Call(offset, value, Entered); Cached(Complete(Complete(shared, call), call), offset)
  {
    hide Cacheable, Cached, JustMissed, Complete;
    var call := Call(offset, value, Entered);
    var first := Complete(shared, call);
    if Cached(shared, offset) {
      HitsChangeNothing(shared, offset, value);
    } else {
      MissOutcome(shared, offset, value);
      if Cached(first, offset) {
        HitsChangeNothing(first, offset, value);
      } else {
        MissOutcome(first, offset, value);
      }
    }
  }
}
