/** The budgeted structural validator run before large allocations (reflection.go). */
module Validator {
  import opened Core
  import opened Format
  import opened Values
  import opened Grammar

  const SLOT_BUDGET: nat := 32_768

  lemma SliceKey(buf: seq<byte>, offset: nat, depth: nat)
    ensures CheckKey(buf, false, offset, depth) == Some(Checked(offset, 0))
  {
  }

  /** The entry ahead of the loop, whose slots move from what remains to what is spent. */
  lemma EntryCharged(buf: seq<byte>, isMap: bool, offset: nat, n: nat, depth: nat, used: nat)
    requires n > 0
    ensures var here := AddSlots(CheckEntries(buf, isMap, offset, n, depth), used);
            var key := CheckKey(buf, isMap, offset, depth);
            if key.None? then here.None?
            else
              var item := CheckItem(buf, key.value.next, depth);
              && (here.Some? ==> item.Some? && used + key.value.slots + item.value.slots <= here.value.slots)
              && (item.Some? ==>
                    here == AddSlots(CheckEntries(buf, isMap, item.value.next, n - 1, depth),
                                     used + key.value.slots + item.value.slots))
  {
    hide CheckKey, CheckItem, CheckEntries;
    EntriesStep(buf, isMap, offset, n, depth);
  }

  lemma AllCharged(buf: seq<byte>, isMap: bool, offset: nat, depth: nat, used: nat)
    ensures AddSlots(CheckEntries(buf, isMap, offset, 0, depth), used) == Some(Checked(offset, used))
  {
    NoEntries(buf, isMap, offset, depth);
  }

  lemma NothingCharged(r: Option<Checked>)
    ensures AddSlots(r, 0) == r
  {
  }

  /** Every value takes at least one byte, so accepted contents pass the bounds check. */
  lemma CountFits(buf: seq<byte>, isMap: bool, start: nat, size: nat, depth: nat)
    requires start <= |buf| && CheckEntries(buf, isMap, start, size, depth).Some?
    ensures Children(KindFor(isMap), size) <= |buf| - start
  {
    hide CheckEntries, SkipN;
    EntriesAgree(buf, isMap, start, size, depth);
  }

  class StructuralValidator {
    const buf: seq<byte>
    var remaining: nat
    ghost var visits: nat  // values looked at, pointer targets included

    constructor (buf: seq<byte>, allowance: nat)
      ensures this.buf == buf && remaining == allowance && visits == 0
    {
      this.buf := buf;
      remaining, visits := allowance, 0;
    }

    /**
     * Accepts exactly the contents that check and fit the allowance, and then has spent their slots. Contents that
     * check are rejected for size only. The work is at most two visits for each reserved slot, accepted or not.
     */
    method ValidateContainerContents(kind: nat, size: nat, start: nat, depth: nat) returns (r: Result<nat>)
      requires IsContainer(kind) && start <= |buf|
      modifies this
      ensures remaining <= old(remaining) && visits <= old(visits) + 2 * (old(remaining) - remaining)
      ensures var c := CheckEntries(buf, kind == KIND_MAP, start, size, depth);
              && (r.Ok? <==> c.Some? && Children(kind, size) + c.value.slots <= old(remaining))
              && (r.Ok? ==> r.value == c.value.next && remaining == old(remaining) - Children(kind, size) - c.value.slots)
              && (r.Err? && c.Some? ==> r.error == TooLarge)
      decreases Remaining(depth), 2
    {
      hide CheckKey, CheckItem, CheckEntries, AddSlots;
      ghost var isMap := kind == KIND_MAP;
      ghost var whole := CheckEntries(buf, isMap, start, size, depth);
      ghost var cost := Children(kind, size);
      if whole.Some? {
        CountFits(buf, isMap, start, size, depth);
      }
      var valueCount := if kind == KIND_MAP then size * 2 else size;
      if valueCount > |buf| - start { return Err(Malformed); }
      if valueCount > remaining { return Err(TooLarge); }
      remaining := remaining - valueCount;
      var offset := start;
      ghost var used: nat := 0;
      NothingCharged(whole);
      var i := 0;
      while i < size
        invariant i <= size && whole == AddSlots(CheckEntries(buf, isMap, offset, size - i, depth), used)
        invariant cost + used <= old(remaining) && remaining == old(remaining) - cost - used
        invariant visits <= old(visits) + 2 * Children(kind, i) + 2 * used
      {
        EntryCharged(buf, isMap, offset, size - i, depth, used);
        ghost var before := remaining;
        if kind == KIND_MAP {
          var key := ValidateKey(offset, depth);
          if key.Err? { return key; }
          offset := key.value;
        } else {
          SliceKey(buf, offset, depth);
        }
        var item := ValidateItem(offset, depth);
        if item.Err? { return item; }
        offset := item.value;
        used := used + before - remaining;
        i := i + 1;
      }
      AllCharged(buf, isMap, offset, depth, used);
      return Ok(offset);
    }

    /** The key step of the loop: compact direct strings inline, everything else through the full check. */
    method ValidateKey(offset: nat, depth: nat) returns (r: Result<nat>)
      modifies this
      ensures remaining <= old(remaining) && visits <= old(visits) + 2 + 2 * (old(remaining) - remaining)
      ensures var c := CheckKey(buf, true, offset, depth);
              && (r.Ok? <==> c.Some? && c.value.slots <= old(remaining))
              && (r.Ok? ==> r.value == c.value.next && remaining == old(remaining) - c.value.slots)
              && (r.Err? && c.Some? ==> r.error == TooLarge)
      decreases Remaining(depth), 1
    {
      hide CheckValue;
      var fast := FastKey(buf, offset);
      if fast.Some? {
        visits := visits + 1;
        return Ok(fast.value);
      }
      r := ValidateValue(offset, depth, true);
    }

    /** The value step of the loop: booleans, compact strings and small integers inline. */
    method ValidateItem(offset: nat, depth: nat) returns (r: Result<nat>)
      modifies this
      ensures remaining <= old(remaining) && visits <= old(visits) + 2 + 2 * (old(remaining) - remaining)
      ensures var c := CheckItem(buf, offset, depth);
              && (r.Ok? <==> c.Some? && c.value.slots <= old(remaining))
              && (r.Ok? ==> r.value == c.value.next && remaining == old(remaining) - c.value.slots)
              && (r.Err? && c.Some? ==> r.error == TooLarge)
      decreases Remaining(depth), 1
    {
      hide CheckValue;
      var fast := FastValue(buf, offset);
      if fast.Some? {
        visits := visits + 1;
        return Ok(fast.value);
      }
      r := ValidateValue(offset, depth, false);
    }

    method ValidateValue(offset: nat, depth: nat, requireString: bool) returns (r: Result<nat>)
      modifies this
      ensures remaining <= old(remaining) && visits <= old(visits) + 2 + 2 * (old(remaining) - remaining)
      ensures var c := CheckValue(buf, offset, depth, requireString);
              && (r.Ok? <==> c.Some? && c.value.slots <= old(remaining))
              && (r.Ok? ==> r.value == c.value.next && remaining == old(remaining) - c.value.slots)
              && (r.Err? && c.Some? ==> r.error == TooLarge)
      ensures !IsPointerAt(buf, offset) ==> visits <= old(visits) + 1 + 2 * (old(remaining) - remaining)
      decreases Remaining(depth), 0
    {
      hide DecodeCtrl;
      visits := visits + 1;
      if depth > MAX_DEPTH { return Err(TooDeep); }
      var ctrl := DecodeCtrl(buf, offset);
      if ctrl.None? { return Err(Malformed); }
      var Ctrl(kind, size, data) := ctrl.value;
      if kind == KIND_POINTER {
        var pointer := DecodePointer(buf, size, data);
        if pointer.None? { return Err(Malformed); }
        var (target, next) := pointer.value;
        var targetCtrl := DecodeCtrl(buf, target);
        if targetCtrl.None? || targetCtrl.value.kind == KIND_POINTER { return Err(Malformed); }
        r := ValidateValue(target, depth + 1, requireString);
        if r.Ok? { r := Ok(next); }
        return;
      }
      if requireString && kind != KIND_STRING { return Err(Malformed); }
      if kind == KIND_MAP || kind == KIND_SLICE {
        r := ValidateContainerContents(kind, size, data, depth + 1);
        return;
      }
      match ScalarEnd(buf, kind, size, data)
      case None => return Err(Malformed);
      case Some(end) => return Ok(end);
    }
  }
}
