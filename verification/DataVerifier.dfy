/** Data-section verification: the records tile the section and are exactly what the tree points to (verifier.go). */
module DataVerifier {
  import opened Core
  import opened Format
  import opened Values
  import opened Grammar
  import opened Validator
  import opened Decoder

  /** A materialised map keeps the last of several entries with one key. */
  predicate LastOfItsKey(es: seq<Entry>, i: nat)
    requires i < |es|
  {
    forall j :: i < j < |es| ==> es[j].key != es[i].key
  }

  /** validateUTF8 over the materialised value; `utf8` is the runtime's validity test. */
  predicate ValidText(utf8: seq<byte> -> bool, v: Value) {
    match v
    case String(text) => utf8(text)
    case Container(isMap, es) =>
      forall i :: 0 <= i < |es| ==>
        (isMap && !LastOfItsKey(es, i)) || ((isMap ==> utf8(es[i].key)) && ValidText(utf8, es[i].value))
    case _ => true
  }

  /** Starts of the records that tile the section from `offset` to its end, if every one of them is valid. */
  ghost function Records(utf8: seq<byte> -> bool, data: seq<byte>, offset: nat): (r: Option<seq<nat>>)
    decreases |data| - offset
  {
    if offset == |data| then Some([])
    else if offset > |data| || !Decodes(data, offset) then None
    else
      var p := Parse(data, offset, 0, false).value;
      ParseAgrees(data, offset, 0, false);
      if !ValidText(utf8, p.value) then None
      else match Records(utf8, data, p.next)
           case None => None
           case Some(rest) => Some([offset] + rest)
  }

  /** Where the value starting at `starts[k]` must end: at the next start, or at the end of the section. */
  function EndOf(data: seq<byte>, starts: seq<nat>, k: nat): nat
    requires k < |starts|
  {
    if k + 1 < |starts| then starts[k + 1] else |data|
  }

  /** The records are valid, lie end to end, and fill the section from `offset` on. */
  lemma {:induction false} RecordsTile(utf8: seq<byte> -> bool, data: seq<byte>, offset: nat)
    requires Records(utf8, data, offset).Some?
    ensures var starts := Records(utf8, data, offset).value;
            && (if offset == |data| then starts == [] else starts != [] && starts[0] == offset)
            && (forall k :: 0 <= k < |starts| ==> Decodes(data, starts[k]) && offset <= starts[k] < |data|)
            && (forall k :: 0 <= k < |starts| ==> Skip(data, starts[k]) == Some(EndOf(data, starts, k)))
            && (forall k :: 0 <= k < |starts| ==> ValidRecord(utf8, data, starts[k]))
    decreases |data| - offset
  {
    hide Parse, Skip, ValidText, Slots, Payload;
    if offset < |data| {
      var p := Parse(data, offset, 0, false).value;
      ParseAgrees(data, offset, 0, false);
      SkipGrows(data, offset);
      RecordsTile(utf8, data, p.next);
      var rest := Records(utf8, data, p.next).value;
      var starts := Records(utf8, data, offset).value;
      assert starts == [offset] + rest;
      forall k | 0 <= k < |starts|
        ensures Skip(data, starts[k]) == Some(EndOf(data, starts, k))
      {
        if k > 0 {
          assert starts[k] == rest[k - 1] && EndOf(data, starts, k) == EndOf(data, rest, k - 1);
        }
      }
    }
  }

  /** A value that decodes with fresh limits and has valid text. */
  ghost predicate ValidRecord(utf8: seq<byte> -> bool, data: seq<byte>, offset: nat) {
    Decodes(data, offset) && ValidText(utf8, Parse(data, offset, 0, false).value.value)
  }

  /** Any valid records that lie end to end and fill the section from `offset` on are the records found. */
  lemma {:induction false} TilingIsRecords(utf8: seq<byte> -> bool, data: seq<byte>, offset: nat, starts: seq<nat>)
    requires if starts == [] then offset == |data| else starts[0] == offset
    requires forall k :: 0 <= k < |starts| ==> ValidRecord(utf8, data, starts[k])
    requires forall k :: 0 <= k < |starts| ==> Skip(data, starts[k]) == Some(EndOf(data, starts, k))
    ensures Records(utf8, data, offset) == Some(starts)
    decreases |starts|
  {
    hide Parse, Skip, ValidText, Slots, Payload;
    if starts != [] {
      var rest := starts[1..];
      SkipGrows(data, offset);
      ParseAgrees(data, offset, 0, false);
      forall k | 0 <= k < |rest|
        ensures ValidRecord(utf8, data, rest[k]) && Skip(data, rest[k]) == Some(EndOf(data, rest, k))
      {
        assert rest[k] == starts[k + 1] && EndOf(data, rest, k) == EndOf(data, starts, k + 1);
      }
      assert EndOf(data, starts, 0) == if rest == [] then |data| else rest[0];
      TilingIsRecords(utf8, data, EndOf(data, starts, 0), rest);
      assert starts == [offset] + rest;
    }
  }

  lemma SkipGrows(data: seq<byte>, offset: nat)
    requires Skip(data, offset).Some?
    ensures offset < Skip(data, offset).value <= |data|
  {
  }

  /** Accepts exactly when the section is tiled by valid records and these are exactly the offsets of the tree. */
  method VerifyDataSection(utf8: seq<byte> -> bool, data: seq<byte>, offsets: set<nat>) returns (ok: bool)
    requires |data| <= MAX_LEN
    ensures ok <==> Records(utf8, data, 0).Some? && offsets == set o | o in Records(utf8, data, 0).value
  {
    hide Parse, SkipN, Slots, Payload, ValidText;
    ghost var whole := Records(utf8, data, 0);
    ghost var seen: seq<nat> := [];
    var left := offsets;
    var offset := 0;
    assert whole.Some? ==> [] + whole.value == whole.value;
    while offset < |data|
      invariant offset <= |data|
      invariant whole == Join(seen, Records(utf8, data, offset))
      invariant forall o :: o in seen ==> o < offset && o in offsets
      invariant left == offsets - set o | o in seen
    {
      var bounded := new BudgetedDecoder(data);
      var p := bounded.DecodeValue(offset, 0);
      if p.Err? { return false; }
      if !ValidText(utf8, p.value.value) { return false; }
      ParseAgrees(data, offset, 0, false);
      if offset !in left {
        FirstMissing(utf8, data, offset, seen);
        return false;
      }
      ghost var rest := Records(utf8, data, p.value.next);
      assert rest.Some? ==> seen + ([offset] + rest.value) == seen + [offset] + rest.value;
      left := left - {offset};
      seen := seen + [offset];
      offset := p.value.next;
    }
    assert seen + [] == seen;
    assert forall o :: o in offsets ==> o in left || o in seen;
    if left != {} {
      var o :| o in left;
      return false;
    }
    return true;
  }

  ghost function Join(seen: seq<nat>, rest: Option<seq<nat>>): Option<seq<nat>> {
    match rest
    case None => None
    case Some(more) => Some(seen + more)
  }

  lemma FirstMissing(utf8: seq<byte> -> bool, data: seq<byte>, offset: nat, seen: seq<nat>)
    requires offset < |data|
    ensures var whole := Join(seen, Records(utf8, data, offset)); whole.Some? ==> offset in whole.value
  {
    hide Parse, SkipN;
    if Records(utf8, data, offset).Some? {
      var starts := Records(utf8, data, offset).value;
      RecordsTile(utf8, data, offset);
      assert (seen + starts)[|seen|] == offset;
    }
  }
}
