/** What validating the text of a decoded value covers: every text and key that can be reached in it (verifier.go). */
module TextValidation {
  import opened Core
  import opened Values
  import opened DataVerifier
  import opened DuplicateKeys

  datatype Step = At(name: seq<byte>) | Nth(i: nat)

  /** Part of a decoded value: maps are looked up as they were filled, slices indexed. */
  function Part(v: Value, steps: seq<Step>): Option<Value>
    decreases |steps|
  {
    if steps == [] then Some(v)
    else if !v.Container? then None
    else match steps[0]
         case At(name) =>
           if v.isMap && name in Materialised(v.entries) then Part(Materialised(v.entries)[name], steps[1..]) else None
         case Nth(i) =>
           if !v.isMap && i < |v.entries| then Part(v.entries[i].value, steps[1..]) else None
  }

  /** The text of the value itself, or the keys that it holds, pass the test. */
  ghost predicate OwnText(utf8: seq<byte> -> bool, v: Value) {
    && (v.String? ==> utf8(v.text))
    && (v.Container? && v.isMap ==> forall name :: name in Materialised(v.entries) ==> utf8(name))
  }

  ghost predicate EveryText(utf8: seq<byte> -> bool, v: Value) {
    forall steps :: Part(v, steps).Some? ==> OwnText(utf8, Part(v, steps).value)
  }

  /** Validation accepts a decoded value exactly when every text in it and every key of its maps is valid. */
  lemma ValidTextIsEveryText(utf8: seq<byte> -> bool, v: Value)
    ensures ValidText(utf8, v) <==> EveryText(utf8, v)
  {
    hide ValidText, OwnText;
    if ValidText(utf8, v) {
      forall steps | Part(v, steps).Some?
        ensures OwnText(utf8, Part(v, steps).value)
      {
        PartIsValid(utf8, v, steps);
      }
    }
    if EveryText(utf8, v) {
      EveryTextIsValid(utf8, v);
    }
  }

  lemma {:induction false} PartIsValid(utf8: seq<byte> -> bool, v: Value, steps: seq<Step>)
    requires ValidText(utf8, v) && Part(v, steps).Some?
    ensures OwnText(utf8, Part(v, steps).value)
    decreases |steps|
  {
    hide Materialised;
    if v.Container? && v.isMap {
      TextOfMap(utf8, v.entries);
    }
    if steps != [] {
      match steps[0]
      case At(name) => PartIsValid(utf8, Materialised(v.entries)[name], steps[1..]);
      case Nth(i) => PartIsValid(utf8, v.entries[i].value, steps[1..]);
    }
  }

  lemma {:induction false} EveryTextIsValid(utf8: seq<byte> -> bool, v: Value)
    requires EveryText(utf8, v)
    ensures ValidText(utf8, v)
    decreases v
  {
    hide Materialised;
    assert Part(v, []) == Some(v);
    if v.Container? {
      forall i | 0 <= i < |v.entries| && (v.isMap ==> LastOfItsKey(v.entries, i))
        ensures (v.isMap ==> utf8(v.entries[i].key)) && ValidText(utf8, v.entries[i].value)
      {
        if v.isMap { HeldEntry(v.entries, i); }
        var step := if v.isMap then At(v.entries[i].key) else Nth(i);
        ChildText(utf8, v, step, v.entries[i].value);
        EveryTextIsValid(utf8, v.entries[i].value);
      }
    }
  }

  lemma HeldEntry(es: seq<Entry>, i: nat)
    requires i < |es| && LastOfItsKey(es, i)
    ensures es[i].key in Materialised(es) && Materialised(es)[es[i].key] == es[i].value
  {
    FillTakesLast(map[], es, es[i].key, i);
  }

  lemma ChildText(utf8: seq<byte> -> bool, v: Value, step: Step, u: Value)
    requires EveryText(utf8, v) && Part(v, [step]) == Some(u)
    ensures EveryText(utf8, u)
  {
    hide Materialised, OwnText;
    assert [step][1..] == [];
    forall steps | Part(u, steps).Some?
      ensures OwnText(utf8, Part(u, steps).value)
    {
      assert ([step] + steps)[1..] == steps;
      assert Part(v, [step] + steps) == Part(u, steps);
    }
  }
}
