/** What paths select, by position and occurrence alone, for every value, path and encoded record (reflection.go). */
module PathLaws {
  import opened Core
  import opened Values
  import opened Grammar
  import opened Validator
  import opened Decoder
  import opened PathDecoder
  import opened DuplicateKeys
  import opened Encoding

  function Reversed(es: seq<Entry>): (r: seq<Entry>)
    ensures |r| == |es|
  {
    if es == [] then [] else Reversed(es[1..]) + [es[0]]
  }

  lemma {:induction false} ReversedAt(es: seq<Entry>, k: nat)
    requires k < |es|
    ensures Reversed(es)[k] == es[|es| - 1 - k]
    decreases |es|
  {
    if k < |es| - 1 {
      ReversedAt(es[1..], k);
    }
  }

  // ---- Indices ----

  /** A non-negative index counts from the first element. */
  lemma IndexFromStart(es: seq<Entry>, i: nat)
    requires i < |es|
    ensures Select(Container(false, es), [Index(i)]) == Found(es[i].value)
  {
    LastStep(Container(false, es), Index(i));
  }

  /** Index -k is the k-th element from the end: element k - 1 of the reversed slice. */
  lemma IndexFromEnd(es: seq<Entry>, k: int)
    requires 1 <= k <= |es|
    ensures Select(Container(false, es), [Index(-k)]) == Found(es[|es| - k].value)
    ensures Select(Container(false, es), [Index(-k)]) == Select(Container(false, Reversed(es)), [Index(k - 1)])
  {
    hide Reversed, Select;
    LastStep(Container(false, es), Index(-k));
    ReversedAt(es, k - 1);
    IndexFromStart(Reversed(es), k - 1);
  }

  /** Every other index selects nothing, and an index into anything but a slice is a mismatch. */
  lemma IndexOutside(v: Value, i: int)
    ensures Select(v, [Index(i)]) == Misfit <==> !(v.Container? && !v.isMap)
    ensures v.Container? && !v.isMap ==> (Select(v, [Index(i)]) == Absent <==> i >= |v.entries| || i < -|v.entries|)
  {
    LastStep(v, Index(i));
  }

  lemma LastStep(v: Value, element: PathElement)
    ensures Select(v, [element]) == SelectOne(v, element)
  {
    hide SelectOne;
    assert [element][1..] == [];
  }

  // ---- Keys ----

  /** A key into anything but a map is a mismatch; a map without it selects nothing; otherwise the first entry counts. */
  lemma KeySelects(v: Value, name: seq<byte>)
    ensures Select(v, [Key(name)]) == Misfit <==> !(v.Container? && v.isMap)
    ensures v.Container? && v.isMap ==> (Select(v, [Key(name)]) == Absent <==> !Occurs(v.entries, name))
    ensures v.Container? && v.isMap ==>
              forall i: nat :: FirstAt(v.entries, name, i) ==> Select(v, [Key(name)]) == Found(v.entries[i].value)
  {
    LastStep(v, Key(name));
    if v.Container? && v.isMap {
      if Occurs(v.entries, name) {
        var i, j := Ends(v.entries, name);
        PathTakesFirst(v.entries, name, i);
      } else {
        BothAbsent(v.entries, name);
      }
      forall i: nat | FirstAt(v.entries, name, i)
        ensures Select(v, [Key(name)]) == Found(v.entries[i].value)
      {
        PathTakesFirst(v.entries, name, i);
      }
    }
  }

  /** Elements that are neither strings nor integers never select. */
  lemma OtherMisfits(v: Value)
    ensures Select(v, [Other]) == Misfit
  {
    LastStep(v, Other);
  }

  // ---- Longer paths ----

  /** A path may be cut anywhere: the rest selects from what the beginning selected, and a failure stays. */
  lemma {:induction false} PathComposes(v: Value, p: seq<PathElement>, q: seq<PathElement>)
    ensures Select(v, p + q)
            == match Select(v, p) { case Found(u) => Select(u, q) case Absent => Absent case Misfit => Misfit }
    decreases |p|
  {
    hide SelectOne;
    if p == [] {
      assert p + q == q;
    } else {
      assert (p + q)[0] == p[0] && (p + q)[1..] == p[1..] + q;
      if SelectOne(v, p[0]).Found? {
        PathComposes(SelectOne(v, p[0]).value, p[1..], q);
      }
    }
  }

  // ---- In a file ----

  /** The value can be written and read back within the limits of a fresh decoder. */
  predicate Storable(v: Value) {
    Encodable(v) && Height(v) <= MAX_DEPTH && Slots(v) <= SLOT_BUDGET && Payload(v) <= PAYLOAD_BUDGET
  }

  /** Decoding a path from the encoding of any value that can be stored gives what the path selects from the value. */
  method DecodeEncodedPath(v: Value, path: seq<PathElement>) returns (r: Result<Option<Value>>)
    requires Storable(v) && |Encode(v)| <= MAX_LEN
    ensures r == match Select(v, path) { case Found(u) => Ok(Some(u)) case Absent => Ok(None) case Misfit => Err(Mismatch) }
  {
    hide Encode, Encodable, Parse, Select, Slots, Payload, Height;
    var buf := Encode(v);
    assert buf[0..|buf|] == buf;
    RoundTrip(buf, 0, v, 0, false);
    r := DecodePathFresh(buf, 0, path);
  }

  /** On the bytes of any slice, index i and index i - n decode element i, and indices outside leave the destination. */
  method DecodeEncodedIndex(es: seq<Entry>, i: nat, far: int)
    returns (first: Result<Option<Value>>, last: Result<Option<Value>>, none: Result<Option<Value>>)
    requires Storable(Container(false, es)) && |Encode(Container(false, es))| <= MAX_LEN
    requires i < |es| && (far >= |es| || far < -|es|)
    ensures first == last == Ok(Some(es[i].value)) && none == Ok(None)
  {
    hide Storable, Encode, Select;
    var v := Container(false, es);
    IndexFromStart(es, i);
    IndexFromEnd(es, |es| - i);
    IndexOutside(v, far);
    first := DecodeEncodedPath(v, [Index(i)]);
    last := DecodeEncodedPath(v, [Index(i - |es|)]);
    none := DecodeEncodedPath(v, [Index(far)]);
  }
}
