/** Repeated map keys: a path takes the first of them, the decoded map keeps the last (reflection.go). */
module DuplicateKeys {
  import opened Core
  import opened Format
  import opened Values
  import opened Grammar
  import opened Validator
  import opened Decoder
  import opened PathDecoder
  import opened DataVerifier
  import opened Encoding

  type Map = map<seq<byte>, Value>

  // ---- The map that decoding fills ----

  /** Storing entries in encoded order into a map that already holds `m`. */
  function Fill(m: Map, es: seq<Entry>): Map
    decreases |es|
  {
    if es == [] then m else Fill(m[es[0].key := es[0].value], es[1..])
  }

  function Materialised(es: seq<Entry>): Map {
    Fill(map[], es)
  }

  /** What the decoded map holds for a key. */
  function MapLookup(es: seq<Entry>, name: seq<byte>): Option<Value> {
    if name in Materialised(es) then Some(Materialised(es)[name]) else None
  }

  lemma {:induction false} FillAppend(m: Map, es: seq<Entry>, last: Entry)
    ensures Fill(m, es + [last]) == Fill(m, es)[last.key := last.value]
    decreases |es|
  {
    if es == [] {
      assert es + [last] == [last] && [last][1..] == [];
    } else {
      assert (es + [last])[1..] == es[1..] + [last];
      FillAppend(m[es[0].key := es[0].value], es[1..], last);
    }
  }

  /** The store at the end of each turn of the map loop. */
  method StoreEntries(es: seq<Entry>) returns (m: Map)
    ensures m == Materialised(es)
  {
    m := map[];
    for i := 0 to |es|
      invariant m == Materialised(es[..i])
    {
      assert es[..i + 1] == es[..i] + [es[i]];
      FillAppend(map[], es[..i], es[i]);
      m := m[es[i].key := es[i].value];
    }
    assert es[..|es|] == es;
  }

  // ---- First and last occurrences ----

  predicate FirstAt(es: seq<Entry>, name: seq<byte>, i: nat) {
    i < |es| && es[i].key == name && forall k :: 0 <= k < i ==> es[k].key != name
  }

  predicate LastAt(es: seq<Entry>, name: seq<byte>, j: nat) {
    j < |es| && es[j].key == name && LastOfItsKey(es, j)
  }

  predicate Occurs(es: seq<Entry>, name: seq<byte>) {
    exists k :: 0 <= k < |es| && es[k].key == name
  }

  /** A path gives the value of the first entry with its key. */
  lemma {:induction false} PathTakesFirst(es: seq<Entry>, name: seq<byte>, i: nat)
    requires FirstAt(es, name, i)
    ensures FirstWith(es, name) == Some(es[i].value)
    decreases |es|
  {
    if i > 0 {
      assert es[0].key != name;
      PathTakesFirst(es[1..], name, i - 1);
    }
  }

  /** Later stores to other keys leave a stored value alone. */
  lemma {:induction false} FillKeeps(m: Map, es: seq<Entry>, name: seq<byte>)
    requires !Occurs(es, name)
    ensures name in Fill(m, es) <==> name in m
    ensures name in m ==> Fill(m, es)[name] == m[name]
    decreases |es|
  {
    if es != [] {
      assert es[0].key != name;
      FillKeeps(m[es[0].key := es[0].value], es[1..], name);
    }
  }

  /** The decoded map holds the value of the last entry with a key. */
  lemma {:induction false} FillTakesLast(m: Map, es: seq<Entry>, name: seq<byte>, j: nat)
    requires LastAt(es, name, j)
    ensures name in Fill(m, es) && Fill(m, es)[name] == es[j].value
    decreases |es|
  {
    var stored := m[es[0].key := es[0].value];
    if j == 0 {
      assert !Occurs(es[1..], name);
      FillKeeps(stored, es[1..], name);
    } else {
      FillTakesLast(stored, es[1..], name, j - 1);
    }
  }

  /** Without an entry for the key, path and map both find nothing. */
  lemma {:induction false} BothAbsent(es: seq<Entry>, name: seq<byte>)
    requires !Occurs(es, name)
    ensures FirstWith(es, name) == None && MapLookup(es, name) == None
    decreases |es|
  {
    FillKeeps(map[], es, name);
    if es != [] {
      assert es[0].key != name;
      assert !Occurs(es[1..], name);
      BothAbsent(es[1..], name);
    }
  }

  /** A key that occurs has a first and a last entry. */
  lemma {:induction false} Ends(es: seq<Entry>, name: seq<byte>) returns (i: nat, j: nat)
    requires Occurs(es, name)
    ensures FirstAt(es, name, i) && LastAt(es, name, j) && i <= j
    decreases |es|
  {
    var rest := es[1..];
    var more := Occurs(rest, name);
    if more {
      i, j := Ends(rest, name);
      i, j := i + 1, j + 1;
    } else {
      j := 0;
      forall k | 0 < k < |es|
        ensures es[k].key != name
      {
        assert rest[k - 1] == es[k];
      }
    }
    if es[0].key == name { i := 0; }
  }

  /** For every list of entries: the path gives the first entry with the key and the map the last. */
  lemma FirstAndLast(es: seq<Entry>, name: seq<byte>, i: nat, j: nat)
    requires FirstAt(es, name, i) && LastAt(es, name, j)
    ensures FirstWith(es, name) == Some(es[i].value) && MapLookup(es, name) == Some(es[j].value)
  {
    PathTakesFirst(es, name, i);
    FillTakesLast(map[], es, name, j);
  }

  // ---- When the two agree ----

  function Zip(keys: seq<seq<byte>>, values: seq<Value>): (es: seq<Entry>)
    requires |keys| == |values|
    ensures |es| == |keys| && forall i :: 0 <= i < |es| ==> es[i] == Entry(keys[i], values[i])
  {
    seq(|keys|, i requires 0 <= i < |keys| => Entry(keys[i], values[i]))
  }

  predicate AtMostOnce(keys: seq<seq<byte>>, name: seq<byte>) {
    forall i, j :: 0 <= i < j < |keys| && keys[i] == name ==> keys[j] != name
  }

  /** Path and decoded map agree on every key that occurs at most once. */
  lemma UniqueKeyAgrees(es: seq<Entry>, name: seq<byte>)
    requires forall i, j :: 0 <= i < j < |es| && es[i].key == name ==> es[j].key != name
    ensures FirstWith(es, name) == MapLookup(es, name)
  {
    hide FirstWith, MapLookup;
    if Occurs(es, name) {
      var i, j := Ends(es, name);
      FirstAndLast(es, name, i, j);
    } else {
      BothAbsent(es, name);
    }
  }

  /** A repeated key has values for which path and map differ: tell the first occurrence from the others. */
  lemma RepeatedDiffers(keys: seq<seq<byte>>, name: seq<byte>) returns (values: seq<Value>)
    requires !AtMostOnce(keys, name)
    ensures |values| == |keys| && FirstWith(Zip(keys, values), name) != MapLookup(Zip(keys, values), name)
  {
    hide FirstWith, MapLookup;
    var i, j :| 0 <= i < j < |keys| && keys[i] == name && keys[j] == name;
    values := seq(|keys|, t => Bool(t <= i));
    var es := Zip(keys, values);
    assert es[i].key == name && es[j].key == name;
    assert Occurs(es, name);
    var first, last := Ends(es, name);
    assert first <= i < j <= last;
    FirstAndLast(es, name, first, last);
  }

  /** Path and decoded map agree on a key, whatever the values, exactly when the key occurs at most once. */
  lemma AgreeExactlyWhenUnique(keys: seq<seq<byte>>, name: seq<byte>)
    ensures AtMostOnce(keys, name) <==>
            forall values: seq<Value> :: |values| == |keys| ==>
              FirstWith(Zip(keys, values), name) == MapLookup(Zip(keys, values), name)
  {
    hide FirstWith, MapLookup;
    if AtMostOnce(keys, name) {
      forall values: seq<Value> | |values| == |keys|
        ensures FirstWith(Zip(keys, values), name) == MapLookup(Zip(keys, values), name)
      {
        UniqueKeyAgrees(Zip(keys, values), name);
      }
    } else {
      var values := RepeatedDiffers(keys, name);
      assert FirstWith(Zip(keys, values), name) != MapLookup(Zip(keys, values), name);
    }
  }

  // ---- In a file ----

  /** For every map the format can express within the limits, its encoding decodes, and path and map read it so. */
  lemma EncodedFirstAndLast(es: seq<Entry>, name: seq<byte>, i: nat, j: nat)
    requires var v := Container(true, es);
             Encodable(v) && Height(v) <= MAX_DEPTH && Slots(v) <= SLOT_BUDGET && Payload(v) <= PAYLOAD_BUDGET
    requires FirstAt(es, name, i) && LastAt(es, name, j)
    ensures var buf := Encode(Container(true, es));
            && Decodes(buf, 0)
            && var v := Parse(buf, 0, 0, false).value.value;
               && Select(v, [Key(name)]) == Found(es[i].value)
               && v.Container? && v.isMap && MapLookup(v.entries, name) == Some(es[j].value)
  {
    hide Encode, Encodable, FirstWith, MapLookup, Parse, Slots, Payload;
    var v := Container(true, es);
    var buf := Encode(v);
    assert buf[0..|buf|] == buf;
    RoundTrip(buf, 0, v, 0, false);
    FirstAndLast(es, name, i, j);
    assert [Key(name)][1..] == [];
  }

  /** A map with the key "a" twice. */
  function TwiceA(): seq<Entry> {
    [Entry([97], Bool(false)), Entry([97], Bool(true))]
  }

  lemma OneBool(e: Entry)
    requires |e.key| == 1 && e.value.Bool?
    ensures EntriesEncodable(true, [e]) && HeightOf([e]) == 1 && SlotsOf([e]) == 0 && PayloadOf([e]) == 1
  {
    assert [e][1..] == [];
    assert EntriesEncodable(true, []) && HeightOf([]) == 0 && SlotsOf([]) == 0 && PayloadOf([]) == 0;
    assert Encodable(e.value) && Height(e.value) == 0 && Slots(e.value) == 0 && Payload(e.value) == 0;
  }

  lemma TwiceAFits()
    ensures var v := Container(true, TwiceA());
            Encodable(v) && Height(v) <= MAX_DEPTH && Slots(v) <= SLOT_BUDGET && Payload(v) <= PAYLOAD_BUDGET
  {
    var es := TwiceA();
    assert es[1..] == [es[1]];
    OneBool(es[1]);
    assert Encodable(es[0].value) && Height(es[0].value) == 0 && Slots(es[0].value) == 0 && Payload(es[0].value) == 0;
    assert EntriesEncodable(true, es) && HeightOf(es) == 1 && SlotsOf(es) == 0 && PayloadOf(es) == 2;
  }

  lemma SmallHeaders()
    ensures EncodeHeader(KIND_MAP, 2) == [226] && EncodeHeader(KIND_STRING, 1) == [65]
    ensures EncodeHeader(KIND_BOOL, 0) == [0, 7] && EncodeHeader(KIND_BOOL, 1) == [1, 7]
  {
  }

  lemma OneBoolBytes(e: Entry)
    requires e.key == [97] && e.value.Bool? && EntriesEncodable(true, [e])
    ensures EncodeEntries(true, [e]) == [65, 97, if e.value.flag then 1 else 0, 7]
  {
    hide EncodeHeader;
    SmallHeaders();
    assert [e][1..] == [];
    assert EncodeEntries(true, []) == [];
  }

  /** The bytes of that map. */
  lemma TwiceABytes()
    ensures Encodable(Container(true, TwiceA()))
    ensures Encode(Container(true, TwiceA())) == [226, 65, 97, 0, 7, 65, 97, 1, 7]
  {
    var es := TwiceA();
    var second := es[1];
    hide EncodeHeader;
    TwiceAFits();
    SmallHeaders();
    OneBool(second);
    OneBoolBytes(second);
    assert es[1..] == [second];
    assert EncodeEntries(true, es) == [65, 97, 0, 7, 65, 97, 1, 7];
  }

  /** On those nine bytes a path to "a" gives false and the decoded map holds true. */
  lemma DuplicateKeyDiffers()
    ensures var buf := [226, 65, 97, 0, 7, 65, 97, 1, 7];
            && Decodes(buf, 0)
            && var v := Parse(buf, 0, 0, false).value.value;
               && Select(v, [Key([97])]) == Found(Bool(false))
               && v.Container? && v.isMap && MapLookup(v.entries, [97]) == Some(Bool(true))
  {
    hide FirstWith, MapLookup, Parse, Encode, Encodable, Height, Slots, Payload, Decodes, Select;
    TwiceAFits();
    TwiceABytes();
    EncodedFirstAndLast(TwiceA(), [97], 0, 1);
  }

  // ---- What text validation sees ----

  /** Validating the text of a decoded map is validating its keys and the values it holds, and nothing else. */
  lemma TextOfMap(utf8: seq<byte> -> bool, es: seq<Entry>)
    ensures ValidText(utf8, Container(true, es)) <==>
            forall name :: name in Materialised(es) ==> utf8(name) && ValidText(utf8, Materialised(es)[name])
  {
    hide Fill;
    var m := Materialised(es);
    forall k | 0 <= k < |es| && LastOfItsKey(es, k)
      ensures es[k].key in m && m[es[k].key] == es[k].value
    {
      FillTakesLast(map[], es, es[k].key, k);
    }
    forall name | name in m
      ensures exists k :: 0 <= k < |es| && es[k].key == name && LastOfItsKey(es, k)
    {
      if Occurs(es, name) {
        var i, j := Ends(es, name);
        assert LastAt(es, name, j);
      } else {
        BothAbsent(es, name);
      }
    }
  }
}
