/** What the two budgets count: the child values of the unfolded value and the bytes of their text (reflection.go). */
module Costs {
  import opened Core
  import opened Format
  import opened Values
  import opened Grammar
  import opened Encoding

  // ---- The unfolded value as a list ----

  /** Every value below `v`, in encoded order; a map key counts as a string. */
  function Descendants(v: Value): seq<Value>
    decreases v, 1
  {
    if v.Container? then DescendantsOf(v.isMap, v.entries) else []
  }

  function DescendantsOf(isMap: bool, es: seq<Entry>): seq<Value>
    decreases es, 0
  {
    if es == [] then []
    else (if isMap then [String(es[0].key)] else []) + [es[0].value] + Descendants(es[0].value) + DescendantsOf(isMap, es[1..])
  }

  function OwnBytes(v: Value): nat {
    if v.String? then |v.text| else if v.Blob? then |v.bytes| else 0
  }

  function TotalBytes(vs: seq<Value>): nat {
    if vs == [] then 0 else OwnBytes(vs[0]) + TotalBytes(vs[1..])
  }

  lemma {:induction false} TotalAppend(a: seq<Value>, b: seq<Value>)
    ensures TotalBytes(a + b) == TotalBytes(a) + TotalBytes(b)
    decreases |a|
  {
    if a == [] {
      assert a + b == b;
    } else {
      assert (a + b)[1..] == a[1..] + b;
      TotalAppend(a[1..], b);
    }
  }

  lemma TotalOne(v: Value)
    ensures TotalBytes([v]) == OwnBytes(v)
  {
    assert [v][1..] == [];
  }

  /** The slots of a value are its descendants, and its payload is the text of the value and of all of them. */
  lemma {:induction false} CostsCount(v: Value)
    requires Encodable(v)
    ensures Slots(v) == |Descendants(v)| && Payload(v) == OwnBytes(v) + TotalBytes(Descendants(v))
    decreases v, 1
  {
    if v.Container? {
      EntriesCount(v.isMap, v.entries);
    }
  }

  lemma {:induction false} EntriesCount(isMap: bool, es: seq<Entry>)
    requires EntriesEncodable(isMap, es)
    ensures Children(KindFor(isMap), |es|) + SlotsOf(es) == |DescendantsOf(isMap, es)|
    ensures PayloadOf(es) == TotalBytes(DescendantsOf(isMap, es))
    decreases es, 0
  {
    hide Slots, Payload, Descendants, Encodable, OwnBytes, TotalBytes;
    if es == [] {
      assert TotalBytes([]) == 0 by { NoBytes(); }
    } else {
      var e := es[0];
      EntriesHead(isMap, es);
      CostsCount(e.value);
      EntriesCount(isMap, es[1..]);
      var key := if isMap then [String(e.key)] else [];
      KeyBytes(isMap, e.key);
      TotalOne(e.value);
      TotalAppend(key, [e.value]);
      TotalAppend(key + [e.value], Descendants(e.value));
      TotalAppend(key + [e.value] + Descendants(e.value), DescendantsOf(isMap, es[1..]));
    }
  }

  lemma NoBytes()
    ensures TotalBytes([]) == 0
  {
  }

  lemma KeyBytes(isMap: bool, key: seq<byte>)
    requires |key| <= if isMap then MAX_VALUE_SIZE else 0
    ensures TotalBytes(if isMap then [String(key)] else []) == |key|
  {
    TotalOne(String(key));
  }

  // ---- What skipping an encoded value costs ----

  /** Without pointers nothing is shared: skipping an encoded value crosses exactly the slots it unfolds to. */
  lemma {:induction false} InlineEncoded(buf: seq<byte>, offset: nat, v: Value)
    requires Encodable(v) && Placed(buf, offset, Encode(v))
    ensures InlineN(buf, offset, 1) == Some(Checked(offset + |Encode(v)|, Slots(v)))
    decreases v, 1
  {
    hide DecodeCtrl, EncodeHeader, EncodeEntries, InlineN, Placed, ScalarBytes, PlainToken;
    InlineToken(buf, offset, 1);
    InlineZero(buf, offset + |Encode(v)|);
    if v.Container? {
      var header := EncodeHeader(KindOf(v), |v.entries|);
      PlacedSplit(buf, offset, header, EncodeEntries(v.isMap, v.entries));
      HeaderRoundTrip(buf, offset, KindOf(v), |v.entries|);
      InlineEntries(buf, offset + |header|, v.isMap, v.entries);
    } else {
      ScalarToken(buf, offset, v);
    }
  }

  lemma ScalarToken(buf: seq<byte>, offset: nat, v: Value)
    requires !v.Container? && Encodable(v) && Placed(buf, offset, Encode(v))
    ensures StrictToken(buf, offset) == Some(Token(offset + |Encode(v)|, 0))
  {
    hide DecodeCtrl, EncodeHeader, Placed, ScalarBytes, PlainToken, Encodable;
    if v.Bool? {
      HeaderRoundTrip(buf, offset, KIND_BOOL, if v.flag then 1 else 0);
    } else {
      var bytes := ScalarBytes(v);
      ScalarBytesFit(v);
      var header := EncodeHeader(KindOf(v), |bytes|);
      PlacedSplit(buf, offset, header, bytes);
      HeaderRoundTrip(buf, offset, KindOf(v), |bytes|);
      PlacedEnd(buf, offset + |header|, bytes);
    }
  }

  lemma PlacedEnd(buf: seq<byte>, offset: nat, bytes: seq<byte>)
    requires Placed(buf, offset, bytes)
    ensures offset + |bytes| <= |buf|
  {
  }

  lemma {:induction false} InlineEntries(buf: seq<byte>, offset: nat, isMap: bool, es: seq<Entry>)
    requires EntriesEncodable(isMap, es) && Placed(buf, offset, EncodeEntries(isMap, es))
    ensures InlineN(buf, offset, PerEntry(isMap) * |es|)
            == Some(Checked(offset + |EncodeEntries(isMap, es)|, SlotsOf(es)))
    decreases es, 0
  {
    hide InlineN, Placed, Encode, EncodeKey, Encodable, Slots;
    if es == [] {
      InlineZero(buf, offset);
    } else {
      hide EncodeEntries, EntriesEncodable, Height, HeightOf;
      EntriesHead(isMap, es);
      EntriesPlaced(buf, offset, isMap, es);
      var key, value := EncodeKey(isMap, es[0].key), Encode(es[0].value);
      InlineEncoded(buf, offset + |key|, es[0].value);
      InlineEntries(buf, offset + |key| + |value|, isMap, es[1..]);
      InlineComposes(buf, offset + |key|, 1, PerEntry(isMap) * (|es| - 1));
      KeyCrossed(buf, offset, isMap, es[0].key, PerEntry(isMap) * |es| - PerEntry(isMap) + 1);
    }
  }

  lemma KeyCrossed(buf: seq<byte>, offset: nat, isMap: bool, key: seq<byte>, n: nat)
    requires |key| <= (if isMap then MAX_VALUE_SIZE else 0) && Placed(buf, offset, EncodeKey(isMap, key))
    ensures InlineN(buf, offset, n + if isMap then 1 else 0) == InlineN(buf, offset + |EncodeKey(isMap, key)|, n)
  {
    hide InlineN, Placed, EncodeHeader, ResolveString;
    if isMap {
      KeyRoundTrip(buf, offset, key);
      InlineKey(buf, offset);
      InlineComposes(buf, offset, 1, n);
      NoSlotsAdded(InlineN(buf, offset + |EncodeKey(isMap, key)|, n));
    }
  }

  lemma NoSlotsAdded(r: Option<Checked>)
    ensures AddSlots(r, 0) == r
  {
  }

  // ---- Payload bytes of directly encoded values ----

  /** A direct float is exactly its last eight or four bytes, and a direct boolean is its size bits. */
  lemma FixedPayload(buf: seq<byte>, offset: nat, depth: nat, strict: bool)
    requires Parse(buf, offset, depth, strict).Some? && !IsPointerAt(buf, offset)
    ensures var Parsed(v, next) := Parse(buf, offset, depth, strict).value;
            && (v.Float64? ==> offset + 8 < next <= |buf| && v.bits == BigEndian(buf[next - 8..next]))
            && (v.Float32? ==> offset + 4 < next <= |buf| && v.bits == BigEndian(buf[next - 4..next]))
            && (v.Bool? ==> offset < |buf| && At(buf, offset) % 32 == if v.flag then 1 else 0)
  {
    hide BigEndian, ParseContents;
  }
}
