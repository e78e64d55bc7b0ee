/** The open-addressed fingerprint table of struct fields, and that it is invisible next to the map (reflection.go). */
module FieldTable {
  import opened Core

  datatype Field = Field(name: seq<byte>, info: nat)

  type Fields = map<seq<byte>, Field>

  /** Names short enough that their length plus one fits 32 bits; map keys of the format always are. */
  const MAX_NAME: nat := 0xFFFF_FFFE

  predicate WellNamed(fields: Fields) {
    forall k :: k in fields ==> fields[k].name == k && |k| <= MAX_NAME
  }

  /** Every entry of a listing is the field that the map holds under its name. */
  predicate Lists(fields: Fields, order: seq<Field>) {
    forall i :: 0 <= i < |order| ==> order[i].name in fields && fields[order[i].name] == order[i]
  }

  /** Length, first two and last two bytes packed in 64 bits; zero is left to mark an empty slot. */
  function Fingerprint(key: seq<byte>): (fp: nat)
    ensures |key| <= MAX_NAME ==> fp != 0
  {
    var n := |key|;
    (n + 1) * 0x1_0000_0000 % 0x1_0000_0000_0000_0000
    + (if n > 0 then At(key, 0) * 0x100_0000 + At(key, n - 1) * 0x1_0000 else 0)
    + (if n > 1 then At(key, 1) * 0x100 + At(key, n - 2) else 0)
  }

  function Xor(a: nat, b: nat): nat
    decreases a + b
  {
    if a == 0 && b == 0 then 0 else 2 * Xor(a / 2, b / 2) + (a % 2 + b % 2) % 2
  }

  /** Home slot of a fingerprint in a table whose size is a power of two. */
  function Home(fp: nat, size: nat): (i: nat)
    requires size > 0
    ensures i < size
  {
    Xor(Xor(fp, fp / 0x1_0000), fp / 0x1_0000_0000) % size
  }

  datatype Slot = Slot(fingerprint: nat, field: Option<Field>)

  const EMPTY := Slot(0, None)

  /** The slot `k` steps after `h`, cyclically. */
  function Pos(h: nat, k: nat, size: nat): (i: nat)
    requires h < size && k < size
    ensures i < size
  {
    if h + k < size then h + k else h + k - size
  }

  lemma StepsForward(i: nat, size: nat)
    requires i < size
    ensures (i + 1) % size == if i + 1 == size then 0 else i + 1
  {
    if i + 1 < size { DivMod(i + 1, size, 0, i + 1); } else { DivMod(i + 1, size, 1, 0); }
  }

  /** Probing for `fp` meets it after `k` steps, with no empty slot and no match before. */
  ghost predicate FoundAt(t: seq<Slot>, fp: nat, k: nat) {
    && k < |t|
    && t[Pos(Home(fp, |t|), k, |t|)].fingerprint == fp
    && forall j :: 0 <= j < k ==> Passes(t, fp, j)
  }

  predicate Passes(t: seq<Slot>, fp: nat, j: nat)
    requires j < |t|
  {
    t[Pos(Home(fp, |t|), j, |t|)].fingerprint != 0 && t[Pos(Home(fp, |t|), j, |t|)].fingerprint != fp
  }

  function Occupied(t: seq<Slot>): set<nat> {
    set i | 0 <= i < |t| && t[i].fingerprint != 0
  }

  /** Invariant of the table after inserting the fields in `done`. */
  ghost predicate Holds(t: seq<Slot>, done: set<Field>) {
    && (forall f :: f in done ==> exists k :: FoundAt(t, Fingerprint(f.name), k))
    && (forall i :: 0 <= i < |t| && t[i].field.Some? ==> t[i].field.value in done)
    && |Occupied(t)| <= |done|
  }

  function Range(n: nat): (r: set<nat>)
    ensures |r| == n && forall i :: i in r <==> 0 <= i < n
  {
    if n == 0 then {} else Range(n - 1) + {n - 1}
  }

  /** With fewer fields than slots some slot is empty, and probing from anywhere comes to it. */
  lemma EmptySlotAhead(t: seq<Slot>, done: set<Field>, h: nat) returns (k: nat)
    requires Holds(t, done) && |done| < |t| && h < |t|
    ensures k < |t| && t[Pos(h, k, |t|)].fingerprint == 0
  {
    hide FoundAt;
    var free := Range(|t|) - Occupied(t);
    assert Occupied(t) <= Range(|t|) && |free| == |t| - |Occupied(t)|;
    var e :| e in free;
    k := if h <= e then e - h else e + |t| - h;
  }

  /** Changing an empty slot, or the field of a slot, disturbs no earlier probe. */
  lemma ProbeSurvives(t: seq<Slot>, i: nat, slot: Slot, fp: nat, k: nat)
    requires i < |t| && FoundAt(t, fp, k)
    requires t[i].fingerprint == 0 || slot.fingerprint == t[i].fingerprint
    requires fp != 0
    ensures FoundAt(t[i := slot], fp, k)
  {
    hide Home;
    var t' := t[i := slot];
    forall j | 0 <= j < k
      ensures Passes(t', fp, j)
    {
      assert Passes(t, fp, j);
    }
  }

  /** Placing a field at the end of its probe keeps the invariant. */
  lemma InsertKeeps(t: seq<Slot>, done: set<Field>, f: Field, k: nat, slot: Slot)
    requires Holds(t, done) && f !in done && |f.name| <= MAX_NAME && (forall g :: g in done ==> |g.name| <= MAX_NAME)
    requires k < |t| && forall j :: 0 <= j < k ==> Passes(t, Fingerprint(f.name), j)
    requires var fp, i := Fingerprint(f.name), Pos(Home(Fingerprint(f.name), |t|), k, |t|);
             || (t[i].fingerprint == 0 && slot == Slot(fp, Some(f)))
             || (t[i].fingerprint == fp && slot == Slot(fp, None))
    ensures Holds(t[Pos(Home(Fingerprint(f.name), |t|), k, |t|) := slot], done + {f})
  {
    hide Home, Fingerprint, FoundAt;
    var fp := Fingerprint(f.name);
    var i := Pos(Home(fp, |t|), k, |t|);
    var t' := t[i := slot];
    forall g | g in done + {f}
      ensures exists n :: FoundAt(t', Fingerprint(g.name), n)
    {
      if g in done {
        var n :| FoundAt(t, Fingerprint(g.name), n);
        ProbeSurvives(t, i, slot, Fingerprint(g.name), n);
      } else {
        FoundWhereWritten(t, fp, k, slot);
      }
    }
    if t[i].fingerprint == 0 {
      assert Occupied(t') == Occupied(t) + {i};
    } else {
      assert Occupied(t') == Occupied(t);
    }
  }

  lemma FoundWhereWritten(t: seq<Slot>, fp: nat, k: nat, slot: Slot)
    requires k < |t| && slot.fingerprint == fp && forall j :: 0 <= j < k ==> Passes(t, fp, j)
    ensures FoundAt(t[Pos(Home(fp, |t|), k, |t|) := slot], fp, k)
  {
    hide Home;
    var t' := t[Pos(Home(fp, |t|), k, |t|) := slot];
    forall j | 0 <= j < k
      ensures Passes(t', fp, j)
    {
      assert Passes(t, fp, j);
    }
  }

  /**
   * makeFingerprintFields. Go visits the map in any order, so `order` is any listing of the fields. Colliding
   * fingerprints leave a slot without a field.
   */
  method MakeFingerprintFields(fields: Fields, order: seq<Field>) returns (table: array<Slot>)
    requires WellNamed(fields) && |order| == |fields|
    requires Lists(fields, order)
    requires forall i, j :: 0 <= i < j < |order| ==> order[i] != order[j]
    ensures fresh(table) && |Listed(order, |order|)| < table.Length
    ensures Holds(table[..], Listed(order, |order|))
  {
    hide Home, Fingerprint, Holds;
    var size := 1;
    while size < |fields| * 2
      invariant size >= 1
    {
      size := size * 2;
    }
    table := new Slot[size](_ => EMPTY);
    ghost var done: set<Field> := {};
    EmptyTable(table[..]);
    for n := 0 to |order|
      invariant Holds(table[..], done) && |done| == n && done == Listed(order, n)
    {
      ListedStep(order, n);
      Insert(table, order[n], done);
      done := done + {order[n]};
    }
  }

  /** The first `n` fields of a listing. */
  function Listed(order: seq<Field>, n: nat): set<Field>
    requires n <= |order|
  {
    set i | 0 <= i < n :: order[i]
  }

  lemma ListedStep(order: seq<Field>, n: nat)
    requires n < |order| && forall i, j :: 0 <= i < j < |order| ==> order[i] != order[j]
    ensures order[n] !in Listed(order, n) && Listed(order, n + 1) == Listed(order, n) + {order[n]}
  {
  }

  lemma EmptyTable(t: seq<Slot>)
    requires forall i :: 0 <= i < |t| ==> t[i] == EMPTY
    ensures Holds(t, {})
  {
    assert Occupied(t) == {};
  }

  /** One turn of the building loop: probe to the matching or first empty slot and write there. */
  method Insert(table: array<Slot>, f: Field, ghost done: set<Field>)
    requires Holds(table[..], done) && |done| < table.Length && f !in done && |f.name| <= MAX_NAME
    requires forall g :: g in done ==> |g.name| <= MAX_NAME
    modifies table
    ensures Holds(table[..], done + {f})
  {
    hide Home, Fingerprint, Holds;
    var size := table.Length;
    var fp := Fingerprint(f.name);
    var index := Home(fp, size);
    ghost var t := table[..];
    ghost var k := 0;
    ghost var e := EmptySlotAhead(t, done, index);
    while table[index].fingerprint != 0 && table[index].fingerprint != fp
      invariant k <= e && index == Pos(Home(fp, size), k, size) && table[..] == t
      invariant forall j :: 0 <= j < k ==> Passes(t, fp, j)
      decreases e - k
    {
      assert Passes(t, fp, k);
      StepsForward(index, size);
      index, k := (index + 1) % size, k + 1;
    }
    var slot := if table[index].fingerprint != 0 then Slot(fp, None) else Slot(fp, Some(f));
    InsertKeeps(t, done, f, k, slot);
    table[index] := slot;
    assert table[..] == t[index := slot];
  }

  /** fieldForFingerprint: probing stops at the match or at an empty slot, and a miss means no field has the fingerprint. */
  method FieldForFingerprint(t: seq<Slot>, fp: nat, ghost done: set<Field>) returns (r: Option<Slot>)
    requires Holds(t, done) && |done| < |t| && fp != 0
    ensures r.Some? ==> r.value in t && r.value.fingerprint == fp
    ensures r.None? ==> forall f :: f in done ==> Fingerprint(f.name) != fp
  {
    hide Home, Fingerprint;
    var index := Home(fp, |t|);
    ghost var k := 0;
    ghost var e := EmptySlotAhead(t, done, index);
    while true
      invariant k <= e && index == Pos(Home(fp, |t|), k, |t|)
      invariant forall j :: 0 <= j < k ==> Passes(t, fp, j)
      decreases e - k
    {
      var entry := t[index];
      if entry.fingerprint == 0 {
        forall f | f in done
          ensures Fingerprint(f.name) != fp
        {
          var n :| FoundAt(t, Fingerprint(f.name), n);
          if Fingerprint(f.name) == fp { MissesEmpty(t, fp, k, n); }
        }
        return None;
      }
      if entry.fingerprint == fp { return Some(entry); }
      assert Passes(t, fp, k);
      StepsForward(index, |t|);
      index, k := (index + 1) % |t|, k + 1;
    }
  }

  /** A probe cannot both run into an empty slot before any match and find its match. */
  lemma MissesEmpty(t: seq<Slot>, fp: nat, k: nat, n: nat)
    requires k < |t| && fp != 0 && t[Pos(Home(fp, |t|), k, |t|)].fingerprint == 0
    requires forall j :: 0 <= j < k ==> Passes(t, fp, j)
    ensures !FoundAt(t, fp, n)
  {
    hide Home;
    assert n < k ==> Passes(t, fp, n);
    assert !Passes(t, fp, k);
  }

  function Get(fields: Fields, key: seq<byte>): Option<Field> {
    if key in fields then Some(fields[key]) else None
  }

  /** fieldForKey is the map lookup, for every key, whatever the insertion order and whatever collides. */
  method FieldForKey(t: seq<Slot>, fields: Fields, key: seq<byte>) returns (r: Option<Field>)
    requires WellNamed(fields) && |key| <= MAX_NAME
    requires |fields.Values| < |t| && Holds(t, fields.Values)
    ensures (r.Some? <==> key in fields) && (r.Some? ==> r.value == fields[key])
  {
    hide Fingerprint;
    var entry := FieldForFingerprint(t, Fingerprint(key), fields.Values);
    if key in fields { assert fields[key] in fields.Values; }
    if entry.None? { return None; }
    if entry.value.field.None? || entry.value.field.value.name != key { return Get(fields, key); }
    return entry.value.field;
  }

  /** Building from any listing of the fields and looking up any key gives the map's answer. */
  method BuildAndFind(fields: Fields, order: seq<Field>, key: seq<byte>) returns (r: Option<Field>)
    requires WellNamed(fields) && |order| == |fields| && |key| <= MAX_NAME
    requires Lists(fields, order)
    requires forall i, j :: 0 <= i < j < |order| ==> order[i] != order[j]
    ensures (r.Some? <==> key in fields) && (r.Some? ==> r.value == fields[key])
  {
    hide Holds;
    var table := MakeFingerprintFields(fields, order);
    ListsAll(fields, order);
    r := FieldForKey(table[..], fields, key);
  }

  /** A listing as long as the map and without repetition contains every field. */
  lemma ListsAll(fields: Fields, order: seq<Field>)
    requires WellNamed(fields) && |order| == |fields| && Lists(fields, order)
    requires forall i, j :: 0 <= i < j < |order| ==> order[i] != order[j]
    ensures Listed(order, |order|) == fields.Values
  {
    forall i, j | 0 <= i < j < |order|
      ensures order[i].name != order[j].name
    {
      assert order[i] != order[j];
    }
    NamesCount(order);
    assert Names(order) <= fields.Keys;
    SubsetOfSameSize(Names(order), fields.Keys);
    ListedIsValues(fields, order);
  }

  lemma ListedIsValues(fields: Fields, order: seq<Field>)
    requires Names(order) == fields.Keys && Lists(fields, order)
    ensures Listed(order, |order|) == fields.Values
  {
    forall f | f in fields.Values
      ensures f in Listed(order, |order|)
    {
      var k :| k in fields && fields[k] == f;
      assert k in Names(order);
      var i :| 0 <= i < |order| && order[i].name == k;
      assert order[i] == f;
    }
    forall f | f in Listed(order, |order|)
      ensures f in fields.Values
    {
      var i :| 0 <= i < |order| && order[i] == f;
      assert fields[order[i].name] == f;
    }
  }

  /** The names in a listing, and how many there are when none repeats. */
  function Names(order: seq<Field>): (names: set<seq<byte>>)
    ensures forall name :: name in names <==> exists i :: 0 <= i < |order| && order[i].name == name
    decreases |order|
  {
    if order == [] then {}
    else
      var init, last := order[..|order| - 1], order[|order| - 1];
      assert forall i :: 0 <= i < |order| ==> order[i] == if i < |init| then init[i] else last;
      Names(init) + {last.name}
  }

  lemma {:induction false} NamesCount(order: seq<Field>)
    requires forall i, j :: 0 <= i < j < |order| ==> order[i].name != order[j].name
    ensures |Names(order)| == |order|
    decreases |order|
  {
    if order != [] {
      var init, last := order[..|order| - 1], order[|order| - 1];
      assert forall i :: 0 <= i < |init| ==> init[i] == order[i];
      NamesCount(init);
      assert last.name !in Names(init);
    }
  }

  lemma SubsetOfSameSize<T>(a: set<T>, b: set<T>)
    requires a <= b && |a| == |b|
    ensures a == b
  {
    assert |b - a| == 0;
  }

  // ---- Racing offset hints ----

  /** The field a decoder picks: a hint is trusted only when its name is the key. */
  function Choose(hint: Option<Field>, fields: Fields, key: seq<byte>): Option<Field> {
    if hint.Some? && hint.value.name == key then hint else Get(fields, key)
  }

  /** Contents of the hint slots: fields of this type only. */
  predicate HintsValid(hints: map<nat, Field>, fields: Fields) {
    forall i :: i in hints ==> hints[i].name in fields && fields[hints[i].name] == hints[i]
  }

  /** CompareAndSwap(nil, field): fills a slot once. */
  function FillOnce(hints: map<nat, Field>, i: nat, field: Field): map<nat, Field> {
    if i in hints then hints else hints[i := field]
  }

  /** A slot and the key whose field some decoder tries to store there. */
  datatype Fill = Fill(slot: nat, key: seq<byte>)

  /** The hints after racing decoders stored what they found, in the order their operations took effect. */
  function AfterFills(fields: Fields, fills: seq<Fill>): map<nat, Field> {
    if fills == [] then map[]
    else
      var before := AfterFills(fields, fills[..|fills| - 1]);
      var fill := fills[|fills| - 1];
      if fill.key in fields then FillOnce(before, fill.slot, fields[fill.key]) else before
  }

  lemma {:induction false} FillsStayValid(fields: Fields, fills: seq<Fill>)
    requires WellNamed(fields)
    ensures HintsValid(AfterFills(fields, fills), fields)
  {
    if fills != [] {
      FillsStayValid(fields, fills[..|fills| - 1]);
    }
  }

  /** Whatever racing decoders stored, in whatever order, the field chosen through any slot is the map's. */
  lemma HintsInvisible(fields: Fields, fills: seq<Fill>, key: seq<byte>, slot: nat)
    requires WellNamed(fields)
    ensures var hints := AfterFills(fields, fills);
            var r := Choose(if slot in hints then Some(hints[slot]) else None, fields, key);
            (r.Some? <==> key in fields) && (r.Some? ==> r.value == fields[key])
  {
    FillsStayValid(fields, fills);
  }
}
