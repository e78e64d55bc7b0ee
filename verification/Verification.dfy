/** End to end: what a successful verification of tree, separator and data section promises to every lookup (verifier.go). */
module Verification {
  import opened Core
  import opened SearchTree
  import opened LookupReader
  import opened TreeVerifier
  import opened DataVerifier
  import opened Networks
  import opened Decoder
  import opened Values
  import Grammar

  /** searchTreeSizeBytes: two records of `recordSize` bits for each node. */
  function TreeSize(db: Database): nat {
    db.nodeCount * (db.recordSize / 4)
  }

  /** Zero bytes separate the tree from the data section. */
  predicate SeparatorPresent(db: Database) {
    var start := TreeSize(db);
    start + SEPARATOR_SIZE <= |db.buffer| && forall i :: start <= i < start + SEPARATOR_SIZE ==> db.buffer[i] == 0
  }

  /** verifyDataSectionSeparator: sixteen bytes are sliced out and compared with zeros. */
  method VerifySeparator(db: Database) returns (ok: bool)
    ensures ok <==> SeparatorPresent(db)
  {
    var start := TreeSize(db);
    if start + SEPARATOR_SIZE > |db.buffer| { return false; }
    var separator := db.buffer[start..start + SEPARATOR_SIZE];
    var zeros: seq<byte> := seq(SEPARATOR_SIZE, _ => 0);
    assert forall k :: 0 <= k < SEPARATOR_SIZE ==> db.buffer[start + k] == separator[k];
    assert forall i :: start <= i < start + SEPARATOR_SIZE ==> db.buffer[i] == separator[i - start];
    return separator == zeros;
  }

  /** The database meets everything `Verify` checks below the metadata. */
  ghost predicate Sound(utf8: seq<byte> -> bool, db: Database)
    requires Covered(db)
  {
    && SoundTree(db)
    && SeparatorPresent(db)
    && Records(utf8, db.data, 0).Some?
    && forall o: nat :: o in Records(utf8, db.data, 0).value <==> Reachable(db, o + db.nodeCount + SEPARATOR_SIZE)
  }

  /** verifyDatabase accepts exactly the sound databases, and these have sixteen zero bytes after the tree. */
  method VerifyDatabase(utf8: seq<byte> -> bool, db: Database) returns (ok: bool)
    requires db.nodeCount > 0 && |db.data| <= MAX_LEN
    ensures ok <==> Covered(db) && Sound(utf8, db)
    ensures ok ==> var start := db.nodeCount * (db.recordSize / 4);
                   start + 16 <= |db.buffer| && forall i :: start <= i < start + 16 ==> db.buffer[i] == 0
  {
    hide Child, SoundTree, Records, Reachable;
    var tree := VerifySearchTree(db);
    if tree.Err? { return false; }
    var separated := VerifySeparator(db);
    if !separated { return false; }
    ok := VerifyDataSection(utf8, db.data, tree.value.0);
    ghost var starts := Records(utf8, db.data, 0);
    if starts.Some? {
      if Sound(utf8, db) {
        assert tree.value.0 == set o | o in starts.value;
      }
      if ok {
        assert forall o: nat :: o in starts.value <==> o in tree.value.0;
      }
    }
  }

  /** Every data pointer the root of a sound database reaches names the start of a record that decodes. */
  lemma ReachedRecord(utf8: seq<byte> -> bool, db: Database, pointer: nat)
    requires Covered(db) && Sound(utf8, db) && Reachable(db, pointer) && pointer > db.nodeCount
    ensures var o := ResolveDataPointer(db, pointer);
            o.Some? && o.value in Records(utf8, db.data, 0).value && Decodes(db.data, o.value)
  {
    hide Child, Fits, Records, Follow, Decodes;
    var o := ResolveDataPointer(db, pointer).value;
    RecordsTile(utf8, db.data, 0);
    var starts := Records(utf8, db.data, 0).value;
    assert o in starts;
    var k :| 0 <= k < |starts| && starts[k] == o;
  }

  /** In a sound database every 128-bit walk leads to nothing or to the start of a record that decodes. */
  lemma SoundWalk(utf8: seq<byte> -> bool, db: Database, bits: seq<bool>)
    requires Covered(db) && Sound(utf8, db) && |bits| == 128
    ensures var w := Walk(db, 0, bits, RootDepth(db), 128).0;
            && db.nodeCount <= w
            && (w != db.nodeCount ==>
                  && db.nodeCount + SEPARATOR_SIZE <= w < db.nodeCount + SEPARATOR_SIZE + |db.data|
                  && w - db.nodeCount - SEPARATOR_SIZE in Records(utf8, db.data, 0).value
                  && Decodes(db.data, w - db.nodeCount - SEPARATOR_SIZE))
  {
    hide Child, Fits, Records, Follow, Decodes, Walk;
    var root := RootDepth(db);
    var w := Walk(db, 0, bits, root, 128);
    WalkFollows(db, 0, bits, root, 128);
    assert Fits(db, 0, 128 - root);
    assert w.0 >= db.nodeCount;
    if w.0 > db.nodeCount {
      assert Follow(db, 0, bits[root..w.1]) == Some(w.0);
      ReachedRecord(utf8, db, w.0);
    }
  }

  /** The versions whose metadata the verifier accepts. */
  predicate KnownVersion(db: Database) {
    db.ipVersion == 4 || db.ipVersion == 6
  }

  /**
   * Looking up and decoding in a sound database never fails. The full walk of the address ends at the empty record,
   * and the result is "not found", or it ends at the record of one of the offsets that tile the data section, and the
   * result is the value there.
   */
  method LookupAndDecode(ghost utf8: seq<byte> -> bool, reader: Reader, ip: Address) returns (r: Result<Option<Value>>)
    requires reader.Ready() && |reader.db.data| <= MAX_LEN && KnownVersion(reader.db) && Sound(utf8, reader.db)
    requires IsAddress(ip) && !(reader.db.ipVersion == 4 && ip.V6?)
    ensures var w := Walk(reader.db, 0, Embed(ip), RootDepth(reader.db), 128).0;
            && w >= reader.db.nodeCount
            && (r == Ok(None) <==> w == reader.db.nodeCount)
            && (w != reader.db.nodeCount ==>
                  && w >= reader.db.nodeCount + SEPARATOR_SIZE
                  && var offset := w - reader.db.nodeCount - SEPARATOR_SIZE;
                     var p := Grammar.Parse(reader.db.data, offset, 0, false);
                     offset in Records(utf8, reader.db.data, 0).value && p.Some? && r == Ok(Some(p.value.value)))
  {
    hide Child, Records, SoundTree, Walk, Answer, Grammar.Parse;
    StartIsRoot(reader.db, ip);
    SoundWalk(utf8, reader.db, Embed(ip));
    var found := reader.Lookup(ip);
    ghost var w := Walk(reader.db, 0, Embed(ip), RootDepth(reader.db), 128).0;
    assert w != reader.db.nodeCount ==> found.outcome == Ok(Some(w - reader.db.nodeCount - SEPARATOR_SIZE));
    match found.outcome
    case Err(e) => return Err(e);
    case Ok(None) => return Ok(None);
    case Ok(Some(offset)) =>
      var v := DecodeFresh(reader.db.data, offset);
      match v
      case Err(e) => return Err(e);
      case Ok(p) => return Ok(Some(p.value));
  }

  /** Full iteration over a sound database yields only empty networks and starts of records that decode. */
  lemma SoundNetworks(utf8: seq<byte> -> bool, db: Database, v4: nat, addr: Address, bits: nat, k: nat)
    requires Covered(db) && KnownVersion(db) && Sound(utf8, db)
    requires IsAddress(addr) && bits <= |addr.bits| && AcceptsFamily(db, addr)
    requires k < |VisitNode(db, v4, FULL, StartNode(db, addr, bits)).items|
    ensures var outcome := VisitNode(db, v4, FULL, StartNode(db, addr, bits)).items[k].outcome;
            && outcome.Ok?
            && (outcome.value.Some? ==>
                  outcome.value.value in Records(utf8, db.data, 0).value && Decodes(db.data, outcome.value.value))
  {
    hide Child, Fits, Records, Decodes, Walk, VisitNode, Answer, Embed, StartNode;
    StartIsRoot(db, addr);
    FullIteration(db, v4, addr, bits);
    var items := VisitNode(db, v4, FULL, StartNode(db, addr, bits)).items;
    var start := StartNode(db, addr, bits);
    TilesInside(items, start.ip[..start.bit], k);
    var a := Embed(items[k].ip);
    assert Inside(Net(items[k]), a);
    SoundWalk(utf8, db, a);
    var w := Walk(db, 0, a, RootDepth(db), 128).0;
    assert w != db.nodeCount ==> items[k].outcome == Ok(Some(w - db.nodeCount - SEPARATOR_SIZE));
  }
}
