/** The packed form of search-tree nodes and that every walk reads it back (MaxMind DB format, "Node Layout"). */
module NodeLayout {
  import opened Core
  import opened SearchTree
  import opened LookupReader
  import opened Networks
  import opened Values
  import opened Encoding

  type Node = (nat, nat)

  predicate IsRecordSize(recordSize: nat) {
    recordSize == 24 || recordSize == 28 || recordSize == 32
  }

  /** Records of `recordSize` bits. */
  predicate NodeFits(node: Node, recordSize: nat) {
    var limit := if recordSize == 24 then 0x100_0000 else if recordSize == 28 then 0x1000_0000 else 0x1_0000_0000;
    node.0 < limit && node.1 < limit
  }

  /** Left record first, big-endian; in 28-bit nodes the middle byte holds the high nibble of either record. */
  function EncodeNode(node: Node, recordSize: nat): (bytes: seq<byte>)
    requires IsRecordSize(recordSize) && NodeFits(node, recordSize)
    ensures |bytes| == recordSize / 4
  {
    if recordSize == 24 then BytesOf(node.0, 3) + BytesOf(node.1, 3)
    else if recordSize == 28 then
      BytesOf(node.0 % 0x100_0000, 3)
      + [node.0 / 0x100_0000 * 16 + node.1 / 0x100_0000]
      + BytesOf(node.1 % 0x100_0000, 3)
    else BytesOf(node.0, 4) + BytesOf(node.1, 4)
  }

  predicate AllFit(nodes: seq<Node>, recordSize: nat) {
    forall i :: 0 <= i < |nodes| ==> NodeFits(nodes[i], recordSize)
  }

  function EncodeTree(nodes: seq<Node>, recordSize: nat): (bytes: seq<byte>)
    requires IsRecordSize(recordSize) && AllFit(nodes, recordSize)
  {
    if nodes == [] then []
    else EncodeTree(nodes[..|nodes| - 1], recordSize) + EncodeNode(nodes[|nodes| - 1], recordSize)
  }

  lemma InitFits(nodes: seq<Node>, recordSize: nat)
    requires nodes != [] && AllFit(nodes, recordSize)
    ensures AllFit(nodes[..|nodes| - 1], recordSize) && NodeFits(nodes[|nodes| - 1], recordSize)
  {
  }

  lemma OneMore(n: nat, d: nat)
    ensures (n + 1) * d == n * d + d
  {
  }

  lemma {:induction false} TreeLength(nodes: seq<Node>, recordSize: nat)
    requires IsRecordSize(recordSize) && AllFit(nodes, recordSize)
    ensures |EncodeTree(nodes, recordSize)| == |nodes| * (recordSize / 4)
  {
    hide EncodeNode, NodeFits, AllFit;
    if nodes != [] {
      var init := nodes[..|nodes| - 1];
      InitFits(nodes, recordSize);
      TreeLength(init, recordSize);
      OneMore(|init|, recordSize / 4);
    }
  }

  lemma PlacedLoad24(buffer: seq<byte>, base: nat, n: nat)
    requires n < 0x100_0000 && Placed(buffer, base, BytesOf(n, 3))
    ensures Load24(buffer, base) == n
  {
    hide BytesOf;
    Bytes3(n);
    PlacedAt(buffer, base, BytesOf(n, 3), 0);
    PlacedAt(buffer, base, BytesOf(n, 3), 1);
    PlacedAt(buffer, base, BytesOf(n, 3), 2);
  }

  lemma PlacedLoad32(buffer: seq<byte>, base: nat, n: nat)
    requires n < TWO32 && Placed(buffer, base, BytesOf(n, 4))
    ensures Load32(buffer, base) == n
  {
    hide BytesOf;
    Bytes4(n);
    PlacedAt(buffer, base, BytesOf(n, 4), 0);
    PlacedAt(buffer, base, BytesOf(n, 4), 1);
    PlacedAt(buffer, base, BytesOf(n, 4), 2);
    PlacedAt(buffer, base, BytesOf(n, 4), 3);
  }

  /** A node of any record size reads back as its two records, left and right. */
  lemma NodeRoundTrip(buffer: seq<byte>, base: nat, node: Node, recordSize: nat)
    requires IsRecordSize(recordSize) && NodeFits(node, recordSize)
    requires Placed(buffer, base, EncodeNode(node, recordSize))
    ensures ReadNodePair(buffer, base, recordSize) == Some(node)
  {
    hide BytesOf, Placed, Load24, Load32;
    var (left, right) := node;
    if recordSize == 24 {
      PlacedSplit(buffer, base, BytesOf(left, 3), BytesOf(right, 3));
      PlacedLoad24(buffer, base, left);
      PlacedLoad24(buffer, base + 3, right);
      PlacedFits(buffer, base, EncodeNode(node, recordSize));
    } else if recordSize == 32 {
      PlacedSplit(buffer, base, BytesOf(left, 4), BytesOf(right, 4));
      PlacedLoad32(buffer, base, left);
      PlacedLoad32(buffer, base + 4, right);
      PlacedFits(buffer, base, EncodeNode(node, recordSize));
    } else {
      NodeRoundTrip28(buffer, base, left, right);
    }
  }

  lemma PlacedFits(buffer: seq<byte>, base: nat, bytes: seq<byte>)
    requires Placed(buffer, base, bytes)
    ensures base + |bytes| <= |buffer|
  {
  }

  lemma NodeRoundTrip28(buffer: seq<byte>, base: nat, left: nat, right: nat)
    requires NodeFits((left, right), 28) && Placed(buffer, base, EncodeNode((left, right), 28))
    ensures ReadNodePair(buffer, base, 28) == Some((left, right))
  {
    hide BytesOf, Placed, Load24;
    var low, high := BytesOf(left % 0x100_0000, 3), BytesOf(right % 0x100_0000, 3);
    var shared: seq<byte> := [left / 0x100_0000 * 16 + right / 0x100_0000];
    PlacedFits(buffer, base, EncodeNode((left, right), 28));
    PlacedSplit(buffer, base, low + shared, high);
    PlacedSplit(buffer, base, low, shared);
    PlacedLoad24(buffer, base, left % 0x100_0000);
    PlacedLoad24(buffer, base + 4, right % 0x100_0000);
    PlacedAt(buffer, base + 3, shared, 0);
    DivMod(shared[0], 16, left / 0x100_0000, right / 0x100_0000);
  }

  /** Every node stands in the encoded tree at its index times the node size. */
  lemma {:induction false} NodePlaced(buffer: seq<byte>, nodes: seq<Node>, recordSize: nat, i: nat)
    requires IsRecordSize(recordSize) && AllFit(nodes, recordSize)
    requires Placed(buffer, 0, EncodeTree(nodes, recordSize)) && i < |nodes|
    ensures Placed(buffer, i * (recordSize / 4), EncodeNode(nodes[i], recordSize))
    decreases |nodes|
  {
    hide EncodeNode, NodeFits, Placed;
    var init, last := nodes[..|nodes| - 1], nodes[|nodes| - 1];
    TreeLength(init, recordSize);
    PlacedSplit(buffer, 0, EncodeTree(init, recordSize), EncodeNode(last, recordSize));
    if i < |init| {
      NodePlaced(buffer, init, recordSize, i);
    }
  }

  /** A buffer that starts with an encoded tree covers it, and every child and traversal load is the encoded record. */
  lemma TreeRoundTrip(db: Database, nodes: seq<Node>)
    requires IsRecordSize(db.recordSize) && |nodes| == db.nodeCount
    requires AllFit(nodes, db.recordSize)
    requires Placed(db.buffer, 0, EncodeTree(nodes, db.recordSize))
    ensures Covered(db)
    ensures forall i :: 0 <= i < |nodes| ==> Child(db, i, false) == nodes[i].0 && Child(db, i, true) == nodes[i].1
    ensures forall i :: 0 <= i < |nodes| ==> LoadRecord(db, i, 0) == nodes[i].0 && LoadRecord(db, i, 1) == nodes[i].1
  {
    hide EncodeNode, EncodeTree, NodeFits, Placed, Child, LoadRecord, ReadNodePair;
    TreeLength(nodes, db.recordSize);
    PlacedFits(db.buffer, 0, EncodeTree(nodes, db.recordSize));
    forall i | 0 <= i < |nodes|
      ensures Child(db, i, false) == nodes[i].0 && Child(db, i, true) == nodes[i].1
      ensures LoadRecord(db, i, 0) == nodes[i].0 && LoadRecord(db, i, 1) == nodes[i].1
    {
      NodePlaced(db.buffer, nodes, db.recordSize, i);
      NodeRoundTrip(db.buffer, NodeBase(db, i), nodes[i], db.recordSize);
      ReadsChildren(db, i);
      LoadIsChild(db, i, false);
      LoadIsChild(db, i, true);
    }
  }

  // ---- A network that default iteration loses ----

  /** One 24-bit node whose two records are the same data record; its bytes are the whole tree. */
  function SharedRecordTree(): Database {
    Database([0, 0, 17, 0, 0, 17], [0xE0], 1, 24, 6)
  }

  /**
   * In that tree the IPv4 start is the data record itself, so default iteration of ::/0 takes 8000::/1 for an alias
   * and drops it, although it is no alias of an IPv4 network and has data.
   */
  lemma SharedRecordIsLost()
    ensures var db := SharedRecordTree();
            && Covered(db) && Fits(db, 0, 128) && IPv4Start(db) == (17, 1)
            && var start := StartNode(db, V6(Zeros(128)), 0);
               var full := VisitNode(db, 17, FULL, start).items;
               && |full| == 2 && full[0].outcome == full[1].outcome == Ok(Some(0))
               && VisitNode(db, 17, DEFAULT, start).items == [full[0]]
  {
    hide Item, Mask;
    var db := SharedRecordTree();
    var zeros := V6(Zeros(128));
    assert Child(db, 0, false) == 17 && Child(db, 0, true) == 17;
    assert Walk(db, 17, Zeros(128), 1, 96) == (17, 1);
    assert StartNode(db, zeros, 0) == NetNode(Mask(Zeros(128), 0), 0, 0);
    ZeroMask();
    var start := NetNode(Zeros(128), 0, 0);
    var l, r := LeftOf(db, start), RightOf(db, start);
    assert InIPv4Subtree(l.ip) && !InIPv4Subtree(r.ip) by {
      assert r.ip[..96][0];
    }
    assert VisitNode(db, 17, FULL, l).items == [Item(l.ip, 1, Ok(Some(0)))];
    assert VisitNode(db, 17, FULL, r).items == [Item(r.ip, 1, Ok(Some(0)))];
    assert VisitNode(db, 17, DEFAULT, l).items == [Item(l.ip, 1, Ok(Some(0)))];
    assert VisitNode(db, 17, DEFAULT, r).items == [];
  }

  lemma ZeroMask()
    ensures Mask(Zeros(128), 0) == Zeros(128)
  {
  }
}
