/** The binary search tree: packed records, one-bit walks and what they reach (reader.go). */
module SearchTree {
  import opened Core

  /** The immutable part of a Reader. `buffer` starts with the search tree; `data` is the data section. */
  datatype Database = Database(
    buffer: seq<byte>,
    data: seq<byte>,
    nodeCount: nat,
    recordSize: nat,
    ipVersion: nat)

  const SEPARATOR_SIZE: nat := 16

  /** Both children of the node stored at `base`; the shared byte of a 28-bit node holds two nibbles. */
  function ReadNodePair(buffer: seq<byte>, base: nat, recordSize: nat): (r: Option<(nat, nat)>)
    ensures r.Some? ==> r.value.0 < 0x1_0000_0000 && r.value.1 < 0x1_0000_0000
  {
    if recordSize == 24 then
      if !HasBufferRange(|buffer|, base, 6) then None else
      Some((Load24(buffer, base), Load24(buffer, base + 3)))
    else if recordSize == 28 then
      if !HasBufferRange(|buffer|, base, 7) then None else
      var shared := At(buffer, base + 3);
      Some((shared / 16 * 0x100_0000 + Load24(buffer, base), shared % 16 * 0x100_0000 + Load24(buffer, base + 4)))
    else if recordSize == 32 then
      if !HasBufferRange(|buffer|, base, 8) then None else
      Some((Load32(buffer, base), Load32(buffer, base + 4)))
    else None
  }

  /** The buffer holds every record of every node. */
  predicate Covered(db: Database) {
    || (db.recordSize == 24 && db.nodeCount * 6 <= |db.buffer|)
    || (db.recordSize == 28 && db.nodeCount * 7 <= |db.buffer|)
    || (db.recordSize == 32 && db.nodeCount * 8 <= |db.buffer|)
  }

  function NodeBase(db: Database, node: nat): nat {
    if db.recordSize == 24 then node * 6 else if db.recordSize == 28 then node * 7 else node * 8
  }

  /** The record of `node` selected by one address bit. */
  function Child(db: Database, node: nat, bit: bool): (pointer: nat)
    requires Covered(db) && node < db.nodeCount
    ensures pointer < 0x1_0000_0000
  {
    var pair := ReadNodePair(db.buffer, NodeBase(db, node), db.recordSize).value;
    if bit then pair.1 else pair.0
  }

  lemma ReadsChildren(db: Database, node: nat)
    requires Covered(db) && node < db.nodeCount
    ensures ReadNodePair(db.buffer, NodeBase(db, node), db.recordSize)
            == Some((Child(db, node, false), Child(db, node, true)))
  {
  }

  /** One-bit-at-a-time walk from `node` at depth `i`; stops at `stop` or on leaving the internal nodes. */
  function Walk(db: Database, node: nat, ip: seq<bool>, i: nat, stop: nat): (r: (nat, nat))
    requires Covered(db) && stop <= |ip|
    ensures i <= r.1
    ensures i <= stop ==> r.1 <= stop
    ensures i <= stop && r.0 < db.nodeCount ==> r.1 == stop
    decreases stop - i
  {
    if i >= stop || node >= db.nodeCount then (node, i)
    else Walk(db, Child(db, node, ip[i]), ip, i + 1, stop)
  }

  /** A walk may be interrupted at any depth and resumed. */
  lemma {:induction false} WalkResume(db: Database, node: nat, ip: seq<bool>, i: nat, mid: nat, stop: nat)
    requires Covered(db) && i <= mid <= stop <= |ip|
    ensures var m := Walk(db, node, ip, i, mid);
            Walk(db, node, ip, i, stop) == Walk(db, m.0, ip, m.1, stop)
    decreases mid - i
  {
    if i < mid && node < db.nodeCount {
      WalkResume(db, Child(db, node, ip[i]), ip, i + 1, mid, stop);
    }
  }

  /** A walk only looks at the bits between its two depths. */
  lemma {:induction false} WalkAgrees(db: Database, node: nat, a: seq<bool>, b: seq<bool>, i: nat, stop: nat)
    requires Covered(db) && stop <= |a| && stop <= |b|
    requires forall t :: i <= t < Walk(db, node, a, i, stop).1 ==> a[t] == b[t]
    ensures Walk(db, node, a, i, stop) == Walk(db, node, b, i, stop)
    decreases stop - i
  {
    if i < stop && node < db.nodeCount {
      assert a[i] == b[i] by {
        var next := Walk(db, Child(db, node, a[i]), a, i + 1, stop);
      }
      WalkAgrees(db, Child(db, node, a[i]), a, b, i + 1, stop);
    }
  }

  /** Depth of the tree's root: IPv4 databases start at bit 96 of the 128-bit address space. */
  function RootDepth(db: Database): nat {
    if db.ipVersion == 4 then 96 else 0
  }

  /** Offset in the data section named by a record greater than `nodeCount`. */
  function ResolveDataPointer(db: Database, pointer: nat): (r: Option<nat>)
    ensures r.Some? <==> db.nodeCount + SEPARATOR_SIZE <= pointer < db.nodeCount + SEPARATOR_SIZE + |db.data|
    ensures r.Some? ==> r.value < |db.data| && pointer == r.value + db.nodeCount + SEPARATOR_SIZE
  {
    var minPointer := db.nodeCount + SEPARATOR_SIZE;
    if pointer < minPointer then None
    else if pointer - minPointer >= |db.data| then None
    else Some(pointer - minPointer)
  }

  // ---- Paths: the reachable part of the record graph, which may be cyclic or shared ----

  /** The record reached by following every bit of `path`, if each node on the way is internal. */
  function Follow(db: Database, node: nat, path: seq<bool>): (r: Option<nat>)
    requires Covered(db)
    decreases |path|
  {
    if path == [] then Some(node)
    else if node >= db.nodeCount then None
    else Follow(db, Child(db, node, path[0]), path[1..])
  }

  /** Every path from record `p` leaves the internal nodes within `k` bits: no cycle, longest path at most `k`. */
  predicate Fits(db: Database, p: nat, k: nat)
    requires Covered(db)
    decreases k
  {
    p < db.nodeCount ==> k > 0 && Fits(db, Child(db, p, false), k - 1) && Fits(db, Child(db, p, true), k - 1)
  }

  lemma {:induction false} FitsMonotone(db: Database, p: nat, k: nat, m: nat)
    requires Covered(db) && k <= m && Fits(db, p, k)
    ensures Fits(db, p, m)
    decreases k
  {
    if p < db.nodeCount {
      FitsMonotone(db, Child(db, p, false), k - 1, m - 1);
      FitsMonotone(db, Child(db, p, true), k - 1, m - 1);
    }
  }

  lemma {:induction false} FollowAppend(db: Database, node: nat, a: seq<bool>, b: seq<bool>)
    requires Covered(db)
    ensures var m := Follow(db, node, a);
            Follow(db, node, a + b) == if m.None? then None else Follow(db, m.value, b)
    decreases |a|
  {
    if a == [] {
      assert a + b == b;
    } else {
      assert (a + b)[1..] == a[1..] + b;
      if node < db.nodeCount {
        FollowAppend(db, Child(db, node, a[0]), a[1..], b);
      }
    }
  }

  /** A bound on paths from `p` bounds what remains after following part of one. */
  lemma {:induction false} FitsFollow(db: Database, p: nat, path: seq<bool>, k: nat)
    requires Covered(db) && Fits(db, p, k) && Follow(db, p, path).Some?
    requires Follow(db, p, path).value < db.nodeCount
    ensures |path| < k && Fits(db, Follow(db, p, path).value, k - |path|)
    decreases |path|
  {
    if path != [] {
      FitsFollow(db, Child(db, p, path[0]), path[1..], k - 1);
    }
  }

  /** A node on a cycle fits no bound at all. */
  lemma {:induction false} CycleNeverFits(db: Database, p: nat, path: seq<bool>, k: nat)
    requires Covered(db) && p < db.nodeCount && path != []
    requires Follow(db, p, path) == Some(p)
    ensures !Fits(db, p, k)
    decreases k
  {
    if Fits(db, p, k) {
      FitsFollow(db, p, path, k);
      CycleNeverFits(db, p, path, k - |path|);
    }
  }

  /** Meaning of the bound in terms of whole paths: it holds exactly when no path of `k` bits stays internal. */
  lemma {:induction false} FitsMeaning(db: Database, p: nat, k: nat)
    requires Covered(db)
    ensures Fits(db, p, k) <==>
            forall path: seq<bool> :: |path| == k && Follow(db, p, path).Some? ==> Follow(db, p, path).value >= db.nodeCount
    decreases k
  {
    if Fits(db, p, k) {
      forall path: seq<bool> | |path| == k && Follow(db, p, path).Some?
        ensures Follow(db, p, path).value >= db.nodeCount
      {
        if Follow(db, p, path).value < db.nodeCount { FitsFollow(db, p, path, k); }
      }
    } else {
      var path := StayInternal(db, p, k);
      assert |path| == k && Follow(db, p, path).Some?;
    }
  }

  /** When the bound fails there is a path of exactly `k` bits ending in an internal node. */
  lemma {:induction false} StayInternal(db: Database, p: nat, k: nat) returns (path: seq<bool>)
    requires Covered(db) && !Fits(db, p, k)
    ensures |path| == k && Follow(db, p, path).Some? && Follow(db, p, path).value < db.nodeCount
    decreases k
  {
    if k == 0 {
      path := [];
    } else {
      var bit := Fits(db, Child(db, p, false), k - 1);
      var rest := StayInternal(db, Child(db, p, bit), k - 1);
      path := [bit] + rest;
      assert path[1..] == rest;
    }
  }

  /** A walk with enough bits left ends outside the internal nodes, at the record its bits lead to. */
  lemma {:induction false} WalkFollows(db: Database, node: nat, ip: seq<bool>, i: nat, stop: nat)
    requires Covered(db) && i <= stop <= |ip|
    ensures var r := Walk(db, node, ip, i, stop);
            Follow(db, node, ip[i..r.1]) == Some(r.0)
    ensures Fits(db, node, stop - i) ==> Walk(db, node, ip, i, stop).0 >= db.nodeCount
    decreases stop - i
  {
    if i < stop && node < db.nodeCount {
      var next := Child(db, node, ip[i]);
      WalkFollows(db, next, ip, i + 1, stop);
      var end := Walk(db, next, ip, i + 1, stop).1;
      assert ip[i..end][1..] == ip[i + 1..end];
    }
  }
}
