/** Search-tree verification: a memoised depth-first walk with cycle detection and subtree heights (verifier.go). */
module TreeVerifier {
  import opened Core
  import opened SearchTree

  const UNVISITED: byte := 0
  const VISITING: byte := 255

  ghost predicate Reachable(db: Database, pointer: nat)
    requires Covered(db)
  {
    exists path :: Follow(db, 0, path) == Some(pointer)
  }

  /** What the verifier promises: bounded paths from the root, and every reachable data pointer resolves. */
  ghost predicate SoundTree(db: Database)
    requires Covered(db)
  {
    && Fits(db, 0, 128 - RootDepth(db))
    && forall p: nat :: Reachable(db, p) && p > db.nodeCount ==> ResolveDataPointer(db, p).Some?
  }

  /** `h` is the length of the longest path from node `n`. */
  predicate ExactHeight(db: Database, n: nat, h: nat)
    requires Covered(db)
  {
    h > 0 && Fits(db, n, h) && !Fits(db, n, h - 1)
  }

  function Visited(states: seq<byte>): set<nat> {
    set n | 0 <= n < |states| && states[n] != UNVISITED
  }

  predicate Finished(states: seq<byte>, n: nat) {
    n < |states| && 1 <= states[n] <= 128
  }

  /** A record below a finished node is itself dealt with. */
  predicate Settled(db: Database, states: seq<byte>, offsets: set<nat>, p: nat) {
    && (p < db.nodeCount ==> Finished(states, p))
    && (p > db.nodeCount ==> ResolveDataPointer(db, p).Some? && ResolveDataPointer(db, p).value in offsets)
  }

  /** Invariant of the walk over the memo table and the collected offsets. */
  ghost predicate Consistent(db: Database, states: seq<byte>, offsets: set<nat>)
    requires Covered(db)
  {
    && |states| == db.nodeCount
    && (forall n :: 0 <= n < |states| && states[n] != UNVISITED ==> Reachable(db, n))
    && (forall n :: 0 <= n < |states| && states[n] != UNVISITED && states[n] != VISITING ==>
          Finished(states, n) && ExactHeight(db, n, states[n]))
    && (forall n, bit {:trigger Child(db, n, bit)} :: Finished(states, n) ==>
          Settled(db, states, offsets, Child(db, n, bit)))
    && (forall o :: o in offsets ==> Reachable(db, o + db.nodeCount + SEPARATOR_SIZE))
  }

  /** Nodes being visited lie on the current path from the root, above its end. */
  ghost predicate OnPath(db: Database, states: seq<byte>, path: seq<bool>)
    requires Covered(db)
  {
    forall n :: 0 <= n < |states| && states[n] == VISITING ==>
      exists i :: 0 <= i < |path| && Follow(db, 0, path[..i]) == Some(n)
  }

  /** A path that comes back to a node it already passed refutes every bound at the root. */
  lemma CycleBelowRoot(db: Database, node: nat, a: seq<bool>, b: seq<bool>)
    requires Covered(db) && node < db.nodeCount && b != []
    requires Follow(db, 0, a) == Some(node) && Follow(db, 0, a + b) == Some(node)
    ensures !SoundTree(db)
  {
    hide Child, Fits, Follow;
    var k := 128 - RootDepth(db);
    FollowAppend(db, 0, a, b);
    if Fits(db, 0, k) {
      FitsFollow(db, 0, a, k);
      CycleNeverFits(db, node, b, k - |a|);
    }
  }

  /** Meeting a node that is being visited again closes a cycle below the root. */
  lemma RevisitIsCycle(db: Database, states: seq<byte>, node: nat, path: seq<bool>)
    requires Covered(db) && |states| == db.nodeCount && OnPath(db, states, path)
    requires node < db.nodeCount && states[node] == VISITING && Follow(db, 0, path) == Some(node)
    ensures !SoundTree(db)
  {
    hide Follow, SoundTree;
    var i :| 0 <= i < |path| && Follow(db, 0, path[..i]) == Some(node);
    assert path == path[..i] + path[i..];
    CycleBelowRoot(db, node, path[..i], path[i..]);
  }

  /** A node too tall for its depth contradicts the bound at the root. */
  lemma TooTall(db: Database, node: nat, path: seq<bool>, h: nat)
    requires Covered(db) && node < db.nodeCount && Follow(db, 0, path) == Some(node)
    requires !Fits(db, node, h) && 128 <= h + RootDepth(db) + |path|
    ensures !SoundTree(db)
  {
    hide Child, Fits;
    var k := 128 - RootDepth(db);
    if Fits(db, 0, k) {
      FitsFollow(db, 0, path, k);
      FitsMonotone(db, node, k - |path|, h);
    }
  }

  lemma BadPointer(db: Database, pointer: nat, path: seq<bool>)
    requires Covered(db) && pointer > db.nodeCount && Follow(db, 0, path) == Some(pointer)
    requires ResolveDataPointer(db, pointer).None?
    ensures !SoundTree(db)
  {
    assert Reachable(db, pointer);
  }

  /** The height computed from the children is exact. */
  lemma HeightStep(db: Database, node: nat, left: nat, right: nat)
    requires Covered(db) && node < db.nodeCount
    requires RecordHeight(db, Child(db, node, false), left) && RecordHeight(db, Child(db, node, true), right)
    ensures ExactHeight(db, node, 1 + if left < right then right else left)
  {
    hide Child;
    var h := if left < right then right else left;
    FitsMonotone(db, Child(db, node, false), left, h);
    FitsMonotone(db, Child(db, node, true), right, h);
  }

  predicate RecordHeight(db: Database, p: nat, h: nat)
    requires Covered(db)
  {
    if p < db.nodeCount then ExactHeight(db, p, h) else h == 0
  }

  /** Once nothing is being visited, every path from a finished root stays among settled records. */
  lemma {:induction false} AllSettled(db: Database, states: seq<byte>, offsets: set<nat>, path: seq<bool>)
    requires Covered(db) && Consistent(db, states, offsets) && Finished(states, 0)
    requires Follow(db, 0, path).Some?
    ensures Settled(db, states, offsets, Follow(db, 0, path).value)
    decreases |path|
  {
    hide Child;
    if path != [] {
      var init, last := path[..|path| - 1], path[|path| - 1];
      assert path == init + [last];
      FollowAppend(db, 0, init, [last]);
      AllSettled(db, states, offsets, init);
      var n := Follow(db, 0, init).value;
      var p := Follow(db, 0, path).value;
      assert n < db.nodeCount && p == Child(db, n, last) by {
        assert [last][1..] == [];
      }
    }
  }

  lemma InternalNeedsABit(db: Database, node: nat)
    requires Covered(db) && node < db.nodeCount
    ensures !Fits(db, node, 0)
  {
  }

  lemma VisitedGrows(states: seq<byte>, node: nat)
    requires node < |states| && states[node] == UNVISITED
    ensures |Visited(states[node := VISITING])| == |Visited(states)| + 1
  {
    assert Visited(states[node := VISITING]) == Visited(states) + {node};
  }

  /** Marking an unvisited node keeps the invariant. */
  lemma MarkVisiting(db: Database, states: seq<byte>, offsets: set<nat>, node: nat, path: seq<bool>)
    requires Covered(db) && Consistent(db, states, offsets)
    requires node < db.nodeCount && states[node] == UNVISITED && Follow(db, 0, path) == Some(node)
    ensures Consistent(db, states[node := VISITING], offsets)
    ensures |Visited(states[node := VISITING])| == |Visited(states)| + 1
  {
    hide Child, ExactHeight, Follow, ResolveDataPointer, Visited;
    var marked := states[node := VISITING];
    assert Reachable(db, node);
    VisitedGrows(states, node);
    forall n, bit | Finished(marked, n)
      ensures Settled(db, marked, offsets, Child(db, n, bit))
    {
      assert Finished(states, n);
      assert Settled(db, states, offsets, Child(db, n, bit));
    }
  }

  /** A node marked at the end of the path is on the path to either child; nodes no longer visited do not matter. */
  lemma StaysOnPath(db: Database, before: seq<byte>, after: seq<byte>, node: nat, path: seq<bool>, bit: bool)
    requires Covered(db) && OnPath(db, before, path) && |before| == |after|
    requires node < db.nodeCount && Follow(db, 0, path) == Some(node)
    requires forall n :: 0 <= n < |after| && after[n] == VISITING ==> n == node || before[n] == VISITING
    ensures OnPath(db, after, path + [bit])
  {
    hide Follow;
    forall n | 0 <= n < |after| && after[n] == VISITING
      ensures exists i :: 0 <= i < |path + [bit]| && Follow(db, 0, (path + [bit])[..i]) == Some(n)
    {
      if n == node {
        assert (path + [bit])[..|path|] == path;
      } else {
        var i :| 0 <= i < |path| && Follow(db, 0, path[..i]) == Some(n);
        assert (path + [bit])[..i] == path[..i];
      }
    }
  }

  lemma SettledGrows(db: Database, states: seq<byte>, offsets: set<nat>, states': seq<byte>, offsets': set<nat>, p: nat)
    requires Settled(db, states, offsets, p) && offsets <= offsets' && |states| == |states'|
    requires forall n :: 0 <= n < |states| && states[n] != UNVISITED ==> states'[n] == states[n]
    ensures Settled(db, states', offsets', p)
  {
  }

  lemma HeightIsLeast(db: Database, node: nat, h: nat)
    requires Covered(db) && ExactHeight(db, node, h)
    ensures !Fits(db, node, h - 1)
  {
  }

  /** A memo entry that is neither unvisited nor being visited is a finished height. */
  lemma MemoIsHeight(db: Database, states: seq<byte>, offsets: set<nat>, node: nat)
    requires Covered(db) && Consistent(db, states, offsets) && node < db.nodeCount
    ensures |states| == db.nodeCount
    ensures states[node] != UNVISITED && states[node] != VISITING ==> Finished(states, node)
    ensures Finished(states, node) ==> ExactHeight(db, node, states[node])
  {
  }

  /** Recording the height of a node whose children are settled keeps the invariant. */
  lemma Finish(db: Database, states: seq<byte>, offsets: set<nat>, node: nat, h: byte)
    requires Covered(db) && Consistent(db, states, offsets)
    requires node < db.nodeCount && states[node] == VISITING && 1 <= h <= 128 && ExactHeight(db, node, h)
    requires Settled(db, states, offsets, Child(db, node, false)) && Settled(db, states, offsets, Child(db, node, true))
    ensures Consistent(db, states[node := h], offsets)
    ensures Visited(states[node := h]) == Visited(states)
  {
    hide Child, Fits;
    var done := states[node := h];
    forall n, bit | Finished(done, n)
      ensures Settled(db, done, offsets, Child(db, n, bit))
    {
      if n != node {
        assert Finished(states, n);
      }
      assert Settled(db, states, offsets, Child(db, n, bit));
    }
  }

  lemma FollowNothing(db: Database)
    requires Covered(db)
    ensures Follow(db, 0, []) == Some(0)
  {
  }

  lemma FollowOne(db: Database, node: nat)
    requires Covered(db) && node < db.nodeCount
    ensures forall bit :: Follow(db, node, [bit]) == Some(Child(db, node, bit))
  {
    forall bit
      ensures Follow(db, node, [bit]) == Some(Child(db, node, bit))
    {
      assert [bit][1..] == [];
    }
  }

  /** A finished walk within the depth limit has settled everything the root reaches, and nothing else. */
  lemma FinishedTree(db: Database, states: seq<byte>, offsets: set<nat>, h: nat)
    requires Covered(db) && Consistent(db, states, offsets) && db.nodeCount > 0
    requires forall n :: 0 <= n < |states| ==> states[n] != VISITING
    requires Finished(states, 0) && h == states[0] && RootDepth(db) + h <= 128
    ensures SoundTree(db)
    ensures forall o: nat :: o in offsets <==> Reachable(db, o + db.nodeCount + SEPARATOR_SIZE)
    ensures Visited(states) == set n | 0 <= n < db.nodeCount && Reachable(db, n)
  {
    hide Child, Fits;
    FitsMonotone(db, 0, h, 128 - RootDepth(db));
    forall p: nat | Reachable(db, p)
      ensures Settled(db, states, offsets, p)
    {
      var path :| Follow(db, 0, path) == Some(p);
      AllSettled(db, states, offsets, path);
    }
  }

  /** Before the walk nothing is visited and nothing is collected. */
  lemma NothingVisited(db: Database, states: seq<byte>)
    requires Covered(db) && |states| == db.nodeCount
    requires forall n :: 0 <= n < |states| ==> states[n] == UNVISITED
    ensures Consistent(db, states, {}) && OnPath(db, states, []) && |Visited(states)| == 0
  {
    hide Child, Follow, ExactHeight;
    assert Visited(states) == {};
  }

  /** At the root the height is the only thing left to compare with the depth limit. */
  lemma RootTooTall(db: Database, states: seq<byte>, offsets: set<nat>)
    requires Covered(db) && db.nodeCount > 0 && Consistent(db, states, offsets) && Finished(states, 0)
    requires RootDepth(db) + states[0] > 128
    ensures !SoundTree(db)
  {
    hide Child, Fits;
    MemoIsHeight(db, states, offsets, 0);
    HeightIsLeast(db, 0, states[0]);
    TooTall(db, 0, [], states[0] - 1);
  }

  class SearchTreeWalker {
    const db: Database
    const nodeStates: array<byte>
    var offsets: set<nat>
    var stateCount: nat

    constructor (db: Database)
      ensures this.db == db && fresh(nodeStates) && nodeStates.Length == db.nodeCount
      ensures offsets == {} && stateCount == 0
      ensures forall n :: 0 <= n < nodeStates.Length ==> nodeStates[n] == UNVISITED
    {
      this.db := db;
      nodeStates := new byte[db.nodeCount](_ => UNVISITED);
      offsets, stateCount := {}, 0;
    }

    /** Each visited node was expanded once: the counter is the number of visited entries. */
    ghost predicate Counted()
      reads this, nodeStates
    {
      stateCount == |Visited(nodeStates[..])|
    }

    ghost predicate Inv(path: seq<bool>)
      reads this, nodeStates
      requires Covered(db)
    {
      Counted() && Consistent(db, nodeStates[..], offsets) && OnPath(db, nodeStates[..], path)
    }

    method VerifyNode(node: nat, bitDepth: nat, ghost path: seq<bool>) returns (r: Result<nat>)
      requires Covered(db) && Inv(path) && node < db.nodeCount
      requires Follow(db, 0, path) == Some(node) && bitDepth == RootDepth(db) + |path| && bitDepth <= 128
      modifies this, nodeStates
      ensures Counted() && nodeStates.Length == db.nodeCount
      ensures r.Err? ==> !SoundTree(db)
      ensures r.Ok? ==> Consistent(db, nodeStates[..], offsets) && old(offsets) <= offsets
      ensures r.Ok? ==> Finished(nodeStates[..], node) && nodeStates[node] == r.value
      ensures r.Ok? ==> forall n :: 0 <= n < nodeStates.Length && old(nodeStates[n]) != UNVISITED ==>
                          nodeStates[n] == old(nodeStates[n])
      ensures r.Ok? ==> forall n :: 0 <= n < nodeStates.Length && nodeStates[n] == VISITING ==>
                          old(nodeStates[n]) == VISITING
      decreases 129 - bitDepth, 0
    {
      hide Child, Fits, Follow, ExactHeight, Settled, RecordHeight, ReadNodePair, Consistent, OnPath, Visited;
      MemoIsHeight(db, nodeStates[..], offsets, node);
      ghost var before := nodeStates[..];
      if bitDepth >= 128 {
        InternalNeedsABit(db, node);
        TooTall(db, node, path, 0);
        return Err(Malformed);
      }
      if nodeStates[node] == VISITING {
        RevisitIsCycle(db, nodeStates[..], node, path);
        return Err(Malformed);
      }
      if nodeStates[node] != UNVISITED { return Ok(nodeStates[node]); }
      MarkVisiting(db, nodeStates[..], offsets, node, path);
      ghost var marked := nodeStates[..][node := VISITING];
      nodeStates[node], stateCount := VISITING, stateCount + 1;
      assert nodeStates[..] == marked;

      // The bounds check of the node read cannot fail under the entry guard.
      ReadsChildren(db, node);
      var (left, right) := ReadNodePair(db.buffer, NodeBase(db, node), db.recordSize).value;
      FollowAppend(db, 0, path, [false]);
      FollowAppend(db, 0, path, [true]);
      FollowOne(db, node);
      StaysOnPath(db, before, nodeStates[..], node, path, false);
      var leftHeight := VerifyPointer(left, bitDepth + 1, path + [false]);
      if leftHeight.Err? { return leftHeight; }
      StaysOnPath(db, before, nodeStates[..], node, path, true);
      ghost var leftStates, leftOffsets := nodeStates[..], offsets;
      var rightHeight := VerifyPointer(right, bitDepth + 1, path + [true]);
      if rightHeight.Err? { return rightHeight; }
      SettledGrows(db, leftStates, leftOffsets, nodeStates[..], offsets, left);
      HeightStep(db, node, leftHeight.value, rightHeight.value);
      var maximum := if leftHeight.value < rightHeight.value then rightHeight.value else leftHeight.value;
      if maximum == 128 {
        HeightIsLeast(db, node, 129);
        TooTall(db, node, path, 128);
        return Err(Malformed);
      }
      Finish(db, nodeStates[..], offsets, node, maximum + 1);
      ghost var finished := nodeStates[..][node := maximum + 1];
      nodeStates[node] := maximum + 1;
      assert nodeStates[..] == finished;
      return Ok(maximum + 1);
    }

    method VerifyPointer(pointer: nat, bitDepth: nat, ghost path: seq<bool>) returns (r: Result<nat>)
      requires Covered(db) && Inv(path)
      requires Follow(db, 0, path) == Some(pointer) && bitDepth == RootDepth(db) + |path| && bitDepth <= 128
      modifies this, nodeStates
      ensures Counted() && nodeStates.Length == db.nodeCount
      ensures r.Err? ==> !SoundTree(db)
      ensures r.Ok? ==> Consistent(db, nodeStates[..], offsets) && old(offsets) <= offsets
      ensures r.Ok? ==> Settled(db, nodeStates[..], offsets, pointer) && RecordHeight(db, pointer, r.value) && r.value <= 128
      ensures r.Ok? ==> forall n :: 0 <= n < nodeStates.Length && old(nodeStates[n]) != UNVISITED ==>
                          nodeStates[n] == old(nodeStates[n])
      ensures r.Ok? ==> forall n :: 0 <= n < nodeStates.Length && nodeStates[n] == VISITING ==>
                          old(nodeStates[n]) == VISITING
      decreases 129 - bitDepth, 1
    {
      hide Child, Fits;
      if pointer == db.nodeCount { return Ok(0); }
      if pointer < db.nodeCount {
        r := VerifyNode(pointer, bitDepth, path);
        return;
      }
      var resolved := ResolveDataPointer(db, pointer);
      if resolved.None? {
        BadPointer(db, pointer, path);
        return Err(Malformed);
      }
      assert Reachable(db, pointer);
      offsets := offsets + {resolved.value};
      return Ok(0);
    }
  }

  /**
   * Verification succeeds exactly on sound trees. On success the offsets are exactly those the root reaches,
   * and the number of expanded nodes is exactly the number of internal nodes the root reaches.
   */
  method VerifySearchTree(db: Database) returns (r: Result<(set<nat>, nat)>)
    requires db.nodeCount > 0
    ensures r.Ok? <==> Covered(db) && SoundTree(db)
    ensures r.Ok? ==> forall o: nat :: o in r.value.0 <==> Reachable(db, o + db.nodeCount + SEPARATOR_SIZE)
    ensures r.Ok? ==> r.value.1 == |set n | 0 <= n < db.nodeCount && Reachable(db, n)|
  {
    hide Child, Fits, Follow, ExactHeight, SoundTree, ReadNodePair, Consistent, OnPath, Visited, Settled;
    if !(db.recordSize == 24 || db.recordSize == 28 || db.recordSize == 32) { return Err(Malformed); }
    if db.nodeCount > |db.buffer| / (db.recordSize / 4) { return Err(Malformed); }
    var bitDepth := if db.ipVersion == 4 then 96 else 0;
    var walker := new SearchTreeWalker(db);
    NothingVisited(db, walker.nodeStates[..]);
    FollowNothing(db);
    var height := walker.VerifyNode(0, bitDepth, []);
    if height.Err? { return Err(Malformed); }
    if bitDepth + height.value > 128 {
      RootTooTall(db, walker.nodeStates[..], walker.offsets);
      return Err(Malformed);
    }
    FinishedTree(db, walker.nodeStates[..], walker.offsets, height.value);
    return Ok((walker.offsets, walker.stateCount));
  }

}
