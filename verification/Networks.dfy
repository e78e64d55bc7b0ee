/** Iteration over networks: an explicit-stack depth-first walk with alias skipping (traverse.go, result.go). */
module Networks {
  import opened Core
  import opened SearchTree
  import opened LookupReader

  datatype Options = Options(includeAliased: bool, includeEmpty: bool)

  const FULL := Options(true, true)
  const DEFAULT := Options(false, false)

  datatype NetNodeBase = NetNode(ip: seq<bool>, bit: nat, pointer: nat)

  /** A record still to visit: the network address, its length and the record found there. */
  type NetNode = n: NetNodeBase | |n.ip| == 128 && n.bit <= 128 witness NetNode(Zeros(128), 0, 0)

  predicate InIPv4Subtree(ip: seq<bool>)
    requires |ip| == 128
  {
    ip[..96] == Zeros(96)
  }

  /** Addresses in ::/96 are reported as IPv4. */
  function MappedIP(ip: seq<bool>): (r: Address)
    requires |ip| == 128
    ensures IsAddress(r) && Embed(r) == ip
    ensures r.V4? <==> forall t :: 0 <= t < 96 ==> !ip[t]
  {
    if InIPv4Subtree(ip) then V4(ip[96..]) else V6(ip)
  }

  function Mask(ip: seq<bool>, bit: nat): (r: seq<bool>)
    requires |ip| == 128 && bit <= 128
    ensures |r| == 128
  {
    ip[..bit] + Zeros(128 - bit)
  }

  predicate IsNetwork(r: LookupResult) {
    IsAddress(r.ip) && r.prefixLen <= 128
  }

  /** The network of a result as the bits its addresses share in the 128-bit space. */
  function Net(r: LookupResult): seq<bool>
    requires IsNetwork(r)
  {
    Embed(r.ip)[..r.prefixLen]
  }

  // ---- Result.Prefix ----

  datatype Prefix = Prefix(addr: Address, len: nat)

  /** The addresses a prefix denotes, as shared leading bits in the 128-bit space. */
  function Denotes(p: Prefix): seq<bool>
    requires IsAddress(p.addr) && p.len <= |p.addr.bits|
  {
    if p.addr.V4? then Zeros(96) + p.addr.bits[..p.len] else p.addr.bits[..p.len]
  }

  /** Result.Prefix for a reader whose IPv4 start is `start` (node, depth). */
  function ResultPrefix(db: Database, start: (nat, nat), r: LookupResult): Prefix
    requires IsNetwork(r)
  {
    if r.ip.V4? then
      var subtreeDepth := if db.ipVersion == 4 || start.0 < db.nodeCount then start.1 else 96;
      if r.prefixLen < subtreeDepth then Prefix(V6(Zeros(128)), r.prefixLen)
      else Prefix(V4(MaskTo(r.ip.bits, r.prefixLen - subtreeDepth)), r.prefixLen - subtreeDepth)
    else Prefix(V6(MaskTo(r.ip.bits, r.prefixLen)), r.prefixLen)
  }

  function MaskTo(bits: seq<bool>, len: nat): (r: seq<bool>)
    ensures |r| == |bits|
  {
    if len <= |bits| then bits[..len] + Zeros(|bits| - len) else bits
  }

  /**
   * Prefix names exactly the network found, with no address bits past its length and whether or not an IPv4 subtree
   * exists. It has IPv4 form exactly for an IPv4 result at least as deep as ::/96.
   */
  lemma PrefixIsNetwork(db: Database, r: LookupResult)
    requires Covered(db) && IsNetwork(r)
    ensures var p := ResultPrefix(db, IPv4Start(db), r);
            && IsAddress(p.addr) && p.len <= |p.addr.bits| && Denotes(p) == Net(r)
            && (p.addr.V4? <==> r.ip.V4? && r.prefixLen >= 96)
            && p.len == (if p.addr.V4? then r.prefixLen - 96 else r.prefixLen)
            && forall t :: p.len <= t < |p.addr.bits| ==> !p.addr.bits[t]
  {
    hide Child;
    var start := IPv4Start(db);
    var p := ResultPrefix(db, start, r);
    if r.ip.V4? {
      assert db.ipVersion != 6 || start.0 < db.nodeCount ==> start.1 == 96;
      if r.prefixLen < 96 {
        assert Zeros(128)[..r.prefixLen] == (Zeros(96) + r.ip.bits)[..r.prefixLen];
      } else {
        assert (Zeros(96) + r.ip.bits)[..r.prefixLen] == Zeros(96) + r.ip.bits[..r.prefixLen - 96];
      }
    } else {
      assert p.addr.bits[..r.prefixLen] == r.ip.bits[..r.prefixLen];
    }
  }

  // ---- Reference: recursive visit in tree order ----

  datatype Visit = Visit(items: seq<LookupResult>, stopped: bool)

  function Item(ip: seq<bool>, bit: nat, outcome: Result<Option<nat>>): (r: LookupResult)
    requires |ip| == 128 && bit <= 128
    ensures IsNetwork(r) && Net(r) == ip[..bit] && r.outcome == outcome && r.prefixLen == bit
  {
    LookupResult(MappedIP(ip), bit, outcome)
  }

  /** What a record yields without descending; None for an internal node that must be expanded. */
  function Leaf(db: Database, v4: nat, opts: Options, n: NetNode): Option<Visit> {
    if n.pointer == db.nodeCount then
      Some(Visit(if opts.includeEmpty then [Item(n.ip, n.bit, Ok(None))] else [], false))
    else if !opts.includeAliased && v4 != 0 && n.pointer == v4 && !InIPv4Subtree(n.ip) then
      Some(Visit([], false))
    else if n.pointer > db.nodeCount then
      Some(Visit([Item(n.ip, n.bit, Answer(db, n.pointer))], false))
    else if n.bit >= 128 then
      Some(Visit([Item(n.ip, n.bit, Err(Malformed))], true))
    else None
  }

  function LeftOf(db: Database, n: NetNode): NetNode
    requires Covered(db) && n.pointer < db.nodeCount && n.bit < 128
  {
    NetNode(n.ip, n.bit + 1, Child(db, n.pointer, false))
  }

  function RightOf(db: Database, n: NetNode): NetNode
    requires Covered(db) && n.pointer < db.nodeCount && n.bit < 128
  {
    NetNode(n.ip[n.bit := true], n.bit + 1, Child(db, n.pointer, true))
  }

  /** Results below one record, left before right; `stopped` when an internal node sits below 128 bits. */
  function VisitNode(db: Database, v4: nat, opts: Options, n: NetNode): (v: Visit)
    requires Covered(db)
    decreases 128 - n.bit
  {
    match Leaf(db, v4, opts, n)
    case Some(v) => v
    case None => Then(VisitNode(db, v4, opts, LeftOf(db, n)), VisitNode(db, v4, opts, RightOf(db, n)))
  }

  function Then(first: Visit, second: Visit): Visit {
    if first.stopped then first else Visit(first.items + second.items, second.stopped)
  }

  /** The stack is processed from its end. */
  function VisitStack(db: Database, v4: nat, opts: Options, stack: seq<NetNode>): Visit
    requires Covered(db)
  {
    if stack == [] then Visit([], false)
    else Then(VisitNode(db, v4, opts, stack[|stack| - 1]), VisitStack(db, v4, opts, stack[..|stack| - 1]))
  }

  // ---- The iterator ----

  /** Nodes of a complete tree hanging at `bit`; bounds the work left for one stack entry. */
  function Weight(bit: nat): nat
    decreases 128 - bit
  {
    if bit >= 128 then 1 else 1 + 2 * Weight(bit + 1)
  }

  function TotalWeight(stack: seq<NetNode>): nat {
    if stack == [] then 0 else Weight(stack[|stack| - 1].bit) + TotalWeight(stack[..|stack| - 1])
  }

  lemma PushPop(stack: seq<NetNode>, n: NetNode)
    ensures (stack + [n])[..|stack|] == stack && (stack + [n])[|stack|] == n
    ensures TotalWeight(stack + [n]) == TotalWeight(stack) + Weight(n.bit)
  {
    assert (stack + [n])[..|stack|] == stack;
  }

  lemma ThenAssociates(a: Visit, b: Visit, c: Visit)
    ensures Then(Then(a, b), c) == Then(a, Then(b, c))
  {
    assert (a.items + b.items) + c.items == a.items + (b.items + c.items);
  }

  /** Visiting a pushed node comes before the rest of the stack. */
  lemma PushVisit(db: Database, v4: nat, opts: Options, stack: seq<NetNode>, n: NetNode)
    requires Covered(db)
    ensures VisitStack(db, v4, opts, stack + [n]) == Then(VisitNode(db, v4, opts, n), VisitStack(db, v4, opts, stack))
  {
    assert (stack + [n])[..|stack|] == stack;
  }

  /** Replacing an internal node by its right child below its left child does not change what the stack yields. */
  lemma Descend(db: Database, v4: nat, opts: Options, stack: seq<NetNode>, n: NetNode)
    requires Covered(db) && Leaf(db, v4, opts, n).None?
    ensures VisitStack(db, v4, opts, stack + [n])
            == VisitStack(db, v4, opts, stack + [RightOf(db, n)] + [LeftOf(db, n)])
  {
    hide Child, Item;
    PushVisit(db, v4, opts, stack, n);
    PushVisit(db, v4, opts, stack, RightOf(db, n));
    PushVisit(db, v4, opts, stack + [RightOf(db, n)], LeftOf(db, n));
    ThenAssociates(VisitNode(db, v4, opts, LeftOf(db, n)), VisitNode(db, v4, opts, RightOf(db, n)),
                   VisitStack(db, v4, opts, stack));
  }

  /** A node that is not expanded contributes its own results before the rest of the stack. */
  lemma Consume(db: Database, v4: nat, opts: Options, out: seq<LookupResult>, stack: seq<NetNode>, n: NetNode)
    requires Covered(db) && Leaf(db, v4, opts, n).Some?
    ensures var v := Leaf(db, v4, opts, n).value;
            Then(Visit(out, false), VisitStack(db, v4, opts, stack + [n]))
            == Then(Visit(out + v.items, v.stopped), VisitStack(db, v4, opts, stack))
  {
    hide Leaf;
    PushVisit(db, v4, opts, stack, n);
    var v := Leaf(db, v4, opts, n).value;
    ThenAssociates(Visit(out, false), v, VisitStack(db, v4, opts, stack));
  }

  /** What a consumer sees that stops the iteration when it has received `wanted` results. */
  function Cut(items: seq<LookupResult>, wanted: nat): (seen: seq<LookupResult>)
    ensures seen <= items && (|seen| == wanted || (|seen| < wanted && seen == items))
  {
    if |items| <= wanted then items else items[..wanted]
  }

  /**
   * The body of NetworksWithin after the start network is known, for a consumer that stops after `wanted` results.
   * It terminates on every tree and yields exactly the recursive visit, up to there.
   */
  method Iterate(reader: Reader, opts: Options, start: NetNode, wanted: nat) returns (out: seq<LookupResult>)
    requires reader.Ready() && wanted > 0
    ensures out == Cut(VisitNode(reader.db, reader.ipv4Start, opts, start).items, wanted)
  {
    hide Child, Answer, Item, VisitNode, VisitStack, TotalWeight, Weight, InIPv4Subtree, Then;
    var db, v4 := reader.db, reader.ipv4Start;
    var nodes: seq<NetNode> := [start];
    out := [];
    ghost var whole := VisitNode(db, v4, opts, start);
    SingleStack(db, v4, opts, start);
    while |nodes| > 0
      invariant |out| < wanted
      invariant Then(Visit(out, false), VisitStack(db, v4, opts, nodes)) == whole
      decreases TotalWeight(nodes)
    {
      ghost var popped := nodes;
      var node: NetNode := nodes[|nodes| - 1];
      nodes := nodes[..|nodes| - 1];
      assert popped == nodes + [node];
      PushPop(nodes, node);
      while true
        invariant Then(Visit(out, false), VisitStack(db, v4, opts, nodes + [node])) == whole
        invariant |out| < wanted
        invariant TotalWeight(nodes) + Weight(node.bit) <= TotalWeight(popped)
        decreases 128 - node.bit
      {
        WeightStep(node.bit);
        assert out + [] == out;
        if Leaf(db, v4, opts, node).Some? {
          Consume(db, v4, opts, out, nodes, node);
        } else {
          Descend(db, v4, opts, nodes, node);
        }
        if node.pointer == db.nodeCount {
          if opts.includeEmpty {
            out := out + [Item(node.ip, node.bit, Ok(None))];
            if |out| == wanted {
              PrefixOfVisit(out, VisitStack(db, v4, opts, nodes));
              return;
            }
          }
          break;
        }
        if !opts.includeAliased && v4 != 0 && node.pointer == v4 && !InIPv4Subtree(node.ip) {
          break;
        }
        if node.pointer > db.nodeCount {
          out := out + [Item(node.ip, node.bit, Answer(db, node.pointer))];
          if |out| == wanted {
            PrefixOfVisit(out, VisitStack(db, v4, opts, nodes));
            return;
          }
          break;
        }
        if node.bit >= 128 {
          out := out + [Item(node.ip, node.bit, Err(Malformed))];
          StoppedVisit(Visit(out, true), VisitStack(db, v4, opts, nodes));
          return;
        }
        var ipRight := node.ip[node.bit := true];
        ReadsChildren(db, node.pointer);
        var (left, right) := ReadNodePair(db.buffer, NodeBase(db, node.pointer), db.recordSize).value;
        var pushed: NetNode := NetNode(ipRight, node.bit + 1, right);
        PushPop(nodes, pushed);
        nodes := nodes + [pushed];
        node := NetNode(node.ip, node.bit + 1, left);
      }
    }
    EmptyStack(db, v4, opts, out);
  }

  lemma EmptyStack(db: Database, v4: nat, opts: Options, out: seq<LookupResult>)
    requires Covered(db)
    ensures Then(Visit(out, false), VisitStack(db, v4, opts, [])).items == out
  {
  }

  lemma PrefixOfVisit(out: seq<LookupResult>, rest: Visit)
    ensures Cut(Then(Visit(out, false), rest).items, |out|) == out
  {
  }

  lemma StoppedVisit(first: Visit, second: Visit)
    requires first.stopped
    ensures Then(first, second) == first
  {
  }

  lemma WeightStep(bit: nat)
    ensures Weight(bit) >= 1
    ensures bit < 128 ==> Weight(bit) == 1 + 2 * Weight(bit + 1)
  {
  }

  lemma SingleStack(db: Database, v4: nat, opts: Options, n: NetNode)
    requires Covered(db)
    ensures Then(Visit([], false), VisitStack(db, v4, opts, [n])) == VisitNode(db, v4, opts, n)
  {
    PushVisit(db, v4, opts, [], n);
    assert [] + [n] == [n];
  }

  predicate AcceptsFamily(db: Database, ip: Address) {
    !(db.ipVersion == 4 && ip.V6?)
  }

  /** Where iteration starts: the walk to the requested length, or the network that already contains it. */
  function StartNode(db: Database, addr: Address, bits: nat): NetNode
    requires Covered(db) && IsAddress(addr) && bits <= |addr.bits| && AcceptsFamily(db, addr)
  {
    var stop := if addr.V4? then bits + 96 else bits;
    var walk := Walk(db, 0, Embed(addr), StartDepth(db, addr), stop);
    NetNode(Mask(Embed(addr), walk.1), walk.1, walk.0)
  }

  method NetworksWithin(reader: Reader, addr: Address, bits: nat, opts: Options, wanted: nat)
    returns (out: seq<LookupResult>)
    requires addr.NoAddress? || IsAddress(addr)
    requires reader.Ready() && wanted > 0
    ensures !IsAddress(addr) || bits > |addr.bits| ==> |out| == 1 && out[0].outcome == Err(InvalidAddress)
    ensures IsAddress(addr) && bits <= |addr.bits| && !AcceptsFamily(reader.db, addr) ==>
              |out| == 1 && out[0].outcome == Err(WrongFamily)
    ensures IsAddress(addr) && bits <= |addr.bits| && AcceptsFamily(reader.db, addr) ==>
              out == Cut(VisitNode(reader.db, IPv4Start(reader.db).0, opts, StartNode(reader.db, addr, bits)).items, wanted)
    ensures IsAddress(addr) && bits <= |addr.bits| && AcceptsFamily(reader.db, addr)
            && Fits(reader.db, 0, 128 - StartDepth(reader.db, addr)) ==>
              var start, v4 := StartNode(reader.db, addr, bits), IPv4Start(reader.db).0;
              var full := VisitNode(reader.db, v4, FULL, start).items;
              && (forall k :: 0 <= k < |full| ==> IsNetwork(full[k]))
              && out == Cut(Kept(reader.db, v4, opts, start.bit, full), wanted)
  {
    hide Child, VisitNode, Kept, Fits, Cut;
    if IsAddress(addr) && bits <= |addr.bits| && AcceptsFamily(reader.db, addr)
       && Fits(reader.db, 0, 128 - StartDepth(reader.db, addr)) {
      FilteredIteration(reader.db, opts, addr, bits);
    }
    if addr.NoAddress? || bits > |addr.bits| { return [LookupResult(NoAddress, 0, Err(InvalidAddress))]; }
    if reader.db.ipVersion == 4 && addr.V6? { return [LookupResult(NoAddress, 0, Err(WrongFamily))]; }
    var stopBit := if addr.V4? then bits + 96 else bits;
    var start := reader.TraverseTree(addr, 0, stopBit);
    var (pointer, bit) := start.value;
    out := Iterate(reader, opts, NetNode(Mask(Embed(addr), bit), bit, pointer), wanted);
  }

  // ---- What full iteration promises ----

  /** Every address of `x` precedes every address of `y`, and the two share none. */
  ghost predicate Before(x: seq<bool>, y: seq<bool>) {
    exists p :: 0 <= p < |x| && p < |y| && x[..p] == y[..p] && !x[p] && y[p]
  }

  predicate Inside(prefix: seq<bool>, a: seq<bool>) {
    |a| == 128 && prefix <= a
  }

  /** The networks are inside `prefix`, ascending and disjoint, and together contain each of its addresses. */
  ghost predicate Tiles(rs: seq<LookupResult>, prefix: seq<bool>) {
    && (forall k :: 0 <= k < |rs| ==> IsNetwork(rs[k]) && prefix <= Net(rs[k]))
    && (forall i, j :: 0 <= i < j < |rs| ==> Before(Net(rs[i]), Net(rs[j])))
    && (forall a :: Inside(prefix, a) ==> exists k :: 0 <= k < |rs| && Inside(Net(rs[k]), a))
  }

  /** For every address of a result's network, the walk from the record ends at a record that says that result. */
  ghost predicate Faithful(db: Database, rs: seq<LookupResult>, pointer: nat, bit: nat)
    requires Covered(db)
  {
    forall k, a :: 0 <= k < |rs| && IsNetwork(rs[k]) && Inside(Net(rs[k]), a) ==>
      Says(db, Walk(db, pointer, a, bit, 128).0, rs[k].outcome) && rs[k].prefixLen == Walk(db, pointer, a, bit, 128).1
  }

  /** A network of the lower half comes before one of the upper half. */
  lemma HalvesOrdered(prefix: seq<bool>, x: seq<bool>, y: seq<bool>)
    requires prefix + [false] <= x && prefix + [true] <= y
    ensures Before(x, y) && prefix <= x && prefix <= y
  {
    var d := |prefix|;
    assert x[..d] == prefix && y[..d] == prefix;
    assert x[d] == (prefix + [false])[d] && y[d] == (prefix + [true])[d];
  }

  /** Two tilings side by side are in order and stay inside the network that they halve. */
  lemma OrderJoin(left: seq<LookupResult>, right: seq<LookupResult>, prefix: seq<bool>)
    requires Tiles(left, prefix + [false]) && Tiles(right, prefix + [true])
    ensures var rs := left + right;
            && (forall k :: 0 <= k < |rs| ==> IsNetwork(rs[k]) && prefix <= Net(rs[k]))
            && (forall i, j :: 0 <= i < j < |rs| ==> Before(Net(rs[i]), Net(rs[j])))
  {
    hide Net, Before, Inside, IsNetwork;
    var rs := left + right;
    forall k | 0 <= k < |rs|
      ensures IsNetwork(rs[k]) && prefix <= Net(rs[k])
    {
      if k < |left| {
        assert rs[k] == left[k];
        Extends(prefix, false, Net(left[k]));
      } else {
        assert rs[k] == right[k - |left|];
        Extends(prefix, true, Net(right[k - |left|]));
      }
    }
    forall i, j | 0 <= i < j < |rs|
      ensures Before(Net(rs[i]), Net(rs[j]))
    {
      if j < |left| {
        assert rs[i] == left[i] && rs[j] == left[j];
      } else if |left| <= i {
        assert rs[i] == right[i - |left|] && rs[j] == right[j - |left|];
      } else {
        assert rs[i] == left[i] && rs[j] == right[j - |left|];
        HalvesOrdered(prefix, Net(left[i]), Net(right[j - |left|]));
      }
    }
  }

  lemma Extends(prefix: seq<bool>, bit: bool, net: seq<bool>)
    requires prefix + [bit] <= net
    ensures prefix <= net
  {
    assert net[..|prefix|] == (prefix + [bit])[..|prefix|] == prefix;
  }

  /** Two tilings side by side miss no address of the network that they halve. */
  lemma CoverJoin(left: seq<LookupResult>, right: seq<LookupResult>, prefix: seq<bool>, a: seq<bool>)
    requires |prefix| < 128 && Tiles(left, prefix + [false]) && Tiles(right, prefix + [true]) && Inside(prefix, a)
    ensures var rs := left + right;
            exists k :: 0 <= k < |rs| && IsNetwork(rs[k]) && Inside(Net(rs[k]), a)
  {
    hide Net, Before, IsNetwork;
    var rs := left + right;
    assert a[..|prefix|] == prefix;
    if a[|prefix|] {
      assert Inside(prefix + [true], a);
      var k :| 0 <= k < |right| && Inside(Net(right[k]), a);
      assert rs[|left| + k] == right[k];
    } else {
      assert Inside(prefix + [false], a);
      var k :| 0 <= k < |left| && Inside(Net(left[k]), a);
      assert rs[k] == left[k];
    }
  }

  /** Two tilings side by side tile the network that they halve. */
  lemma TilesJoin(left: seq<LookupResult>, right: seq<LookupResult>, prefix: seq<bool>)
    requires |prefix| < 128 && Tiles(left, prefix + [false]) && Tiles(right, prefix + [true])
    ensures Tiles(left + right, prefix)
  {
    hide Net, Before, Inside, IsNetwork;
    OrderJoin(left, right, prefix);
    forall a | Inside(prefix, a)
      ensures exists k :: 0 <= k < |left + right| && IsNetwork((left + right)[k]) && Inside(Net((left + right)[k]), a)
    {
      CoverJoin(left, right, prefix, a);
    }
  }

  lemma FaithfulJoin(db: Database, left: seq<LookupResult>, right: seq<LookupResult>, n: NetNode)
    requires Covered(db) && n.pointer < db.nodeCount && n.bit < 128
    requires Tiles(left, n.ip[..n.bit] + [false]) && Tiles(right, n.ip[..n.bit] + [true])
    requires Faithful(db, left, LeftOf(db, n).pointer, n.bit + 1) && Faithful(db, right, RightOf(db, n).pointer, n.bit + 1)
    ensures Faithful(db, left + right, n.pointer, n.bit)
  {
    hide Child, Answer, Says, Embed;
    var rs := left + right;
    var d := n.bit;
    forall k, a | 0 <= k < |rs| && IsNetwork(rs[k]) && Inside(Net(rs[k]), a)
      ensures Says(db, Walk(db, n.pointer, a, d, 128).0, rs[k].outcome)
      ensures rs[k].prefixLen == Walk(db, n.pointer, a, d, 128).1
    {
      var net := Net(rs[k]);
      if k < |left| {
        assert rs[k] == left[k] && n.ip[..d] + [false] <= net;
        assert a[d] == net[d] == (n.ip[..d] + [false])[d];
      } else {
        assert rs[k] == right[k - |left|] && n.ip[..d] + [true] <= net;
        assert a[d] == net[d] == (n.ip[..d] + [true])[d];
      }
    }
  }

  /** The network address of a node has no bits set past its length. */
  predicate Masked(n: NetNode) {
    forall t :: n.bit <= t < 128 ==> !n.ip[t]
  }

  /** Full iteration below a record that fits: no abort, an exact tiling, and every address agrees with lookup. */
  lemma {:induction false} FullVisit(db: Database, v4: nat, n: NetNode)
    requires Covered(db) && Fits(db, n.pointer, 128 - n.bit) && Masked(n)
    ensures var v := VisitNode(db, v4, FULL, n);
            !v.stopped && Tiles(v.items, n.ip[..n.bit]) && Faithful(db, v.items, n.pointer, n.bit)
    decreases 128 - n.bit
  {
    hide Child, Answer, Says, Embed;
    if n.pointer < db.nodeCount {
      var l, r := LeftOf(db, n), RightOf(db, n);
      FullVisit(db, v4, l);
      FullVisit(db, v4, r);
      assert l.ip[..l.bit] == n.ip[..n.bit] + [false];
      assert r.ip[..r.bit] == n.ip[..n.bit] + [true];
      var left, right := VisitNode(db, v4, FULL, l).items, VisitNode(db, v4, FULL, r).items;
      TilesJoin(left, right, n.ip[..n.bit]);
      FaithfulJoin(db, left, right, n);
    } else {
      LeafVisit(db, v4, n);
    }
  }

  /** Full iteration below a record that does not fit aborts. */
  lemma {:induction false} FullVisitAborts(db: Database, v4: nat, n: NetNode)
    requires Covered(db) && !Fits(db, n.pointer, 128 - n.bit)
    ensures VisitNode(db, v4, FULL, n).stopped
    decreases 128 - n.bit
  {
    hide Child, Answer, Item;
    if n.bit < 128 {
      if Fits(db, LeftOf(db, n).pointer, 127 - n.bit) {
        FullVisitAborts(db, v4, RightOf(db, n));
      } else {
        FullVisitAborts(db, v4, LeftOf(db, n));
      }
    }
  }

  /** An aborted visit, with any options, ends with the error for an internal node below the last bit. */
  lemma {:induction false} AbortIsLast(db: Database, v4: nat, opts: Options, n: NetNode)
    requires Covered(db) && VisitNode(db, v4, opts, n).stopped
    ensures EndsBadly(VisitNode(db, v4, opts, n).items)
    decreases 128 - n.bit
  {
    hide Child, Answer;
    if Leaf(db, v4, opts, n).None? {
      var l, r := VisitNode(db, v4, opts, LeftOf(db, n)), VisitNode(db, v4, opts, RightOf(db, n));
      if l.stopped {
        AbortIsLast(db, v4, opts, LeftOf(db, n));
      } else {
        AbortIsLast(db, v4, opts, RightOf(db, n));
        assert (l.items + r.items)[|l.items + r.items| - 1] == r.items[|r.items| - 1];
      }
    }
  }

  predicate EndsBadly(items: seq<LookupResult>) {
    items != [] && items[|items| - 1].outcome == Err(Malformed) && items[|items| - 1].prefixLen == 128
  }

  lemma LeafVisit(db: Database, v4: nat, n: NetNode)
    requires Covered(db) && n.pointer >= db.nodeCount
    ensures var v := VisitNode(db, v4, FULL, n);
            !v.stopped && Tiles(v.items, n.ip[..n.bit]) && Faithful(db, v.items, n.pointer, n.bit)
  {
    hide Child, Says, Embed;
    AnswerSays(db, n.pointer, Answer(db, n.pointer));
    var v := VisitNode(db, v4, FULL, n);
    assert v.items == [Item(n.ip, n.bit, Answer(db, n.pointer))];
    forall a | Inside(n.ip[..n.bit], a)
      ensures exists k :: 0 <= k < |v.items| && Inside(Net(v.items[k]), a)
    {
      assert Inside(Net(v.items[0]), a);
    }
  }

  /**
   * Full iteration over a tree whose paths are bounded: the results tile the start network in ascending order,
   * and every address of every result looks up to the same outcome at the same depth. The start network is the
   * requested one, or the single network that contains it.
   */
  lemma FullIteration(db: Database, v4: nat, addr: Address, bits: nat)
    requires Covered(db) && IsAddress(addr) && bits <= |addr.bits| && AcceptsFamily(db, addr)
    requires Fits(db, 0, 128 - StartDepth(db, addr))
    ensures var start := StartNode(db, addr, bits);
            var v := VisitNode(db, v4, FULL, start);
            !v.stopped && Tiles(v.items, start.ip[..start.bit]) && Faithful(db, v.items, 0, StartDepth(db, addr))
    ensures var start := StartNode(db, addr, bits);
            var stop := if addr.V4? then bits + 96 else bits;
            start.bit <= stop && start.ip[..start.bit] <= Embed(addr) && Masked(start) && (start.pointer < db.nodeCount ==> start.bit == stop)
  {
    hide Child, Says, VisitNode, Tiles, Faithful, Fits;
    var start := StartNode(db, addr, bits);
    var ip, root := Embed(addr), StartDepth(db, addr);
    var stop := if addr.V4? then bits + 96 else bits;
    StartFits(db, ip, root, stop);
    assert start.ip[..start.bit] == ip[..start.bit];
    FullVisit(db, v4, start);
    FaithfulFromRoot(db, VisitNode(db, v4, FULL, start).items, ip, root, stop);
  }

  /** Results that agree with lookup from where a walk ends agree with lookup from where it started. */
  lemma FaithfulFromRoot(db: Database, items: seq<LookupResult>, ip: seq<bool>, root: nat, stop: nat)
    requires Covered(db) && |ip| == 128 && root <= stop <= 128
    requires var w := Walk(db, 0, ip, root, stop); Tiles(items, ip[..w.1]) && Faithful(db, items, w.0, w.1)
    ensures Faithful(db, items, 0, root)
  {
    hide Walk, Says, Tiles;
    var w := Walk(db, 0, ip, root, stop);
    forall k, a | 0 <= k < |items| && IsNetwork(items[k]) && Inside(Net(items[k]), a)
      ensures Says(db, Walk(db, 0, a, root, 128).0, items[k].outcome) && items[k].prefixLen == Walk(db, 0, a, root, 128).1
    {
      TilesInside(items, ip[..w.1], k);
      assert forall t :: 0 <= t < w.1 ==> a[t] == Net(items[k])[t] == ip[..w.1][t] == ip[t];
      WalkAgrees(db, 0, ip, a, root, stop);
      WalkResume(db, 0, a, root, stop, 128);
    }
  }

  lemma TilesInside(rs: seq<LookupResult>, prefix: seq<bool>, k: nat)
    requires Tiles(rs, prefix) && k < |rs|
    ensures IsNetwork(rs[k]) && prefix <= Net(rs[k])
  {
  }

  lemma StartFits(db: Database, ip: seq<bool>, root: nat, stop: nat)
    requires Covered(db) && |ip| == 128 && root <= stop <= 128 && Fits(db, 0, 128 - root)
    ensures var w := Walk(db, 0, ip, root, stop); Fits(db, w.0, 128 - w.1)
  {
    var w := Walk(db, 0, ip, root, stop);
    WalkFollows(db, 0, ip, root, stop);
    if w.0 < db.nodeCount {
      FitsFollow(db, 0, ip[root..w.1], 128 - root);
    }
  }

  // ---- What default iteration promises ----

  /** Some bit above the IPv4 range is set: the network lies outside ::/96. */
  ghost predicate OutsideIPv4(prefix: seq<bool>) {
    exists t :: 0 <= t < |prefix| && t < 96 && prefix[t]
  }

  /** The first `d` bits of a network lead to the IPv4 start from outside ::/96. */
  ghost predicate AliasAt(db: Database, v4: nat, net: seq<bool>, d: nat)
    requires Covered(db) && d <= |net|
  {
    Follow(db, 0, net[..d]) == Some(v4) && OutsideIPv4(net[..d])
  }

  /** An alias lies on the way to the network, at or below the depth where iteration starts. */
  ghost predicate UnderAlias(db: Database, v4: nat, from: nat, net: seq<bool>)
    requires Covered(db)
  {
    exists d :: from <= d <= |net| && AliasAt(db, v4, net, d)
  }

  /** Aliases are skipped unless they are asked for, or the database has no IPv4 start to compare with. */
  predicate SkipsAliases(db: Database, v4: nat, opts: Options) {
    !opts.includeAliased && v4 != 0 && v4 != db.nodeCount
  }

  /** The options let a result through: one without data only on request, and none under a skipped alias. */
  ghost predicate Passes(db: Database, v4: nat, opts: Options, from: nat, r: LookupResult)
    requires Covered(db) && IsNetwork(r)
  {
    && (r.outcome == Ok(None) ==> opts.includeEmpty)
    && (SkipsAliases(db, v4, opts) ==> !UnderAlias(db, v4, from, Net(r)))
  }

  /** The results that the options let through, in order. */
  ghost function Kept(db: Database, v4: nat, opts: Options, from: nat, rs: seq<LookupResult>): seq<LookupResult>
    requires Covered(db) && forall k :: 0 <= k < |rs| ==> IsNetwork(rs[k])
  {
    if rs == [] then []
    else
      assert IsNetwork(rs[0]);
      (if Passes(db, v4, opts, from, rs[0]) then [rs[0]] else []) + Kept(db, v4, opts, from, rs[1..])
  }

  lemma {:induction false} KeptJoin(db: Database, v4: nat, opts: Options, from: nat, a: seq<LookupResult>, b: seq<LookupResult>)
    requires Covered(db) && forall k :: 0 <= k < |a| ==> IsNetwork(a[k])
    requires forall k :: 0 <= k < |b| ==> IsNetwork(b[k])
    ensures Kept(db, v4, opts, from, a + b) == Kept(db, v4, opts, from, a) + Kept(db, v4, opts, from, b)
    decreases |a|
  {
    hide Passes, Net;
    if a == [] {
      assert a + b == b;
    } else {
      assert (a + b)[1..] == a[1..] + b;
      KeptJoin(db, v4, opts, from, a[1..], b);
    }
  }

  /** Nothing below a skipped alias is kept. */
  lemma {:induction false} KeptNone(db: Database, v4: nat, opts: Options, from: nat, prefix: seq<bool>, rs: seq<LookupResult>)
    requires Covered(db) && SkipsAliases(db, v4, opts) && from <= |prefix| && AliasAt(db, v4, prefix, |prefix|)
    requires forall k :: 0 <= k < |rs| ==> IsNetwork(rs[k]) && prefix <= Net(rs[k])
    ensures Kept(db, v4, opts, from, rs) == []
    decreases |rs|
  {
    hide Net, Follow;
    if rs != [] {
      var net := Net(rs[0]);
      assert net[..|prefix|] == prefix[..|prefix|];
      assert AliasAt(db, v4, net, |prefix|);
      KeptNone(db, v4, opts, from, prefix, rs[1..]);
    }
  }

  /** For a network address without trailing bits, being outside ::/96 shows in the bits of the network. */
  lemma OutsideShows(n: NetNode)
    requires Masked(n)
    ensures !InIPv4Subtree(n.ip) <==> OutsideIPv4(n.ip[..n.bit])
  {
    var p := n.ip[..n.bit];
    if !InIPv4Subtree(n.ip) {
      var t :| 0 <= t < 96 && n.ip[t];
      assert t < n.bit && p[t];
    }
  }

  ghost predicate NoAliasAbove(db: Database, v4: nat, from: nat, n: NetNode)
    requires Covered(db)
  {
    forall d :: from <= d < n.bit ==> !AliasAt(db, v4, n.ip, d)
  }

  /** When aliases are skipped, the address of the node leads to it and no alias lies above it. */
  ghost predicate AliasesBelow(db: Database, v4: nat, opts: Options, from: nat, n: NetNode)
    requires Covered(db)
  {
    SkipsAliases(db, v4, opts) ==>
      Follow(db, 0, n.ip[..n.bit]) == Some(n.pointer) && NoAliasAbove(db, v4, from, n)
  }

  /** With any options, iteration below a record that fits yields exactly the full results that pass. */
  lemma {:induction false} FilteredVisit(db: Database, v4: nat, opts: Options, from: nat, n: NetNode)
    requires Covered(db) && Fits(db, n.pointer, 128 - n.bit) && Masked(n)
    requires from <= n.bit && AliasesBelow(db, v4, opts, from, n)
    ensures var full := VisitNode(db, v4, FULL, n).items;
            && !VisitNode(db, v4, opts, n).stopped
            && (forall k :: 0 <= k < |full| ==> IsNetwork(full[k]))
            && VisitNode(db, v4, opts, n).items == Kept(db, v4, opts, from, full)
    decreases 128 - n.bit
  {
    hide Child, Answer, Embed, Follow, Passes;
    FullVisit(db, v4, n);
    OutsideShows(n);
    var full := VisitNode(db, v4, FULL, n).items;
    var prefix := n.ip[..n.bit];
    assert prefix[..n.bit] == prefix;
    if SkipsAliases(db, v4, opts) && n.pointer == v4 && !InIPv4Subtree(n.ip) {
      KeptNone(db, v4, opts, from, prefix, full);
    } else if n.pointer < db.nodeCount {
      var l, r := LeftOf(db, n), RightOf(db, n);
      AliasesBelowChild(db, v4, opts, from, n, l, false);
      AliasesBelowChild(db, v4, opts, from, n, r, true);
      FilteredVisit(db, v4, opts, from, l);
      FilteredVisit(db, v4, opts, from, r);
      KeptJoin(db, v4, opts, from, VisitNode(db, v4, FULL, l).items, VisitNode(db, v4, FULL, r).items);
    } else {
      FilteredLeaf(db, v4, opts, from, n);
    }
  }

  /** The hypotheses of the induction hold for both children. */
  lemma AliasesBelowChild(db: Database, v4: nat, opts: Options, from: nat, n: NetNode, c: NetNode, bit: bool)
    requires Covered(db) && n.pointer < db.nodeCount && n.bit < 128 && from <= n.bit
    requires c == if bit then RightOf(db, n) else LeftOf(db, n)
    requires Masked(n) && AliasesBelow(db, v4, opts, from, n)
    requires SkipsAliases(db, v4, opts) ==> !(n.pointer == v4 && OutsideIPv4(n.ip[..n.bit]))
    ensures AliasesBelow(db, v4, opts, from, c) && Masked(c)
  {
    hide Child, Follow;
    if SkipsAliases(db, v4, opts) {
      assert c.ip[..c.bit] == n.ip[..n.bit] + [bit];
      FollowAppend(db, 0, n.ip[..n.bit], [bit]);
      FollowBit(db, n.pointer, bit);
      forall d | from <= d < c.bit
        ensures !AliasAt(db, v4, c.ip, d)
      {
        assert c.ip[..d] == n.ip[..d];
        assert d < n.bit ==> !AliasAt(db, v4, n.ip, d);
      }
    }
  }

  lemma FollowBit(db: Database, node: nat, bit: bool)
    requires Covered(db) && node < db.nodeCount
    ensures Follow(db, node, [bit]) == Some(Child(db, node, bit))
  {
    assert [bit][1..] == [];
  }

  lemma FilteredLeaf(db: Database, v4: nat, opts: Options, from: nat, n: NetNode)
    requires Covered(db) && n.pointer >= db.nodeCount && from <= n.bit && AliasesBelow(db, v4, opts, from, n)
    requires !(SkipsAliases(db, v4, opts) && n.pointer == v4 && OutsideIPv4(n.ip[..n.bit]))
    requires OutsideIPv4(n.ip[..n.bit]) <==> !InIPv4Subtree(n.ip)
    ensures var full := VisitNode(db, v4, FULL, n).items;
            && (forall k :: 0 <= k < |full| ==> IsNetwork(full[k]))
            && !VisitNode(db, v4, opts, n).stopped && VisitNode(db, v4, opts, n).items == Kept(db, v4, opts, from, full)
  {
    hide Child, Follow, Embed;
    var item := Item(n.ip, n.bit, Answer(db, n.pointer));
    assert VisitNode(db, v4, FULL, n).items == [item];
    assert [item][1..] == [];
    if SkipsAliases(db, v4, opts) {
      LeafNotAliased(db, v4, from, n);
    }
  }

  lemma LeafNotAliased(db: Database, v4: nat, from: nat, n: NetNode)
    requires Covered(db) && from <= n.bit && NoAliasAbove(db, v4, from, n)
    requires Follow(db, 0, n.ip[..n.bit]) == Some(n.pointer) && !(n.pointer == v4 && OutsideIPv4(n.ip[..n.bit]))
    ensures !UnderAlias(db, v4, from, n.ip[..n.bit])
  {
    hide Follow;
    var net := n.ip[..n.bit];
    forall d | from <= d <= |net|
      ensures !AliasAt(db, v4, net, d)
    {
      assert net[..d] == n.ip[..d];
      assert d < n.bit ==> !AliasAt(db, v4, n.ip, d);
    }
  }

  /**
   * Iteration with any options, over any database whose paths are bounded: it yields, in order, exactly the results
   * of full iteration that the options let through. Nothing is assumed about the IPv4 start: it may be the root of a
   * tree that is not IPv6, an internal node, the empty record or a data record.
   */
  lemma FilteredIteration(db: Database, opts: Options, addr: Address, bits: nat)
    requires Covered(db) && IsAddress(addr) && bits <= |addr.bits| && AcceptsFamily(db, addr)
    requires Fits(db, 0, 128 - StartDepth(db, addr))
    ensures var v4 := IPv4Start(db).0;
            var start := StartNode(db, addr, bits);
            var full := VisitNode(db, v4, FULL, start).items;
            && !VisitNode(db, v4, opts, start).stopped
            && (forall k :: 0 <= k < |full| ==> IsNetwork(full[k]))
            && VisitNode(db, v4, opts, start).items == Kept(db, v4, opts, start.bit, full)
  {
    hide Child, VisitNode, Kept, Follow, Fits;
    var start := StartNode(db, addr, bits);
    var root := StartDepth(db, addr);
    var stop := if addr.V4? then bits + 96 else bits;
    WalkFollows(db, 0, Embed(addr), root, stop);
    StartFits(db, Embed(addr), root, stop);
    assert start.ip[..start.bit] == Embed(addr)[0..start.bit];
    FilteredVisit(db, IPv4Start(db).0, opts, start.bit, start);
  }

  /** When the IPv4 start is a data record, any network outside ::/96 with that record is passed over. */
  lemma SharedRecordSkipped(db: Database, opts: Options, from: nat, r: LookupResult)
    requires Covered(db) && IsNetwork(r) && from <= r.prefixLen && IPv4Start(db).0 > db.nodeCount
    requires !opts.includeAliased && OutsideIPv4(Net(r)) && Follow(db, 0, Net(r)) == Some(IPv4Start(db).0)
    ensures !Passes(db, IPv4Start(db).0, opts, from, r)
  {
    hide Follow, Child, IPv4Start;
    var net := Net(r);
    assert net[..|net|] == net;
    assert AliasAt(db, IPv4Start(db).0, net, |net|);
  }
}
