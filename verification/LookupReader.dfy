/** Lookup: 32-bit-chunked traversal, the IPv4 shortcut and record resolution (reader.go). */
module LookupReader {
  import opened Core
  import opened SearchTree

  /** An IP address as its bits, most significant first. The zero `netip.Addr` is `NoAddress`. */
  datatype Address = NoAddress | V4(bits: seq<bool>) | V6(bits: seq<bool>)

  predicate IsAddress(ip: Address) {
    match ip
    case NoAddress => false
    case V4(bits) => |bits| == 32
    case V6(bits) => |bits| == 128
  }

  /** The 128-bit form of an address: IPv4 addresses live in ::/96 (v4ToV16). */
  function Embed(ip: Address): (bits: seq<bool>)
    requires IsAddress(ip)
    ensures |bits| == 128
  {
    if ip.V4? then Zeros(96) + ip.bits else ip.bits
  }

  /** Left shift of a 32-bit register held as its bits. */
  function ShiftLeft(word: seq<bool>, n: nat): (r: seq<bool>)
    requires n <= |word|
    ensures |r| == |word|
  {
    word[n..] + Zeros(n)
  }

  /** What a shift leaves in the register. */
  lemma Shifted(word: seq<bool>, n: nat)
    requires n <= |word|
    ensures forall t :: 0 <= t < |word| - n ==> ShiftLeft(word, n)[t] == word[n + t]
  {
  }

  /** A chunk shifted by the offset inside it starts with the next address bit. */
  lemma ChunkBits(ip: seq<bool>, i: nat)
    requires |ip| == 128 && i < 128
    ensures var word := ShiftLeft(ip[i / 32 * 32..i / 32 * 32 + 32], i % 32);
            |word| == 32 && forall t :: 0 <= t < 32 - i % 32 ==> word[t] == ip[i + t]
  {
    var word := ip[i / 32 * 32..i / 32 * 32 + 32];
    Shifted(word, i % 32);
    forall t | 0 <= t < 32 - i % 32
      ensures ShiftLeft(word, i % 32)[t] == ip[i + t]
    {
      assert ShiftLeft(word, i % 32)[t] == word[i % 32 + t];
    }
  }

  /** One turn of a traversal loop, and its end. */
  lemma WalkStep(db: Database, node: nat, ip: seq<bool>, i: nat, stop: nat)
    requires Covered(db) && i <= stop <= |ip|
    ensures i < stop && node < db.nodeCount ==>
              Walk(db, node, ip, i, stop) == Walk(db, Child(db, node, ip[i]), ip, i + 1, stop)
    ensures i == stop || node >= db.nodeCount ==> Walk(db, node, ip, i, stop) == (node, i)
  {
  }

  /** The shifts and masks of readNode28 on a loaded word; `left` is 1 for the left record. */
  function Split28(word: nat, left: nat): nat {
    var low := word / (if left == 1 then 0x100 else 1) % 0x100_0000;
    var high := word * (if left == 1 then 0x10_0000 else 1) % 0x1_0000_0000 / 0x100_0000 % 16;
    low + high * 0x100_0000
  }

  /** One 28-bit record from a single four-byte load: the left half ends in the shared byte, the right starts there. */
  function ReadNode28(buffer: seq<byte>, base: nat, bit: nat): nat
    requires bit <= 1 && base + 7 <= |buffer|
  {
    var o := base + bit * 3;
    Split28(Load32(buffer, o), 1 - bit)
  }

  function Word(a: nat, b: nat, c: nat, d: nat): nat {
    a * 0x100_0000 + b * 0x1_0000 + c * 0x100 + d
  }

  /** The record load used inside the three traversal loops, by record size. */
  function LoadRecord(db: Database, node: nat, bit: nat): (pointer: nat)
    requires Covered(db) && node < db.nodeCount && bit <= 1
  {
    if db.recordSize == 24 then Load24(db.buffer, node * 6 + bit * 3)
    else if db.recordSize == 28 then ReadNode28(db.buffer, node * 7, bit)
    else Load32(db.buffer, node * 8 + bit * 4)
  }

  lemma Split28Left(a: nat, b: nat, c: nat, s: nat)
    requires a < 256 && b < 256 && c < 256 && s < 256
    ensures Split28(Word(a, b, c, s), 1) == s / 16 * 0x100_0000 + a * 0x1_0000 + b * 0x100 + c
  {
    var w := Word(a, b, c, s);
    var low := a * 0x1_0000 + b * 0x100 + c;
    DivMod(w, 0x100, low, s);
    DivMod(low, 0x100_0000, 0, low);
    var (ch, cl, sh, sl) := (c / 16, c % 16, s / 16, s % 16);
    var kept := cl * 16 + sh;
    DivMod(w * 0x10_0000, 0x1_0000_0000, a * 0x1000 + b * 0x10 + ch, kept * 0x100_0000 + sl * 0x10_0000);
    DivMod(kept * 0x100_0000 + sl * 0x10_0000, 0x100_0000, kept, sl * 0x10_0000);
    DivMod(kept, 16, cl, sh);
  }

  lemma Split28Right(s: nat, d: nat, e: nat, f: nat)
    requires s < 256 && d < 256 && e < 256 && f < 256
    ensures Split28(Word(s, d, e, f), 0) == s % 16 * 0x100_0000 + d * 0x1_0000 + e * 0x100 + f
  {
    var w := Word(s, d, e, f);
    var low := d * 0x1_0000 + e * 0x100 + f;
    DivMod(w, 0x100_0000, s, low);
    DivMod(w, 0x1_0000_0000, 0, w);
  }

  /** The nibble split of the single load equals the pairwise read of both records. */
  lemma ReadNode28Splits(buffer: seq<byte>, base: nat)
    requires base + 7 <= |buffer|
    ensures ReadNodePair(buffer, base, 28) == Some((ReadNode28(buffer, base, 0), ReadNode28(buffer, base, 1)))
  {
    hide Split28;
    var s := At(buffer, base + 3);
    Split28Left(At(buffer, base), At(buffer, base + 1), At(buffer, base + 2), s);
    Split28Right(s, At(buffer, base + 4), At(buffer, base + 5), At(buffer, base + 6));
  }

  lemma LoadIsChild(db: Database, node: nat, bit: bool)
    requires Covered(db) && node < db.nodeCount
    ensures LoadRecord(db, node, if bit then 1 else 0) == Child(db, node, bit)
  {
    if db.recordSize == 28 {
      ReadNode28Splits(db.buffer, node * 7);
    }
  }

  /** Depth at which an address enters the tree: outside IPv6 databases the root is the end of the IPv4 prefix ::/96. */
  function StartDepth(db: Database, ip: Address): (depth: nat)
    ensures depth == 0 || depth == 96
  {
    if ip.V4? && db.ipVersion != 6 then 96 else 0
  }

  /** In a database of one of the two versions this is the depth of its root, for every address it accepts. */
  lemma StartIsRoot(db: Database, ip: Address)
    requires db.ipVersion == 4 || db.ipVersion == 6
    requires !(db.ipVersion == 4 && ip.V6?) && !ip.NoAddress?
    ensures StartDepth(db, ip) == RootDepth(db)
  {
  }

  /** Where IPv4 lookups start: the end of the all-zero 96-bit path, or the root of a tree that is not IPv6. */
  function IPv4Start(db: Database): (nat, nat)
    requires Covered(db)
  {
    if db.ipVersion == 6 then Walk(db, 0, Zeros(128), 0, 96) else (0, 96)
  }

  /** Walking the 32 address bits below the shortcut is walking bits 96..128 of the embedded address. */
  lemma {:induction false} WalkShifted(db: Database, node: nat, bits: seq<bool>, j: nat, stop: nat)
    requires Covered(db) && |bits| == 32 && stop <= 32
    ensures var short := Walk(db, node, bits, j, stop);
            Walk(db, node, Zeros(96) + bits, 96 + j, 96 + stop) == (short.0, 96 + short.1)
    decreases stop - j
  {
    if j < stop && node < db.nodeCount {
      assert (Zeros(96) + bits)[96 + j] == bits[j];
      WalkShifted(db, Child(db, node, bits[j]), bits, j + 1, stop);
    }
  }

  lemma ZeroPathShared(db: Database, ip: Address, stop: nat)
    requires Covered(db) && IsAddress(ip) && ip.V4? && 96 <= stop <= 128 && db.ipVersion == 6
    ensures var start := IPv4Start(db);
            Walk(db, 0, Embed(ip), 0, stop) == Walk(db, start.0, Embed(ip), start.1, stop)
  {
    WalkAgrees(db, 0, Zeros(128), Embed(ip), 0, 96);
    WalkResume(db, 0, Embed(ip), 0, 96, stop);
  }

  /** What the 32-bit loop reaches from a node on the IPv4 path is what the embedded address reaches from there. */
  lemma WalkBelow(db: Database, ip: Address, node: nat, depth: nat, stop: nat)
    requires Covered(db) && IsAddress(ip) && ip.V4? && 96 <= stop <= 128
    requires depth <= 96 && (node < db.nodeCount ==> depth == 96)
    ensures Walk(db, node, Embed(ip), depth, stop)
            == if stop <= depth then (node, depth)
               else var short := Walk(db, node, ip.bits, 0, if stop - depth < 32 then stop - depth else 32);
                    (short.0, depth + short.1)
  {
    hide Walk, Child;
    if node < db.nodeCount {
      WalkShifted(db, node, ip.bits, 0, stop - 96);
      WalkStep(db, node, Embed(ip), depth, stop);
    } else {
      WalkStep(db, node, Embed(ip), depth, stop);
      WalkStep(db, node, ip.bits, 0, if stop - depth < 32 then stop - depth else 32);
    }
  }

  /** The shortcut changes neither the node nor the depth that the full 128-bit walk reaches. */
  lemma ShortcutIsFullWalk(db: Database, ip: Address, stop: nat)
    requires Covered(db) && IsAddress(ip) && ip.V4? && 96 <= stop <= 128
    ensures var start := IPv4Start(db);
            var full := Walk(db, 0, Embed(ip), StartDepth(db, ip), stop);
            if stop <= start.1 then full == start
            else var short := Walk(db, start.0, ip.bits, 0, if stop - start.1 < 32 then stop - start.1 else 32);
                 full == (short.0, start.1 + short.1)
  {
    hide Walk, Child, Embed;
    var start := IPv4Start(db);
    if db.ipVersion == 6 {
      ZeroPathShared(db, ip, stop);
    }
    WalkBelow(db, ip, start.0, start.1, stop);
  }

  datatype LookupResult = LookupResult(ip: Address, prefixLen: nat, outcome: Result<Option<nat>>)

  /** What the record a walk ended on means for a lookup. */
  function Answer(db: Database, pointer: nat): Result<Option<nat>> {
    if pointer == db.nodeCount then Ok(None)
    else if pointer < db.nodeCount then Err(Malformed)
    else match ResolveDataPointer(db, pointer)
         case None => Err(Malformed)
         case Some(offset) => Ok(Some(offset))
  }

  /**
   * What a record says, without the code that reads it: `nodeCount` is "not found", `nodeCount + 16 + o` is the value
   * at offset `o` of the data section, and every other record is an error.
   */
  ghost predicate Says(db: Database, pointer: nat, outcome: Result<Option<nat>>) {
    && (outcome == Ok(None) <==> pointer == db.nodeCount)
    && (forall o: nat :: outcome == Ok(Some(o)) <==> o < |db.data| && pointer == db.nodeCount + SEPARATOR_SIZE + o)
    && (outcome.Err? ==> outcome.error == Malformed)
  }

  /** The answer is what the record says, and nothing else is. */
  lemma AnswerSays(db: Database, pointer: nat, outcome: Result<Option<nat>>)
    ensures Says(db, pointer, outcome) <==> outcome == Answer(db, pointer)
  {
    if Answer(db, pointer).Err? {
      if outcome.Ok? && outcome.value.Some? { assert outcome == Ok(Some(outcome.value.value)); }
    } else if Answer(db, pointer).value.Some? {
      assert Says(db, pointer, outcome) ==> outcome == Ok(Some(Answer(db, pointer).value.value));
    }
  }

  class Reader {
    const db: Database
    var ipv4Start: nat
    var ipv4StartBitDepth: nat

    constructor (db: Database)
      ensures this.db == db && ipv4Start == 0 && ipv4StartBitDepth == 0
    {
      this.db := db;
      ipv4Start, ipv4StartBitDepth := 0, 0;
    }

    /** The state SetIPv4Start leaves behind on success. */
    ghost predicate Ready()
      reads this
    {
      && Covered(db)
      && (ipv4Start, ipv4StartBitDepth) == IPv4Start(db)
    }

    method SetIPv4Start() returns (ok: bool)
      modifies this
      ensures Covered(db) ==> ok && Ready()
      ensures ok && db.ipVersion == 6 ==> Covered(db)
      ensures !ok ==> unchanged(this)
    {
      if db.ipVersion != 6 {
        ipv4Start, ipv4StartBitDepth := 0, 96;
        return true;
      }
      var r := TraverseTree(V6(Zeros(128)), 0, 96);
      if r.Err? { return false; }
      ipv4Start, ipv4StartBitDepth := r.value.0, r.value.1;
      return true;
    }

    /**
     * Traversal dispatch for 24-, 28- and 32-bit records. The buffer guard is checked once; the loops then
     * read records without further checks. IPv4 addresses start at the shortcut and ignore `node`.
     */
    method TraverseTree(ip: Address, node: nat, stopBit: nat) returns (r: Result<(nat, nat)>)
      requires IsAddress(ip) && stopBit <= 128
      requires ip.V4? ==> 96 <= stopBit && (Covered(db) ==> Ready())
      ensures r.Ok? <==> Covered(db)
      ensures r.Ok? && ip.V6? ==> r.value == Walk(db, node, ip.bits, 0, stopBit)
      ensures r.Ok? && ip.V4? ==> r.value == Walk(db, 0, Embed(ip), StartDepth(db, ip), stopBit)
    {
      if !(db.recordSize == 24 || db.recordSize == 28 || db.recordSize == 32) { return Err(Malformed); }
      if |db.buffer| < NodeBase(db, db.nodeCount) { return Err(Malformed); }
      var end: nat, i: nat;
      if ip.V4? {
        end, i := TraverseIPv4(ip, stopBit);
      } else {
        end, i := TraverseIPv6(ip.bits, node, stopBit);
      }
      return Ok((end, i));
    }

    /** The loop of traverseTree24/28/32 for IPv4: one 32-bit register, shifted left once per record. */
    method TraverseIPv4(ip: Address, stopBit: nat) returns (node: nat, depth: nat)
      requires IsAddress(ip) && ip.V4? && 96 <= stopBit <= 128 && Ready()
      ensures (node, depth) == Walk(db, 0, Embed(ip), StartDepth(db, ip), stopBit)
    {
      hide Walk, Child, LoadRecord, ShiftLeft, Embed, IPv4Start;
      ShortcutIsFullWalk(db, ip, stopBit);
      node, depth := ipv4Start, ipv4StartBitDepth;
      if stopBit <= depth { return; }
      var ipBits := ip.bits;
      var remainingBits := if stopBit - depth < 32 then stopBit - depth else 32;
      var j := 0;
      while j < remainingBits && node < db.nodeCount
        invariant j <= remainingBits && |ipBits| == 32
        invariant forall t :: 0 <= t < 32 - j ==> ipBits[t] == ip.bits[j + t]
        invariant Walk(db, node, ip.bits, j, remainingBits) == Walk(db, ipv4Start, ip.bits, 0, remainingBits)
      {
        LoadIsChild(db, node, ipBits[0]);
        WalkStep(db, node, ip.bits, j, remainingBits);
        var bit := if ipBits[0] then 1 else 0;
        Shifted(ipBits, 1);
        ipBits := ShiftLeft(ipBits, 1);
        node := LoadRecord(db, node, bit);
        j := j + 1;
      }
      WalkStep(db, node, ip.bits, j, remainingBits);
      depth := depth + j;
    }

    /** The loops of traverseTree24/28/32 for IPv6: the address is consumed in 32-bit chunks. */
    method TraverseIPv6(ip: seq<bool>, start: nat, stopBit: nat) returns (node: nat, i: nat)
      requires |ip| == 128 && stopBit <= 128 && Covered(db)
      ensures (node, i) == Walk(db, start, ip, 0, stopBit)
    {
      hide Walk, Child, LoadRecord, ShiftLeft;
      node, i := start, 0;
      while i < stopBit && node < db.nodeCount
        invariant i <= stopBit
        invariant Walk(db, node, ip, i, stopBit) == Walk(db, start, ip, 0, stopBit)
      {
        var chunk := i / 32;
        var offsetInChunk := i % 32;
        ChunkBits(ip, i);
        var ipBits := ShiftLeft(ip[chunk * 32..chunk * 32 + 32], offsetInChunk);
        var bitsToProcess := if 32 - offsetInChunk < stopBit - i then 32 - offsetInChunk else stopBit - i;
        var j := 0;
        ghost var i0 := i;
        while j < bitsToProcess && node < db.nodeCount
          invariant j <= bitsToProcess && i == i0 + j && i <= stopBit && |ipBits| == 32
          invariant forall t :: 0 <= t < 32 - offsetInChunk - j ==> ipBits[t] == ip[i + t]
          invariant Walk(db, node, ip, i, stopBit) == Walk(db, start, ip, 0, stopBit)
        {
          LoadIsChild(db, node, ipBits[0]);
          WalkStep(db, node, ip, i, stopBit);
          var bit := if ipBits[0] then 1 else 0;
          Shifted(ipBits, 1);
          ipBits := ShiftLeft(ipBits, 1);
          node := LoadRecord(db, node, bit);
          i, j := i + 1, j + 1;
        }
      }
      WalkStep(db, node, ip, i, stopBit);
    }

    /** Lookup: the record at the end of the full 128-bit walk, whatever the record size and address family. */
    method Lookup(ip: Address) returns (r: LookupResult)
      requires ip.NoAddress? || IsAddress(ip)
      requires Ready()
      ensures r.ip == ip
      ensures ip.NoAddress? ==> r.outcome == Err(InvalidAddress)
      ensures ip.V6? && db.ipVersion == 4 ==> r.outcome == Err(WrongFamily)
      ensures IsAddress(ip) && !(ip.V6? && db.ipVersion == 4) ==>
                var walk := Walk(db, 0, Embed(ip), StartDepth(db, ip), 128);
                Says(db, walk.0, r.outcome) && r.prefixLen == walk.1
    {
      if ip.NoAddress? { return LookupResult(ip, 0, Err(InvalidAddress)); }
      if db.ipVersion == 4 && ip.V6? { return LookupResult(ip, 0, Err(WrongFamily)); }
      var t := TraverseTree(ip, 0, 128);
      var (node, prefixLen) := t.value;
      AnswerSays(db, node, Answer(db, node));
      if node == db.nodeCount { return LookupResult(ip, prefixLen, Ok(None)); }
      if node < db.nodeCount { return LookupResult(ip, prefixLen, Err(Malformed)); }
      match ResolveDataPointer(db, node)
      case None => return LookupResult(ip, prefixLen, Err(Malformed));
      case Some(offset) => return LookupResult(ip, prefixLen, Ok(Some(offset)));
    }
  }
}
