/** A fixed-block allocator inside one region of memory: a header, then blocks whose
    first word links the free list. Addresses are 64-bit and pointer arithmetic wraps. */
module FixedMemPool {
  import opened PoolSpec

  const ADDRESS_SPACE := 0x1_0000_0000_0000_0000
  const HEADER_SIZE := 56
  const NODE_OFFSET := 8
  const INVALID_POINTER := ADDRESS_SPACE - 1

  /** Node size plus the link word, rounded up to a multiple of 8. */
  function BlockSize(nodeSize: nat): (size: nat) {
    (nodeSize + NODE_OFFSET + 7) % ADDRESS_SPACE / 8 * 8
  }

  /** The bytes of a header and n blocks, in size_t arithmetic. */
  function RegionSize(n: nat, blockSize: nat): nat {
    (HEADER_SIZE + n * blockSize) % ADDRESS_SPACE
  }

  function AllocSize(maxNodeNum: nat, nodeSize: nat): nat {
    RegionSize(maxNodeNum, BlockSize(nodeSize))
  }

  /** A block has room for its node and its link, and wastes less than a word. */
  lemma BlockSizeFits(nodeSize: nat)
    requires nodeSize + NODE_OFFSET + 7 < ADDRESS_SPACE
    ensures BlockSize(nodeSize) % 8 == 0
    ensures nodeSize + NODE_OFFSET <= BlockSize(nodeSize) < nodeSize + NODE_OFFSET + 8
  {}

  // ----- block addresses

  /** `%` on unsigned operands, by repeated subtraction. */
  function Mod(a: nat, b: nat): nat
    requires b > 0
  {
    if a < b then a else Mod(a - b, b)
  }

  lemma {:induction false} ModIsRemainder(a: nat, b: nat)
    requires b > 0
    ensures Mod(a, b) == a % b
  {
    if a >= b {
      ModIsRemainder(a - b, b);
      SameRemainder(a - b, b);
    }
  }

  lemma SameRemainder(a: nat, b: nat)
    requires b > 0
    ensures (a + b) % b == a % b
  {
    var q, r := a / b, a % b;
    var q', r' := (a + b) / b, (a + b) % b;
    assert (q' - q - 1) * b == r - r';
    NoSmallMultiple(q' - q - 1, b);
  }

  lemma NoSmallMultiple(m: int, b: int)
    ensures -b < m * b < b ==> m == 0
  {}

  /** The three tests of IsValidBlock, in the source's order. */
  predicate PassesChecks(base: nat, blockSize: nat, usedSize: nat, block: nat)
    requires blockSize > 0
  {
    block >= base + HEADER_SIZE &&
    (block + blockSize) % ADDRESS_SPACE <= base + usedSize &&
    Mod(block - base, blockSize) == Mod(HEADER_SIZE, blockSize)
  }

  /** Offset of block k from the header: blocks follow the header one after another. */
  function Offset(k: nat, blockSize: nat): (offset: nat)
    ensures offset >= HEADER_SIZE
  {
    if k == 0 then HEADER_SIZE else Offset(k - 1, blockSize) + blockSize
  }

  lemma {:induction false} OffsetLinear(k: nat, blockSize: nat)
    ensures Offset(k, blockSize) == HEADER_SIZE + k * blockSize
  {
    if k > 0 {
      OffsetLinear(k - 1, blockSize);
      assert k * blockSize == (k - 1) * blockSize + blockSize;
    }
  }

  lemma RegionSizeIsOffset(n: nat, blockSize: nat)
    requires Offset(n, blockSize) < ADDRESS_SPACE
    ensures RegionSize(n, blockSize) == Offset(n, blockSize)
  {
    OffsetLinear(n, blockSize);
  }

  lemma {:induction false} OffsetMonotone(j: nat, k: nat, blockSize: nat)
    requires j <= k
    ensures Offset(j, blockSize) <= Offset(k, blockSize)
    ensures j < k ==> Offset(j, blockSize) + blockSize <= Offset(k, blockSize)
    decreases k - j
  {
    if j < k {
      OffsetMonotone(j, k - 1, blockSize);
    }
  }

  /** Which block lies at an offset. */
  function RecordAt(offset: nat, blockSize: nat): nat
    requires blockSize > 0
  {
    if offset < HEADER_SIZE + blockSize then 0 else 1 + RecordAt(offset - blockSize, blockSize)
  }

  lemma {:induction false} RecordAtOffset(k: nat, blockSize: nat)
    requires blockSize > 0
    ensures RecordAt(Offset(k, blockSize), blockSize) == k
  {
    if k > 0 {
      RecordAtOffset(k - 1, blockSize);
    }
  }

  lemma OffsetInjective(j: nat, k: nat, blockSize: nat)
    requires blockSize > 0 && Offset(j, blockSize) == Offset(k, blockSize)
    ensures j == k
  {
    RecordAtOffset(j, blockSize);
    RecordAtOffset(k, blockSize);
  }

  function BlockAddress(base: nat, blockSize: nat, k: nat): nat {
    base + Offset(k, blockSize)
  }

  ghost predicate IsCarved(base: nat, blockSize: nat, carved: nat, block: nat) {
    exists k :: 0 <= k < carved && block == BlockAddress(base, blockSize, k)
  }

  /** An address so high that its end wraps past zero, and aligned like a block. */
  predicate WrapsAround(base: nat, blockSize: nat, usedSize: nat, block: nat)
    requires blockSize > 0
  {
    block + blockSize >= ADDRESS_SPACE &&
    block + blockSize - ADDRESS_SPACE <= base + usedSize &&
    block >= base + HEADER_SIZE && Mod(block - base, blockSize) == Mod(HEADER_SIZE, blockSize)
  }

  /** The checks accept exactly the carved blocks and the addresses that wrap around;
      so below the last block of the address space they are exact. */
  lemma ChecksExact(base: nat, blockSize: nat, carved: nat, block: nat)
    requires blockSize > 0 && block < ADDRESS_SPACE
    requires base + Offset(carved, blockSize) + blockSize < ADDRESS_SPACE
    ensures PassesChecks(base, blockSize, Offset(carved, blockSize), block)
        <==> IsCarved(base, blockSize, carved, block)
             || WrapsAround(base, blockSize, Offset(carved, blockSize), block)
    ensures !(IsCarved(base, blockSize, carved, block)
              && WrapsAround(base, blockSize, Offset(carved, blockSize), block))
  {
    if IsCarved(base, blockSize, carved, block) {
      var k :| 0 <= k < carved && block == BlockAddress(base, blockSize, k);
      CarvedPasses(base, blockSize, carved, k);
    }
    if PassesChecks(base, blockSize, Offset(carved, blockSize), block)
       && block + blockSize < ADDRESS_SPACE {
      PassesIsCarved(base, blockSize, carved, block);
    }
  }

  lemma CarvedPasses(base: nat, blockSize: nat, carved: nat, k: nat)
    requires blockSize > 0 && k < carved
    requires base + Offset(carved, blockSize) + blockSize < ADDRESS_SPACE
    ensures BlockAddress(base, blockSize, k) + blockSize < ADDRESS_SPACE
    ensures PassesChecks(base, blockSize, Offset(carved, blockSize),
                         BlockAddress(base, blockSize, k))
  {
    OffsetMonotone(k, carved, blockSize);
    OffsetAligned(k, blockSize);
  }

  lemma {:induction false} OffsetAligned(k: nat, blockSize: nat)
    requires blockSize > 0
    ensures Mod(Offset(k, blockSize), blockSize) == Mod(HEADER_SIZE, blockSize)
  {
    if k > 0 {
      OffsetAligned(k - 1, blockSize);
    }
  }

  lemma PassesIsCarved(base: nat, blockSize: nat, carved: nat, block: nat)
    requires blockSize > 0 && block + blockSize < ADDRESS_SPACE
    requires PassesChecks(base, blockSize, Offset(carved, blockSize), block)
    ensures IsCarved(base, blockSize, carved, block)
  {
    var k := AlignedOffset(block - base, blockSize);
    if carved <= k {
      OffsetMonotone(carved, k, blockSize);
    }
    assert block == BlockAddress(base, blockSize, k);
  }

  /** Every aligned offset past the header is the offset of some block. */
  lemma {:induction false} AlignedOffset(offset: nat, blockSize: nat) returns (k: nat)
    requires blockSize > 0 && offset >= HEADER_SIZE
    requires Mod(offset, blockSize) == Mod(HEADER_SIZE, blockSize)
    ensures offset == Offset(k, blockSize)
  {
    if offset >= HEADER_SIZE + blockSize {
      k := AlignedOffset(offset - blockSize, blockSize);
      k := k + 1;
    } else {
      ModIsRemainder(offset, blockSize);
      ModIsRemainder(HEADER_SIZE, blockSize);
      var q, p := offset / blockSize, HEADER_SIZE / blockSize;
      assert offset - HEADER_SIZE == (q - p) * blockSize;
      NoSmallMultiple(q - p, blockSize);
      k := 0;
    }
  }

  /** Different blocks do not overlap, and every block ends inside the region. */
  lemma BlocksDisjoint(base: nat, blockSize: nat, j: nat, k: nat, capacity: nat)
    requires j < k < capacity
    ensures BlockAddress(base, blockSize, j) + blockSize <= BlockAddress(base, blockSize, k)
    ensures BlockAddress(base, blockSize, k) + blockSize
         <= base + HEADER_SIZE + capacity * blockSize
  {
    OffsetMonotone(j, k, blockSize);
    OffsetMonotone(k, capacity, blockSize);
    OffsetLinear(capacity, blockSize);
  }

  /** Block start from node address; the subtraction wraps. */
  function GetBlock(node: nat): nat {
    (node - NODE_OFFSET) % ADDRESS_SPACE
  }

  lemma GetBlockOf(block: nat)
    requires block + NODE_OFFSET < ADDRESS_SPACE
    ensures GetBlock(block + NODE_OFFSET) == block
  {}

  lemma GetBlockBelow(node: nat)
    requires node < ADDRESS_SPACE && GetBlock(node) + NODE_OFFSET < ADDRESS_SPACE
    ensures node == GetBlock(node) + NODE_OFFSET
  {}

  /** A pointer is the node of block k exactly when its block start is block k's address. */
  lemma NodeOfBlock(base: nat, blockSize: nat, carved: nat, node: nat)
    requires blockSize >= NODE_OFFSET && node < ADDRESS_SPACE
    requires base + Offset(carved, blockSize) + blockSize < ADDRESS_SPACE
    ensures forall k :: 0 <= k < carved ==>
              (node == BlockAddress(base, blockSize, k) + NODE_OFFSET <==>
               GetBlock(node) == BlockAddress(base, blockSize, k))
  {
    var block := GetBlock(node);
    forall k | 0 <= k < carved
      ensures node == BlockAddress(base, blockSize, k) + NODE_OFFSET <==>
              block == BlockAddress(base, blockSize, k)
    {
      OffsetMonotone(k, carved, blockSize);
      GetBlockOf(BlockAddress(base, blockSize, k));
      if block == BlockAddress(base, blockSize, k) {
        GetBlockBelow(node);
      }
    }
  }

  /** Free(NULL) on a pool of 16-byte blocks: the block address is 2^64 - 8, which the
      checks accept although no block is there. */
  lemma NullPassesChecks()
    ensures PassesChecks(0x10000, 16, Offset(1, 16), GetBlock(0))
    ensures !IsCarved(0x10000, 16, 1, GetBlock(0))
  {
    var block := GetBlock(0);
    assert block == ADDRESS_SPACE - 8;
    ModIsRemainder(block - 0x10000, 16);
    ModIsRemainder(HEADER_SIZE, 16);
    assert (block - 0x10000) % 16 == 8 && HEADER_SIZE % 16 == 8;
    assert Offset(1, 16) == HEADER_SIZE + 16;
    assert Offset(0, 16) == HEADER_SIZE;
  }

  // ----- the free list threaded through the blocks

  /** One block of the region: its link word and the bytes of its node. */
  datatype Block = Block(next: nat, node: seq<nat>)

  /** The offset stored for "what comes at" position i of the free list. */
  function Link(free: seq<nat>, i: nat, blockSize: nat): nat {
    if i < |free| then Offset(free[i], blockSize) else INVALID_POINTER
  }

  /** Following `next` from `head` visits exactly the free blocks, in stack order, and ends
      at kInvalidPointer; every other carved block, except possibly `pending`, holds 0. */
  ghost predicate Chained(records: seq<Block>, head: nat, s: PoolState, blockSize: nat, pending: nat) {
    WellFormed(s) && |records| == s.capacity &&
    head == Link(s.free, 0, blockSize) &&
    (forall i :: 0 <= i < |s.free| ==> records[s.free[i]].next == Link(s.free, i + 1, blockSize)) &&
    (forall k :: 0 <= k < s.carved && k !in s.free && k != pending ==> records[k].next == 0)
  }

  /** A carved block's link is zero exactly when the block is live. */
  lemma ZeroLinkIsLive(records: seq<Block>, head: nat, s: PoolState, blockSize: nat, k: nat)
    requires Chained(records, head, s, blockSize, s.carved) && k < s.carved
    ensures records[k].next == 0 <==> k in Live(s)
  {
    if k in s.free {
      var i :| 0 <= i < |s.free| && s.free[i] == k;
      assert records[k].next == Link(s.free, i + 1, blockSize);
    }
  }

  lemma ChainPop(records: seq<Block>, head: nat, s: PoolState, blockSize: nat)
    requires Chained(records, head, s, blockSize, s.carved) && s.free != []
    ensures Chained(records, records[s.free[0]].next, s.(free := s.free[1..]), blockSize, s.free[0])
  {
    var rest := s.free[1..];
    assert forall i :: 0 <= i < |rest| ==> rest[i] == s.free[i + 1];
    forall k | 0 <= k < s.carved && k !in rest && k != s.free[0]
      ensures records[k].next == 0
    {
      assert k !in s.free;
    }
  }

  lemma ChainPush(records: seq<Block>, head: nat, s: PoolState, blockSize: nat, k: nat)
    requires Chained(records, head, s, blockSize, s.carved) && k in Live(s)
    ensures Chained(records[k := records[k].(next := head)], Offset(k, blockSize),
                    s.(free := [k] + s.free), blockSize, s.carved)
  {
    var longer := [k] + s.free;
    var after := records[k := records[k].(next := head)];
    forall i | 0 <= i < |longer|
      ensures after[longer[i]].next == Link(longer, i + 1, blockSize)
    {
      if i > 0 {
        assert longer[i] == s.free[i - 1] && longer[i] != k;
        assert records[s.free[i - 1]].next == Link(s.free, i, blockSize);
      }
    }
    FreeSound(s, k);
  }

  lemma ChainCarve(records: seq<Block>, head: nat, s: PoolState, blockSize: nat)
    requires Chained(records, head, s, blockSize, s.carved) && s.carved < s.capacity
    ensures Chained(records, head, s.(carved := s.carved + 1), blockSize, s.carved)
  {}

  lemma ChainUse(records: seq<Block>, head: nat, s: PoolState, blockSize: nat, p: nat, b: Block)
    requires Chained(records, head, s, blockSize, p)
    requires p < s.carved && p !in s.free && b.next == 0
    ensures Chained(records[p := b], head, s, blockSize, s.carved)
  {}

  function Zeros(n: nat): (z: seq<nat>)
    ensures |z| == n && forall i :: 0 <= i < n ==> z[i] == 0
  {
    seq(n, i => 0)
  }

  // ----- the pool

  datatype FreeResult = Freed | Rejected | WildRead

  class Pool {
    // the header; `base` is its address
    var base: nat
    var maxSize: nat
    var maxNodeNum: nat
    var usedSize: nat
    var usedNodeNum: nat
    var nodeSize: nat
    var blockSize: nat
    var freeListOffset: nat
    // the memory after the header
    const blocks: array<Block>
    // the free list, most recently freed block first
    ghost var free: seq<nat>

    /** The header fields agree with each other and with the memory. */
    ghost predicate Sized()
      reads this
    {
      0 < base && NODE_OFFSET <= blockSize &&
      usedNodeNum <= maxNodeNum == blocks.Length &&
      maxSize == Offset(maxNodeNum, blockSize) &&
      usedSize == Offset(usedNodeNum, blockSize) &&
      base + maxSize + blockSize < ADDRESS_SPACE
    }

    ghost function Abs(): PoolState
      reads this
    {
      PoolState(maxNodeNum, usedNodeNum, free)
    }

    function Address(k: nat): nat
      reads this
    {
      BlockAddress(base, blockSize, k)
    }

    ghost predicate Linked(pending: nat)
      reads this, blocks
    {
      Chained(blocks[..], freeListOffset, Abs(), blockSize, pending)
    }

    ghost predicate Valid()
      reads this, blocks
    {
      Sized() && Linked(usedNodeNum)
    }

    constructor (memory: array<Block>)
      ensures blocks == memory
    {
      blocks := memory;
    }

    function IsValidBlock(block: nat): bool
      reads this
      requires blockSize > 0
    {
      PassesChecks(base, blockSize, usedSize, block)
    }

    function NodeAddress(k: nat): nat
      reads this
    {
      Address(k) + NODE_OFFSET
    }

    /** Which record a block address denotes. */
    function IndexOf(block: nat): nat
      reads this
      requires blockSize > 0 && block >= base
    {
      RecordAt(block - base, blockSize)
    }

    lemma CarvedIsValid(k: nat)
      requires Sized() && k < usedNodeNum
      ensures IsValidBlock(Address(k)) && IndexOf(Address(k)) == k
      ensures Address(k) + blockSize < ADDRESS_SPACE
    {
      OffsetMonotone(usedNodeNum, maxNodeNum, blockSize);
      CarvedPasses(base, blockSize, usedNodeNum, k);
      RecordAtOffset(k, blockSize);
    }

    /** Init. A null region is refused; otherwise the memory behind `mem` must be the
        AllocSize bytes the caller is told to provide. */
    method Init(mem: nat, maxNodeNum: nat, nodeSize: nat, checkHeader: bool) returns (r: int)
      requires mem != 0 ==> nodeSize + NODE_OFFSET + 7 < ADDRESS_SPACE
      requires mem != 0 ==> blocks.Length == maxNodeNum
      requires mem != 0 ==>
                 mem + Offset(maxNodeNum, BlockSize(nodeSize)) + BlockSize(nodeSize) < ADDRESS_SPACE
      modifies this
      ensures this.nodeSize == old(this.nodeSize)
      ensures mem == 0 ==> r == -1 && base == old(base)
      ensures mem != 0 ==> base == mem
      ensures mem != 0 && !checkHeader ==>
                r == 0 && Valid() && Abs() == PoolState(maxNodeNum, 0, []) &&
                blockSize == BlockSize(nodeSize)
      ensures mem != 0 && checkHeader ==> (r == 0 <==> CheckHeader(maxNodeNum, nodeSize))
      ensures mem != 0 && checkHeader ==>
                r == if old(this.nodeSize) == nodeSize && old(blockSize) == BlockSize(nodeSize) &&
                        old(this.maxNodeNum) == maxNodeNum &&
                        old(maxSize) == Offset(maxNodeNum, BlockSize(nodeSize)) &&
                        old(usedSize) == (HEADER_SIZE + old(usedNodeNum) * old(blockSize)) % ADDRESS_SPACE &&
                        old(usedSize) <= old(maxSize)
                     then 0 else -1
      ensures mem != 0 && checkHeader ==>
                Abs() == old(Abs()) && blockSize == old(blockSize) &&
                maxSize == old(maxSize) && usedSize == old(usedSize) &&
                freeListOffset == old(freeListOffset)
      ensures mem != 0 && checkHeader && old(Valid()) && mem == old(base) &&
              maxNodeNum == old(this.maxNodeNum) && BlockSize(nodeSize) == old(blockSize) ==>
                Valid() && (r == 0 <==> old(this.nodeSize) == nodeSize)
    {
      if mem == 0 {
        return -1;
      }
      base := mem;
      RegionSizeIsOffset(maxNodeNum, BlockSize(nodeSize));
      if !checkHeader {
        maxSize := AllocSize(maxNodeNum, nodeSize);
        this.maxNodeNum := maxNodeNum;
        usedSize := HEADER_SIZE;
        usedNodeNum := 0;
        blockSize := BlockSize(nodeSize);
        freeListOffset := INVALID_POINTER;
        free := [];
        BlockSizeFits(nodeSize);
      } else {
        if old(Valid()) {
          OffsetMonotone(usedNodeNum, this.maxNodeNum, blockSize);
          if Offset(this.maxNodeNum, blockSize) < ADDRESS_SPACE {
            RegionSizeIsOffset(usedNodeNum, blockSize);
          }
        }
        if !CheckHeader(maxNodeNum, nodeSize) {
          return -1;
        }
      }
      return 0;
    }

    predicate CheckHeader(maxNodeNum: nat, nodeSize: nat)
      reads this
    {
      var maxSize := AllocSize(maxNodeNum, nodeSize);
      this.nodeSize == nodeSize && blockSize == BlockSize(nodeSize) &&
      this.maxNodeNum == maxNodeNum && this.maxSize == maxSize &&
      RegionSize(usedNodeNum, blockSize) == usedSize &&
      usedSize <= maxSize
    }

    lemma HeadOfList()
      requires Valid()
      ensures freeListOffset == INVALID_POINTER <==> free == []
      ensures free != [] ==> free[0] < usedNodeNum && base + freeListOffset == Address(free[0])
    {
      if free != [] {
        LinkIsOffset(0);
      }
    }

    /** Unlinks the head of the free list, or returns NULL. */
    method GetFreeBlock() returns (p: nat)
      requires Valid()
      modifies `freeListOffset, `free
      ensures Sized()
      ensures old(free) == [] ==> p == 0 && free == [] && Valid()
      ensures old(free) != [] ==> p == Address(old(free)[0]) && free == old(free)[1..] &&
                                  Linked(old(free)[0])
    {
      hide Mod, RecordAt, Chained;
      HeadOfList();
      if free != [] {
        CarvedIsValid(free[0]);
        ChainPop(blocks[..], freeListOffset, Abs(), blockSize);
      }
      if freeListOffset == INVALID_POINTER {
        p := 0;
      } else {
        p := base + freeListOffset;
        freeListOffset := blocks[IndexOf(p)].next;
        free := free[1..];
      }
    }

    /** The first half of Alloc: picks a freed block, else a fresh one, else NULL (0). */
    method TakeBlock() returns (p: int)
      requires Valid()
      modifies this
      ensures Sized() && base == old(base) && blockSize == old(blockSize) && nodeSize == old(nodeSize)
      ensures Abs() == AllocNext(old(Abs())).0
      ensures AllocNext(old(Abs())).1.None? ==> p == 0 && Valid()
      ensures AllocNext(old(Abs())).1.Some? ==>
                var k := AllocNext(old(Abs())).1.value;
                p == Address(k) && p != 0 && k < usedNodeNum && k !in free && Linked(k)
    {
      hide Mod, RecordAt;
      p := GetFreeBlock();
      if p == 0 {
        FreshBlockFits(usedNodeNum, maxNodeNum, blockSize);
        if usedSize + blockSize <= maxSize {
          ChainCarve(blocks[..], freeListOffset, Abs(), blockSize);
          p := base + usedSize;
          usedSize := usedSize + blockSize;
          usedNodeNum := usedNodeNum + 1;
        }
      } else {
        CarvedIsValid(old(free[0]));
        if !IsValidBlock(p) {
          p := 0;
        }
      }
    }

    /** Alloc: a freed block if there is one, else a fresh one, else NULL (0). */
    method Alloc(zero: bool) returns (node: nat)
      requires Valid()
      modifies this, blocks
      ensures Valid()
      ensures base == old(base) && blockSize == old(blockSize) && nodeSize == old(nodeSize)
      ensures Abs() == AllocNext(old(Abs())).0
      ensures AllocNext(old(Abs())).1.None? ==> node == 0
      ensures AllocNext(old(Abs())).1.Some? ==> node == NodeAddress(AllocNext(old(Abs())).1.value) > 0
      ensures AllocNext(old(Abs())).1.None? ==> blocks[..] == old(blocks[..])
      ensures AllocNext(old(Abs())).1.Some? ==>
                var k := AllocNext(old(Abs())).1.value;
                k < blocks.Length && blocks[k].next == 0 &&
                |blocks[k].node| == old(|blocks[k].node|) &&
                (forall j :: 0 <= j < |blocks[k].node| ==>
                   blocks[k].node[j] == if zero then 0 else old(blocks[k].node[j])) &&
                forall i :: 0 <= i < blocks.Length && i != k ==> blocks[i] == old(blocks[i])
    {
      hide Chained, Offset;
      ghost var r := AllocNext(Abs()).1;
      var p := TakeBlock();
      if p == 0 {
        return 0;
      }
      ghost var k := r.value;
      ChainUse(blocks[..], freeListOffset, Abs(), blockSize, k,
               Block(0, if zero then Zeros(|blocks[k].node|) else blocks[k].node));
      RecordAtOffset(k, blockSize);
      var index := IndexOf(p);
      if zero {
        blocks[index] := Block(0, Zeros(|blocks[index].node|));
      }
      blocks[index] := blocks[index].(next := 0);
      assert blocks[..] == old(blocks[..])[k := Block(0, if zero then Zeros(|old(blocks[k]).node|)
                                                         else old(blocks[k]).node)];
      node := p + NODE_OFFSET;
    }

    /** Pushes a live block on the free list. */
    method LinkFreeBlock(p: nat, ghost k: nat)
      requires Valid() && k in Live(Abs()) && p == Address(k)
      modifies this, blocks
      ensures Valid()
      ensures base == old(base) && blockSize == old(blockSize) && nodeSize == old(nodeSize)
      ensures Abs() == FreeNext(old(Abs()), k).0
      ensures blocks[..] == old(blocks[..])[k := old(blocks[k]).(next := old(freeListOffset))]
    {
      hide Mod, RecordAt, Chained;
      RecordAtOffset(k, blockSize);
      ChainPush(blocks[..], freeListOffset, Abs(), blockSize, k);
      var index := IndexOf(p);
      blocks[index] := blocks[index].(next := freeListOffset);
      assert blocks[..] == old(blocks[..])[k := old(blocks[k]).(next := old(freeListOffset))];
      freeListOffset := p - base;
      free := [k] + free;
    }

    /** The part of Free after the block start is known: IsUsedBlock, then LinkFreeBlock. */
    method ReleaseBlock(block: nat) returns (r: FreeResult)
      requires Valid() && block < ADDRESS_SPACE
      modifies this, blocks
      ensures Valid()
      ensures base == old(base) && blockSize == old(blockSize) && nodeSize == old(nodeSize)
      ensures r.Freed? <==> exists k :: k in old(Live(Abs())) && block == old(Address(k))
      ensures r.WildRead? <==> old(WrapsAround(base, blockSize, usedSize, block))
      ensures !r.Freed? ==> unchanged(this) && unchanged(blocks)
      ensures forall k :: k in old(Live(Abs())) && block == old(Address(k)) ==>
                Abs() == FreeNext(old(Abs()), k).0 &&
                blocks[..] == old(blocks[..])[k := old(blocks[k]).(next := old(freeListOffset))]
    {
      ghost var found := Classify(block);
      if !IsValidBlock(block) {
        return Rejected;
      }
      if block + blockSize >= ADDRESS_SPACE {
        return WildRead;
      }
      if blocks[IndexOf(block)].next == 0 {
        LinkFreeBlock(block, found.value);
        return Freed;
      }
      return Rejected;
    }

    /** The next carved block, or NULL; NULL asks for the first one. */
    method GetNextBlock(block: nat, ghost k: nat) returns (next: nat)
      requires Valid() && k <= usedNodeNum
      requires if k == 0 then block == 0 else block == Address(k - 1)
      ensures next == if k < usedNodeNum then Address(k) else 0
    {
      hide Mod, RecordAt, Chained;
      next := if block == 0 then base + HEADER_SIZE else block + blockSize;
      assert next == Address(k);
      OffsetMonotone(k, maxNodeNum, blockSize);
      if k < usedNodeNum {
        CarvedIsValid(k);
      }
      if !IsValidBlock(next) {
        next := 0;
      }
    }

    /** The node of the first live block from position k on, or NULL. */
    ghost function NextLiveNode(k: nat): nat
      reads this
    {
      if LiveFrom(Abs(), k) == [] then 0 else NodeAddress(LiveFrom(Abs(), k)[0])
    }

    function NodeAddresses(ks: seq<nat>): (nodes: seq<nat>)
      reads this
      ensures |nodes| == |ks|
    {
      seq(|ks|, i requires 0 <= i < |ks| reads this => NodeAddress(ks[i]))
    }

    lemma NextNodeAddress(ks: seq<nat>, k: nat)
      ensures NodeAddresses(ks + [k]) == NodeAddresses(ks) + [NodeAddress(k)]
    {}

    /** The next live block after `block`. */
    method GetNextUsedBlock(block: nat, ghost k: nat) returns (used: nat)
      requires Valid() && k <= usedNodeNum
      requires if k == 0 then block == 0 else block == Address(k - 1)
      ensures used == if LiveFrom(Abs(), k) == [] then 0 else Address(LiveFrom(Abs(), k)[0])
    {
      hide Chained, Offset;
      used := block;
      ghost var j := k;
      while true
        invariant k <= j <= usedNodeNum
        invariant if j == 0 then used == 0 else used == Address(j - 1)
        invariant LiveFrom(Abs(), j) == LiveFrom(Abs(), k)
        decreases usedNodeNum - j
      {
        var isUsed;
        used, isUsed := ProbeNextBlock(used, j);
        if used == 0 || isUsed {
          return used;
        }
        j := j + 1;
      }
    }

    /** One turn of that loop: the next block, and whether its link is zero. */
    method ProbeNextBlock(block: nat, ghost k: nat) returns (next: nat, isUsed: bool)
      requires Valid() && k <= usedNodeNum
      requires if k == 0 then block == 0 else block == Address(k - 1)
      ensures k == usedNodeNum ==> next == 0 && LiveFrom(Abs(), k) == []
      ensures k < usedNodeNum ==>
                next == Address(k) != 0 &&
                LiveFrom(Abs(), k) == (if isUsed then [k] else []) + LiveFrom(Abs(), k + 1)
    {
      next := GetNextBlock(block, k);
      if next == 0 {
        return 0, false;
      }
      LiveStep(k);
      isUsed := blocks[IndexOf(next)].next == 0;
    }

    lemma LiveStep(k: nat)
      requires Valid() && k < usedNodeNum
      ensures IndexOf(Address(k)) == k
      ensures LiveFrom(Abs(), k) == (if blocks[k].next == 0 then [k] else []) + LiveFrom(Abs(), k + 1)
    {
      CarvedIsValid(k);
      ZeroLinkIsLive(blocks[..], freeListOffset, Abs(), blockSize, k);
    }

    /** GetNextNode. NULL starts the iteration; the node of carved block k - 1 continues it. */
    method GetNextNode(node: nat, ghost k: nat) returns (next: nat)
      requires Valid() && k <= usedNodeNum
      requires if k == 0 then node == 0 else node == NodeAddress(k - 1)
      ensures next == NextLiveNode(k)
    {
      hide Chained;
      var block := 0;
      if node != 0 {
        OffsetMonotone(k - 1, maxNodeNum, blockSize);
        GetBlockOf(Address(k - 1));
        block := GetBlock(node);
      }
      block := GetNextUsedBlock(block, k);
      next := if block != 0 then block + NODE_OFFSET else 0;
    }

    /** Freeing by block number, whether or not that block is live. */
    method FreeNumber(k: nat)
      requires Valid() && k < maxNodeNum
      modifies this, blocks
      ensures Valid() && Abs() == FreeNext(old(Abs()), k).0
      ensures forall i :: 0 <= i < blocks.Length && i != k ==> blocks[i] == old(blocks[i])
      ensures blocks[k].node == old(blocks[k].node)
    {
      NodeInside(k);
      var r := Free(NodeAddress(k));
    }

    /** Position i of the free list: which record its offset denotes, and what that says next. */
    lemma ListEntry(i: nat)
      requires Valid() && i <= |free|
      ensures i == 0 ==> freeListOffset == Link(free, 0, blockSize)
      ensures Link(free, i, blockSize) != INVALID_POINTER ==>
                i < |free| && free[i] < blocks.Length &&
                RecordAt(Link(free, i, blockSize), blockSize) == free[i] &&
                blocks[free[i]].next == Link(free, i + 1, blockSize)
    {
      if i < |free| {
        RecordAtOffset(free[i], blockSize);
      }
    }

    lemma ListIsExact()
      requires Valid()
      ensures forall k :: k in free <==> 0 <= k < usedNodeNum && blocks[k].next != 0
      ensures forall i, j :: 0 <= i < j < |free| ==> free[i] != free[j]
    {
      forall k | 0 <= k < usedNodeNum
        ensures blocks[k].next == 0 <==> k !in free
      {
        ZeroLinkIsLive(blocks[..], freeListOffset, Abs(), blockSize, k);
      }
    }

    lemma LinkIsOffset(i: nat)
      requires Valid() && i <= |free|
      ensures i < |free| <==> Link(free, i, blockSize) != INVALID_POINTER
    {
      if i < |free| {
        CarvedIsValid(free[i]);
      }
    }

    /** The node address of any block that fits is an address. */
    lemma NodeInside(k: nat)
      requires Valid() && k < maxNodeNum
      ensures NodeAddress(k) < ADDRESS_SPACE
      ensures forall j :: 0 <= j < usedNodeNum && NodeAddress(j) == NodeAddress(k) ==> j == k
    {
      OffsetMonotone(k, maxNodeNum, blockSize);
      forall j | 0 <= j < usedNodeNum && NodeAddress(j) == NodeAddress(k)
        ensures j == k
      {
        OffsetInjective(j, k, blockSize);
      }
    }

    /** What the checks say of an address, and which carved block it is, if any. */
    lemma Classify(block: nat) returns (found: Option<nat>)
      requires Valid() && block < ADDRESS_SPACE
      ensures found.Some? <==> IsValidBlock(block) && block + blockSize < ADDRESS_SPACE
      ensures WrapsAround(base, blockSize, usedSize, block) <==>
              IsValidBlock(block) && block + blockSize >= ADDRESS_SPACE
      ensures found.Some? ==> found.value < usedNodeNum && block == Address(found.value)
      ensures found.Some? ==> IndexOf(block) == found.value
      ensures found.Some? ==> (found.value in Live(Abs()) <==> blocks[found.value].next == 0)
      ensures forall k :: 0 <= k < usedNodeNum && block == Address(k) ==> found == Some(k)
    {
      OffsetMonotone(usedNodeNum, maxNodeNum, blockSize);
      ChecksExact(base, blockSize, usedNodeNum, block);
      found := None;
      if IsCarved(base, blockSize, usedNodeNum, block) {
        var k :| 0 <= k < usedNodeNum && block == BlockAddress(base, blockSize, k);
        CarvedIsValid(k);
        ZeroLinkIsLive(blocks[..], freeListOffset, Abs(), blockSize, k);
        found := Some(k);
        forall j | 0 <= j < usedNodeNum && block == Address(j)
          ensures j == k
        {
          OffsetInjective(j, k, blockSize);
        }
      }
    }

    /** Free, for any pointer. It takes back the node of a live block, rejects everything
        else, and only an address that wraps around reads outside the region. */
    method Free(node: nat) returns (r: FreeResult)
      requires Valid() && node < ADDRESS_SPACE
      modifies this, blocks
      ensures Valid()
      ensures base == old(base) && blockSize == old(blockSize) && nodeSize == old(nodeSize)
      ensures r.Freed? <==> exists k :: k in old(Live(Abs())) && node == old(NodeAddress(k))
      ensures r.WildRead? <==> old(WrapsAround(base, blockSize, usedSize, GetBlock(node)))
      ensures !r.Freed? ==> unchanged(this) && unchanged(blocks)
      ensures forall k :: k in old(Live(Abs())) && node == old(NodeAddress(k)) ==>
                Abs() == FreeNext(old(Abs()), k).0 &&
                blocks[..] == old(blocks[..])[k := old(blocks[k]).(next := old(freeListOffset))]
    {
      OffsetMonotone(usedNodeNum, maxNodeNum, blockSize);
      NodeOfBlock(base, blockSize, usedNodeNum, node);
      r := ReleaseBlock(GetBlock(node));
    }
  }

  // ----- what clients can rely on

  /** Driving GetNextNode from NULL until it returns NULL lists every live node once, in
      increasing address order. */
  method LiveNodes(pool: Pool) returns (nodes: seq<nat>)
    requires pool.Valid()
    ensures nodes == pool.NodeAddresses(LiveFrom(pool.Abs(), 0))
  {
    hide Chained, Offset, LiveFrom;
    ghost var s := pool.Abs();
    ghost var visited, from := [], 0;
    nodes := [];
    var node := pool.GetNextNode(0, 0);
    while node != 0
      invariant 0 <= from && node == pool.NextLiveNode(from)
      invariant LiveFrom(s, 0) == visited + LiveFrom(s, from)
      invariant nodes == pool.NodeAddresses(visited)
      decreases s.carved - from
    {
      ghost var k := LiveFrom(s, from)[0];
      AdvanceLive(s, visited, from);
      pool.NextNodeAddress(visited, k);
      visited, from := visited + [k], k + 1;
      nodes := nodes + [node];
      node := pool.GetNextNode(node, from);
    }
    assert visited + [] == visited;
  }

  lemma AdvanceLive(s: PoolState, visited: seq<nat>, from: nat)
    requires LiveFrom(s, from) != []
    ensures var k := LiveFrom(s, from)[0];
            from <= k < s.carved &&
            visited + LiveFrom(s, from) == (visited + [k]) + LiveFrom(s, k + 1)
  {
    LiveFromTail(s, from);
  }

  /** A whole run on the real pool is the abstract run, and a block that is live and never
      freed in it keeps its bytes, whatever is handed out and taken back around it. */
  method Run(pool: Pool, ops: seq<Op>, zero: bool)
    requires pool.Valid()
    requires forall i :: 0 <= i < |ops| && ops[i].Free? ==> ops[i].block < pool.maxNodeNum
    modifies pool, pool.blocks
    ensures pool.Valid()
    ensures pool.Abs() == RunFrom(old(pool.Abs()), ops)
    ensures forall k :: k in Live(old(pool.Abs())) && Free(k) !in ops ==>
              k in Live(pool.Abs()) && pool.blocks[k] == old(pool.blocks[k])
  {
    hide Chained, Offset;
    ghost var s := pool.Abs();
    var i := 0;
    while i < |ops|
      invariant 0 <= i <= |ops| && pool.Valid()
      invariant pool.maxNodeNum == old(pool.maxNodeNum)
      invariant pool.Abs() == RunFrom(s, ops[..i])
      invariant forall k :: k in Live(s) && Free(k) !in ops ==>
                  k in Live(pool.Abs()) && pool.blocks[k] == old(pool.blocks[k])
    {
      assert ops[..i + 1][..i] == ops[..i];
      match ops[i] {
        case Alloc =>
          var node := pool.Alloc(zero);
        case Free(k) =>
          pool.FreeNumber(k);
      }
      i := i + 1;
    }
    assert ops[..i] == ops;
  }

  /** Following `next` from the header visits the free blocks, each once, and stops. */
  method WalkFreeList(pool: Pool) returns (visited: seq<nat>)
    requires pool.Valid()
    ensures forall k :: k in visited <==> 0 <= k < pool.usedNodeNum && pool.blocks[k].next != 0
    ensures forall i, j :: 0 <= i < j < |visited| ==> visited[i] != visited[j]
  {
    hide RecordAt, Offset, Chained, Link, Live;
    pool.ListEntry(0);
    var offset := pool.freeListOffset;
    visited := [];
    while offset != INVALID_POINTER
      invariant |visited| <= |pool.free| && visited == pool.free[..|visited|]
      invariant offset == Link(pool.free, |visited|, pool.blockSize)
      decreases |pool.free| - |visited|
    {
      pool.ListEntry(|visited|);
      var k := RecordAt(offset, pool.blockSize);
      visited := visited + [k];
      offset := pool.blocks[k].next;
    }
    pool.LinkIsOffset(|visited|);
    assert visited == pool.free;
    pool.ListIsExact();
  }

  /** The space test of Alloc is the count test. */
  lemma FreshBlockFits(m: nat, n: nat, blockSize: nat)
    requires m <= n && blockSize > 0
    ensures Offset(m, blockSize) + blockSize <= Offset(n, blockSize) <==> m < n
  {
    OffsetMonotone(m, n, blockSize);
  }
}
