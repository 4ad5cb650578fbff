/** The memory pool of MemPool.c: pieces cut from a chain of equal blocks, with reference-counted rewinding. */
module MemPool {
  import opened Bytes

  const MAX_BLOCK_FAIL_TIME: nat := 4
  const PAGE_SIZE: nat := 4096
  const MIN_BLOCK_SIZE: nat := 128

  /** sizeof(MP_PIECE): the pointer to the block in front of the data. */
  const PIECE_HEADER: nat := 8

  class Block {
    var next: Block?
    /** Start of the free rest, counted from the end of the block's descriptor. */
    var startOfRest: nat
    var failedTime: nat
    var refCounter: int

    /** init_a_new_block */
    constructor ()
      ensures next == null && startOfRest == 0 && failedTime == 0 && refCounter == 0
    {
      next, startOfRest, failedTime, refCounter := null, 0, 0, 0;
    }
  }

  /** A piece handed out: its header at `start`, then `size` bytes of data. */
  datatype Piece = Piece(block: Block, start: nat, size: nat) {
    function End(): nat {
      start + PIECE_HEADER + size
    }
  }

  ghost predicate Apart(p: Piece, q: Piece) {
    p.block != q.block || p.End() <= q.start || q.End() <= p.start
  }

  ghost function LiveIn(live: set<Piece>, b: Block): set<Piece> {
    set p | p in live && p.block == b
  }

  ghost predicate AllApart(live: set<Piece>) {
    forall p, q :: p in live && q in live && p != q ==> Apart(p, q)
  }

  /** Live pieces lie below the free rest of their block. */
  ghost predicate Below(blocks: seq<Block>, live: set<Piece>)
    reads blocks`startOfRest
  {
    forall p :: p in live ==> p.block in blocks && p.End() <= p.block.startOfRest
  }

  ghost predicate Counted(blocks: seq<Block>, live: set<Piece>)
    reads blocks`refCounter
  {
    forall b :: b in blocks ==> b.refCounter == |LiveIn(live, b)|
  }

  ghost predicate Sound(blocks: seq<Block>, live: set<Piece>)
    reads blocks`startOfRest, blocks`refCounter
  {
    Below(blocks, live) && AllApart(live) && Counted(blocks, live)
  }

  lemma CutApart(blocks: seq<Block>, live: set<Piece>, p: Piece)
    requires Below(blocks, live) && AllApart(live) && p.start == p.block.startOfRest
    ensures p !in live && AllApart(live + {p})
  {
  }

  lemma LiveAdd(live: set<Piece>, p: Piece, b: Block)
    requires p !in live
    ensures |LiveIn(live + {p}, b)| == |LiveIn(live, b)| + if b == p.block then 1 else 0
  {
    assert LiveIn(live + {p}, b) == LiveIn(live, b) + if b == p.block then {p} else {};
  }

  lemma LiveDrop(live: set<Piece>, p: Piece, b: Block)
    requires p in live
    ensures |LiveIn(live - {p}, b)| == |LiveIn(live, b)| - if b == p.block then 1 else 0
  {
    assert live == (live - {p}) + {p};
    LiveAdd(live - {p}, p, b);
  }

  /** The chain of blocks, whose last one has never failed a request. */
  ghost predicate Chained(blocks: seq<Block>)
    reads blocks`next
  {
    && blocks != []
    && (forall i :: 0 <= i < |blocks| - 1 ==> blocks[i].next == blocks[i + 1])
    && blocks[|blocks| - 1].next == null
    && (forall i, j :: 0 <= i < j < |blocks| ==> blocks[i] != blocks[j])
  }

  ghost function Failures(blocks: seq<Block>): (f: seq<nat>)
    reads blocks`failedTime
    ensures |f| == |blocks| && forall i :: 0 <= i < |f| ==> f[i] == blocks[i].failedTime
  {
    if blocks == [] then [] else Failures(blocks[..|blocks| - 1]) + [blocks[|blocks| - 1].failedTime]
  }

  /** The failures of blocks k0 to k1 are counted; c follows the last of them that failed too often. */
  ghost predicate Searched(before: seq<nat>, after: seq<nat>, k0: nat, k1: nat, c: nat) {
    && |before| == |after| && k0 <= c <= k1 <= |after|
    && (forall i :: 0 <= i < |after| ==> after[i] == before[i] + if k0 <= i < k1 then 1 else 0)
    && (c > k0 ==> after[c - 1] >= MAX_BLOCK_FAIL_TIME)
    && (forall i :: c <= i < k1 ==> after[i] < MAX_BLOCK_FAIL_TIME)
  }

  lemma SearchStep(before: seq<nat>, after: seq<nat>, k0: nat, k1: nat, c: nat)
    requires Searched(before, after, k0, k1, c) && k1 < |after|
    ensures var f := after[k1 := after[k1] + 1];
      Searched(before, f, k0, k1 + 1, if f[k1] >= MAX_BLOCK_FAIL_TIME then k1 + 1 else c)
  {
  }

  lemma NextBlock(blocks: seq<Block>, i: nat)
    requires Chained(blocks) && i < |blocks|
    ensures blocks[i].next == if i + 1 == |blocks| then null else blocks[i + 1]
  {
  }

  lemma NotLast(blocks: seq<Block>, i: nat)
    requires Chained(blocks) && i < |blocks| - 1
    ensures blocks[i].next != null
  {
    assert blocks[i].next == blocks[i + 1];
  }

  /** The first k blocks are as good as new. */
  ghost predicate Rewound(blocks: seq<Block>, k: nat)
    reads blocks
  {
    k <= |blocks| && forall i :: 0 <= i < k ==>
      blocks[i].refCounter == 0 && blocks[i].startOfRest == 0 && blocks[i].failedTime == 0
  }

  lemma RewoundNone(blocks: seq<Block>)
    ensures Rewound(blocks, 0)
  {
  }

  lemma AllRewound(blocks: seq<Block>)
    requires Rewound(blocks, |blocks|)
    ensures Sound(blocks, {}) && forall b :: b in blocks ==> b.startOfRest == 0 && b.failedTime == 0
  {
    assert forall b :: b in blocks ==> LiveIn({}, b) == {};
  }

  class Pool {
    const blockSize: nat
    const autoClear: bool
    const firstBlock: Block
    var currentBlock: Block?
    ghost var blocks: seq<Block>
    ghost var live: set<Piece>

    /** The blocks and the live pieces, whatever the failures so far. */
    ghost predicate Kept()
      reads this`blocks, this`live, blocks`next, blocks`startOfRest, blocks`refCounter
    {
      Chained(blocks) && blocks[0] == firstBlock && Sound(blocks, live) && blockSize <= PAGE_SIZE
    }

    /** No block has given away more than it has. */
    ghost predicate Bounded()
      reads this`blocks, blocks`startOfRest
    {
      forall b :: b in blocks ==> b.startOfRest <= blockSize
    }

    /** What every operation keeps, even after a piece that sticks out of its block. */
    ghost predicate Intact()
      reads this, blocks
    {
      Kept() && blocks != [] && blocks[|blocks| - 1].failedTime == 0 && currentBlock in blocks
    }

    ghost predicate Valid()
      reads this, blocks
    {
      Intact() && Bounded()
    }

    /** rest_block_space, whose size_t difference wraps for a block that has given away too much. */
    function RestSpace(block: Block): (n: nat)
      reads block`startOfRest
    {
      WrapU64(blockSize - block.startOfRest)
    }

    lemma RestIs(block: Block)
      requires Kept()
      ensures block.startOfRest <= blockSize ==> RestSpace(block) == blockSize - block.startOfRest
    {
    }

    /**
     * A block that a piece sticks out of has no room at all, and yet it takes one piece after the other, until their
     * ends have gone once round the 64-bit address space.
     */
    lemma OverflowedTakesAll(block: Block, size: nat)
      requires Kept() && blockSize < block.startOfRest <= ULLONG_MAX
      ensures RestSpace(block) >= PIECE_HEADER + size
         <==> block.startOfRest + PIECE_HEADER + size <= ULLONG_MAX + 1 + blockSize
      ensures block.startOfRest <= ULLONG_MAX + 1 - PIECE_HEADER && size <= blockSize ==>
        RestSpace(block) >= PIECE_HEADER + size
    {
    }

    /** mp_create_pool, for a size that it accepts. */
    constructor (size: nat, autoClear: bool)
      requires size >= MIN_BLOCK_SIZE
      ensures Valid() && live == {} && fresh(blocks) && this.autoClear == autoClear
      ensures blockSize == if size < 4096 then size else 4096
    {
      blockSize := if size < PAGE_SIZE then size else PAGE_SIZE;
      this.autoClear := autoClear;
      var b := new Block();
      firstBlock, currentBlock, blocks, live := b, b, [b], {};
      new;
      assert LiveIn({}, firstBlock) == {};
    }

    lemma KeptChained()
      requires Kept()
      ensures Chained(blocks)
    {
    }

    /** malloc_a_block: a new block at the end of the chain. */
    method MallocBlock() returns (newblock: Block)
      requires Chained(blocks) && currentBlock in blocks
      modifies `blocks, blocks`next
      ensures fresh(newblock) && blocks == old(blocks) + [newblock] && Chained(blocks)
      ensures newblock.startOfRest == 0 && newblock.failedTime == 0 && newblock.refCounter == 0
    {
      newblock := new Block();
      var block := currentBlock;
      ghost var i :| 0 <= i < |blocks| && blocks[i] == block;
      while block.next != null
        invariant blocks == old(blocks) && Chained(blocks) && 0 <= i < |blocks| && block == blocks[i]
        decreases |blocks| - i
      {
        block, i := block.next, i + 1;
      }
      if i < |blocks| - 1 {
        NotLast(blocks, i);
      }
      block.next := newblock;
      blocks := blocks + [newblock];
    }

    /** Takes a piece from the rest of a block. */
    method Cut(block: Block, size: nat) returns (p: Piece)
      requires block in blocks && Sound(blocks, live)
      modifies `live, block`startOfRest, block`refCounter
      ensures p == Piece(block, old(block.startOfRest), size) && p !in old(live) && live == old(live) + {p}
      ensures Sound(blocks, live) && block.startOfRest == p.End()
    {
      hide LiveIn, Apart;
      p := Piece(block, block.startOfRest, size);
      CutApart(blocks, live, p);
      forall b | b in blocks
        ensures |LiveIn(live + {p}, b)| == |LiveIn(live, b)| + if b == block then 1 else 0
      {
        LiveAdd(live, p, b);
      }
      block.startOfRest := block.startOfRest + PIECE_HEADER + size;
      block.refCounter := block.refCounter + 1;
      live := live + {p};
    }

    /** No block in a stretch of the chain has room. */
    ghost predicate Full(lo: nat, hi: nat, realSize: nat)
      reads this`blocks, blocks`startOfRest
    {
      lo <= hi <= |blocks| && forall i :: lo <= i < hi ==> RestSpace(blocks[i]) < realSize
    }

    lemma FullStep(lo: nat, hi: nat, realSize: nat, block: Block)
      requires Full(lo, hi, realSize) && hi < |blocks| && block == blocks[hi] && RestSpace(block) < realSize
      ensures Full(lo, hi + 1, realSize)
    {
      hide RestSpace;
    }

    lemma NotBehind(before: seq<nat>, k0: nat, k1: nat, c: nat, block: Block, realSize: nat)
      requires Searching(before, k0, k1, c, block, realSize)
      ensures k1 < |blocks| && block == blocks[k1]
    {
    }

    lemma Distinct(k: nat)
      requires Chained(blocks) && k < |blocks|
      ensures forall i :: 0 <= i < |blocks| && i != k ==> blocks[i] != blocks[k]
    {
    }

    /** A block without room: its failure is counted, and it may stop being the current one. */
    method Fail(block: Block, ghost k: nat)
      requires Chained(blocks) && currentBlock in blocks
      requires k < |blocks| && block == blocks[k] && (k == |blocks| - 1 ==> block.failedTime == 0)
      modifies `currentBlock, block`failedTime
      ensures Failures(blocks) == old(Failures(blocks))[k := old(Failures(blocks))[k] + 1]
      ensures currentBlock in blocks
      ensures currentBlock
        == if Failures(blocks)[k] >= 4 then block.next else old(currentBlock)
    {
      hide Failures, Chained;
      Distinct(k);
      NextBlock(blocks, k);
      block.failedTime := block.failedTime + 1;
      if block.failedTime >= MAX_BLOCK_FAIL_TIME {
        currentBlock := block.next;
      }
    }

    /**
     * The search of malloc_a_piece so far: begun at block k0, now at block k1 (null behind the last); the blocks
     * between have no room and their failures are counted; the current block is block c.
     */
    ghost predicate Searching(before: seq<nat>, k0: nat, k1: nat, c: nat, block: Block?, realSize: nat)
      reads this, blocks`failedTime, blocks`startOfRest
    {
      && Full(k0, k1, realSize)
      && block == (if k1 == |blocks| then null else blocks[k1])
      && Searched(before, Failures(blocks), k0, k1, c)
      && c < |blocks| && currentBlock == blocks[c]
      && (k1 < |blocks| ==> blocks[|blocks| - 1].failedTime == 0)
    }

    /** The search passes a block that has no room. */
    method Pass(block: Block, realSize: nat, ghost before: seq<nat>, ghost k0: nat, ghost k1: nat, ghost c: nat)
      returns (next: Block?, ghost c': nat)
      requires Kept() && Searching(before, k0, k1, c, block, realSize)
      requires RestSpace(block) < realSize
      modifies `currentBlock, blocks`failedTime
      ensures Kept() && Searching(before, k0, k1 + 1, c', next, realSize)
    {
      hide Kept, Chained, Failures, Searched, Full, RestSpace;
      KeptChained();
      NotBehind(before, k0, k1, c, block, realSize);
      FullStep(k0, k1, realSize, block);
      ghost var f := Failures(blocks);
      SearchStep(before, f, k0, k1, c);
      NextBlock(blocks, k1);
      Fail(block, k1);
      c' := if Failures(blocks)[k1] >= MAX_BLOCK_FAIL_TIME then k1 + 1 else c;
      next := block.next;
      assert Failures(blocks)[|blocks| - 1] == blocks[|blocks| - 1].failedTime;
    }

    /**
     * Where a request is served: the search begins at the current block, which is block k0 of the chain, passes the
     * blocks without room, and ends at block k1; if that is behind the last one, the block is a new one.
     */
    twostate predicate FirstFit(size: nat, new block: Block, k0: nat, k1: nat)
      reads this`blocks
    {
      && k0 < |old(blocks)| && old(currentBlock) == old(blocks)[k0] && k0 <= k1 <= |old(blocks)|
      && (forall i :: k0 <= i < k1 ==> old(RestSpace(blocks[i])) < size + PIECE_HEADER)
      && if k1 < |old(blocks)| then
           blocks == old(blocks) && block == blocks[k1] && old(RestSpace(blocks[k1])) >= size + PIECE_HEADER
         else
           blocks == old(blocks) + [block] && fresh(block)
    }

    /**
     * What that search leaves behind: each block it passed has failed once more, and the current block is the one
     * behind the last of them that has failed too often, if there is such a one.
     */
    ghost predicate Blamed(was: seq<Block>, before: seq<nat>, k0: nat, k1: nat, c: nat)
      reads this`currentBlock, was`failedTime
    {
      Searched(before, Failures(was), k0, k1, c) && c < |was| && currentBlock == was[c]
    }

    /** The search in malloc_a_piece: the first block with room, from the current one on, or null. */
    method FindBlock(realSize: nat) returns (block: Block?, ghost k0: nat, ghost k1: nat, ghost c: nat)
      requires Intact()
      modifies `currentBlock, blocks`failedTime
      ensures k0 < |blocks| && old(currentBlock) == blocks[k0] && currentBlock in blocks
      ensures Searching(old(Failures(blocks)), k0, k1, c, block, realSize)
      ensures block != null ==> Intact() && block in blocks && RestSpace(block) >= realSize
      ensures k0 <= k1 <= |blocks| && block == if k1 == |blocks| then null else blocks[k1]
      ensures forall i :: k0 <= i < k1 ==> RestSpace(blocks[i]) < realSize
      ensures Kept() && Blamed(old(blocks), old(Failures(blocks)), k0, k1, c)
    {
      hide Kept, Searched, Failures, Searching, Full, RestSpace, Blamed;
      block := currentBlock;
      ghost var before := Failures(blocks);
      k0 := SearchBegins(before, realSize);
      k1, c := k0, k0;
      while block != null
        invariant Kept() && Searching(before, k0, k1, c, block, realSize)
        decreases |blocks| - k1
      {
        SearchAt(before, k0, k1, c, block, realSize);
        if RestSpace(block) >= realSize {
          return;
        }
        block, c := Pass(block, realSize, before, k0, k1, c);
        k1 := k1 + 1;
      }
      SearchAt(before, k0, k1, c, block, realSize);
    }

    lemma SearchBegins(before: seq<nat>, realSize: nat) returns (k: nat)
      requires Intact() && before == Failures(blocks)
      ensures k < |blocks| && currentBlock == blocks[k] && Searching(before, k, k, k, currentBlock, realSize)
    {
      k :| 0 <= k < |blocks| && blocks[k] == currentBlock;
    }

    lemma SearchAt(before: seq<nat>, k0: nat, k1: nat, c: nat, block: Block?, realSize: nat)
      requires Kept() && Searching(before, k0, k1, c, block, realSize)
      ensures currentBlock in blocks
      ensures block != null ==> k1 < |blocks| && block == blocks[k1] && Intact()
      ensures k0 <= k1 <= |blocks| && block == if k1 == |blocks| then null else blocks[k1]
      ensures forall i :: k0 <= i < k1 ==> RestSpace(blocks[i]) < realSize
      ensures Blamed(blocks, before, k0, k1, c)
    {
    }

    /** The first half of malloc_a_piece: a block with room, or a new one. */
    method TakeBlock(size: nat) returns (block: Block)
      requires Intact()
      modifies this, blocks
      ensures Intact() && live == old(live) && block in blocks && (old(Bounded()) ==> Bounded())
      ensures old(Bounded()) ==>
        (block.startOfRest + PIECE_HEADER + size <= blockSize <==> PIECE_HEADER + size <= blockSize)
      ensures old(blocks) <= blocks && fresh(set b | b in blocks && b !in old(blocks))
      ensures exists k0: nat, k1: nat, c: nat ::
        FirstFit(size, block, k0, k1) && Blamed(old(blocks), old(Failures(blocks)), k0, k1, c)
      ensures block.startOfRest == if block in old(blocks) then old(block.startOfRest) else 0
    {
      hide Sound, Chained, Searching, Full, RestSpace, Searched, Failures;
      var found; ghost var k0, k1, c;
      found, k0, k1, c := FindBlock(size + PIECE_HEADER);
      if found == null {
        ghost var was := blocks;
        block := MallocBlock();
        NewBlock(was, live, block);
      } else {
        block := found;
        RestIs(block);
      }
      assert FirstFit(size, block, k0, k1) && Blamed(old(blocks), old(Failures(blocks)), k0, k1, c);
    }

    /**
     * malloc_a_piece. In a valid pool the piece lies inside its block exactly when the request leaves room for the
     * header; a larger one gets a new block and sticks out of it.
     */
    method MallocPiece(size: nat) returns (p: Piece)
      requires Intact()
      modifies this, blocks
      ensures Intact() && (old(Bounded()) && size + PIECE_HEADER <= blockSize ==> Bounded())
      ensures old(Bounded()) ==> (p.End() <= blockSize <==> size + PIECE_HEADER <= blockSize)
      ensures p !in old(live) && live == old(live) + {p} && p.size == size && p.block in blocks
      ensures old(blocks) <= blocks && fresh(set b | b in blocks && b !in old(blocks))
      ensures exists k0: nat, k1: nat, c: nat ::
        FirstFit(size, p.block, k0, k1) && Blamed(old(blocks), old(Failures(blocks)), k0, k1, c)
      ensures p.start == if p.block in old(blocks) then old(p.block.startOfRest) else 0
    {
      hide Sound, Chained, RestSpace, Searched, Failures, FirstFit, Blamed;
      var block := TakeBlock(size);
      ghost var k0: nat, k1: nat, c: nat :|
        FirstFit(size, block, k0, k1) && Blamed(old(blocks), old(Failures(blocks)), k0, k1, c);
      p := Cut(block, size);
      assert FirstFit(size, p.block, k0, k1) && Blamed(old(blocks), old(Failures(blocks)), k0, k1, c);
    }

    lemma NewBlock(was: seq<Block>, live: set<Piece>, b: Block)
      requires Sound(was, live) && b !in was && b.startOfRest == 0 && b.refCounter == 0
      ensures Sound(was + [b], live)
    {
      assert LiveIn(live, b) == {};
    }

    /** mp_malloc, for requests that do not need a bucket. */
    method Malloc(size: nat) returns (p: Option<Piece>)
      requires Intact() && size <= blockSize
      modifies this, blocks
      ensures Intact() && (old(Bounded()) && size + PIECE_HEADER <= blockSize ==> Bounded())
      ensures p == None <==> size == 0
      ensures p == None ==> live == old(live) && blocks == old(blocks)
      ensures p != None ==> p.value !in old(live) && live == old(live) + {p.value} && p.value.size == size
      ensures p != None && old(Bounded()) ==> (p.value.End() <= blockSize <==> size + PIECE_HEADER <= blockSize)
      ensures fresh(set b | b in blocks && b !in old(blocks))
      ensures p != None ==> exists k0: nat, k1: nat, c: nat ::
        FirstFit(size, p.value.block, k0, k1) && Blamed(old(blocks), old(Failures(blocks)), k0, k1, c)
      ensures p != None ==> p.value.start == if p.value.block in old(blocks) then old(p.value.block.startOfRest) else 0
      ensures p != None && old(currentBlock.startOfRest) + 8 + size <= blockSize ==>
        blocks == old(blocks) && p.value == Piece(old(currentBlock), old(currentBlock.startOfRest), size)
    {
      hide Sound, Chained, RestSpace, Searched, Failures;
      if size == 0 {
        return None;
      }
      RestIs(currentBlock);
      ghost var room := RestSpace(currentBlock);
      var piece := MallocPiece(size);
      p := Some(piece);
      ghost var k0: nat, k1: nat, c: nat :|
        FirstFit(size, piece.block, k0, k1) && Blamed(old(blocks), old(Failures(blocks)), k0, k1, c);
      assert k0 < k1 ==> room < size + PIECE_HEADER;
    }

    /** mp_free, of a live piece. */
    method Free(p: Piece)
      requires Intact() && p in live
      modifies this, p.block
      ensures Intact() && (old(Bounded()) ==> Bounded()) && live == old(live) - {p} && blocks == old(blocks)
      ensures p.block.startOfRest == if autoClear && LiveIn(live, p.block) == {} then 0 else old(p.block.startOfRest)
      ensures currentBlock == if autoClear && LiveIn(live, p.block) == {} then firstBlock else old(currentBlock)
    {
      hide Apart, LiveIn;
      forall b | b in blocks
        ensures |LiveIn(live - {p}, b)| == |LiveIn(live, b)| - if b == p.block then 1 else 0
      {
        LiveDrop(live, p, b);
      }
      p.block.refCounter := p.block.refCounter - 1;
      live := live - {p};
      if autoClear {
        ClearBlock(p.block);
      }
    }

    /** clear_block: only a block without live pieces is rewound. */
    method ClearBlock(block: Block)
      requires Intact() && block in blocks
      modifies `currentBlock, block
      ensures Intact() && (old(Bounded()) ==> Bounded())
      ensures block.startOfRest == if LiveIn(live, block) == {} then 0 else old(block.startOfRest)
      ensures block.failedTime == if LiveIn(live, block) == {} then 0 else old(block.failedTime)
      ensures currentBlock == if LiveIn(live, block) == {} then firstBlock else old(currentBlock)
    {
      if block.refCounter > 0 {
        return;
      }
      assert LiveIn(live, block) == {};
      assert forall p :: p in live && p.block == block ==> p in LiveIn(live, block);
      block.refCounter := 0;
      block.failedTime := 0;
      block.startOfRest := 0;
      currentBlock := firstBlock;
    }

    /** mp_reset_pool: every piece is given up and every block rewound. */
    method Reset()
      requires Intact()
      modifies this, blocks
      ensures Valid() && live == {} && blocks == old(blocks)
      ensures currentBlock == firstBlock && forall b :: b in blocks ==> b.startOfRest == 0 && b.failedTime == 0
    {
      hide Sound, Chained, Rewound;
      KeptChained();
      var block: Block? := firstBlock;
      ghost var k := 0;
      live := {};
      RewoundNone(blocks);
      while block != null
        invariant 0 <= k <= |blocks| && block == if k == |blocks| then null else blocks[k]
        invariant blocks == old(blocks) && live == {} && Chained(blocks) && blocks != [] && blocks[0] == firstBlock
        invariant Rewound(blocks, k)
        decreases |blocks| - k
      {
        NextBlock(blocks, k);
        Rewind(block, k);
        block, k := block.next, k + 1;
      }
      currentBlock := firstBlock;
      AllRewound(blocks);
    }

    method Rewind(block: Block, ghost k: nat)
      requires Rewound(blocks, k) && k < |blocks| && blocks[k] == block
      modifies block`refCounter, block`failedTime, block`startOfRest
      ensures Rewound(blocks, k + 1)
    {
      block.refCounter := 0;
      block.failedTime := 0;
      block.startOfRest := 0;
    }

  }

  /** A request for a whole block is served with a piece that sticks out of it. */
  method OversizedPiece() returns (pool: Pool, p: Piece)
    ensures pool.Intact() && pool.blockSize == 128 && p in pool.live && p.size == 128
    ensures p.End() > pool.blockSize && !pool.Bounded()
  {
    pool := new Pool(128, true);
    var r := pool.Malloc(128);
    p := r.value;
    assert p.block in pool.blocks && p.End() <= p.block.startOfRest;
  }

  // ---------------------------------------------------------------- runs

  /** A request: a piece, the release of a piece held, or the release of all. */
  datatype Request = Alloc(size: nat) | Release(i: nat) | Clear

  /** The pieces held are the live ones, each once. */
  ghost predicate Holds(held: seq<Piece>, live: set<Piece>) {
    live == (set p | p in held) && forall i, j :: 0 <= i < j < |held| ==> held[i] != held[j]
  }

  /** The promise of the pool: live pieces apart, each block counting its own. */
  ghost predicate Safe(pool: Pool)
    reads pool, pool.blocks
  {
    && AllApart(pool.live)
    && (forall p :: p in pool.live ==> p.block in pool.blocks)
    && (forall b :: b in pool.blocks ==> b.refCounter == |LiveIn(pool.live, b)|)
  }

  /** Live pieces inside their blocks. */
  ghost predicate Inside(pool: Pool)
    reads pool, pool.blocks
  {
    forall p :: p in pool.live ==> p.End() <= pool.blockSize
  }

  lemma IntactIsSafe(pool: Pool)
    requires pool.Intact()
    ensures Safe(pool) && (pool.Bounded() ==> Inside(pool))
  {
  }

  ghost function Sizes(held: seq<Piece>): (s: seq<nat>)
    ensures |s| == |held| && forall i :: 0 <= i < |s| ==> s[i] == held[i].size
  {
    seq(|held|, i requires 0 <= i < |held| => held[i].size)
  }

  /** The sizes held after a request: a request for nothing yields nothing, a piece not held is not released. */
  ghost function Served(sizes: seq<nat>, r: Request): seq<nat> {
    match r
    case Alloc(size) => if size == 0 then sizes else sizes + [size]
    case Release(i) => if i < |sizes| then sizes[..i] + sizes[i + 1..] else sizes
    case Clear => []
  }

  ghost function AllServed(sizes: seq<nat>, requests: seq<Request>): seq<nat>
    decreases |requests|
  {
    if requests == [] then sizes else AllServed(Served(sizes, requests[0]), requests[1..])
  }

  /**
   * At every place of a run: an allocation of something adds one piece of exactly that size at the end, a release takes
   * out the piece it names and no other, a reset leaves nothing.
   */
  lemma {:induction false} ServedAt(sizes: seq<nat>, requests: seq<Request>, k: nat)
    requires k < |requests|
    ensures var before, after := AllServed(sizes, requests[..k]), AllServed(sizes, requests[..k + 1]);
      match requests[k]
      case Alloc(size) => after == before + if size == 0 then [] else [size]
      case Release(i) => if i < |before| then after == before[..i] + before[i + 1..] else after == before
      case Clear => after == []
    ensures AllServed(sizes, []) == sizes && AllServed(sizes, requests[..|requests|]) == AllServed(sizes, requests)
    decreases |requests|
  {
    assert requests[..|requests|] == requests;
    if k == 0 {
      assert requests[..k] == [] && requests[..k + 1] == [requests[0]];
    } else {
      ServedAt(Served(sizes, requests[0]), requests[1..], k - 1);
      assert requests[..k][1..] == requests[1..][..k - 1] && requests[..k + 1][1..] == requests[1..][..k];
    }
  }

  /** A request that leaves room for the header of its piece. */
  predicate Fits(r: Request, blockSize: nat) {
    r.Alloc? ==> r.size + PIECE_HEADER <= blockSize
  }

  lemma HoldOneMore(held: seq<Piece>, live: set<Piece>, p: Piece)
    requires Holds(held, live) && p !in live
    ensures Holds(held + [p], live + {p}) && Sizes(held + [p]) == Sizes(held) + [p.size]
  {
    assert p !in held;
  }

  lemma HoldOneLess(held: seq<Piece>, live: set<Piece>, i: nat)
    requires Holds(held, live) && i < |held|
    ensures var rest := held[..i] + held[i + 1..];
      && held[i] in live && Holds(rest, live - {held[i]})
      && Sizes(rest) == Sizes(held)[..i] + Sizes(held)[i + 1..]
  {
    var rest := held[..i] + held[i + 1..];
    forall p
      ensures p in rest <==> p in held && p != held[i]
    {
      if p in held && p != held[i] {
        var j :| 0 <= j < |held| && held[j] == p;
        assert rest[if j < i then j else j - 1] == p;
      }
      if p in rest {
        var j :| 0 <= j < |rest| && rest[j] == p;
        assert held[if j < i then j else j + 1] == p;
      }
    }
  }

  lemma HoldNothing()
    ensures Holds([], {}) && Sizes([]) == []
  {
  }

  method Serve(pool: Pool, r: Request, held: seq<Piece>) returns (held': seq<Piece>)
    requires pool.Intact() && Holds(held, pool.live)
    requires r.Alloc? ==> r.size <= pool.blockSize
    modifies pool, pool.blocks
    ensures pool.Intact() && (old(pool.Bounded()) && Fits(r, pool.blockSize) ==> pool.Bounded())
    ensures Holds(held', pool.live) && Sizes(held') == Served(Sizes(held), r)
    ensures forall i :: 0 <= i < |pool.blocks| ==> pool.blocks[i] in old(pool.blocks) || fresh(pool.blocks[i])
  {
    hide Pool.Kept, Chained, Holds, Sizes;
    held' := held;
    match r
    case Alloc(size) =>
      var p := pool.Malloc(size);
      if p != None {
        HoldOneMore(held, old(pool.live), p.value);
        held' := held + [p.value];
      }
    case Release(i) =>
      if i < |held| {
        IntactIsSafe(pool);
        HoldOneLess(held, pool.live, i);
        pool.Free(held[i]);
        held' := held[..i] + held[i + 1..];
      }
    case Clear =>
      pool.Reset();
      HoldNothing();
      held' := [];
  }

  /**
   * Any run of requests for at most a block, of releases of pieces held and of resets. Every request is served, live
   * pieces never overlap and every block counts its own; they lie inside their blocks as long as the requests fit.
   */
  method Run(pool: Pool, requests: seq<Request>, held: seq<Piece>) returns (held': seq<Piece>)
    requires pool.Intact() && Holds(held, pool.live)
    requires forall r :: r in requests && r.Alloc? ==> r.size <= pool.blockSize
    modifies pool, pool.blocks
    ensures pool.Intact() && Safe(pool) && Holds(held', pool.live)
    ensures Sizes(held') == AllServed(Sizes(held), requests)
    ensures old(pool.Bounded()) && (forall r :: r in requests ==> Fits(r, pool.blockSize)) ==>
      pool.Bounded() && Inside(pool)
    decreases |requests|
  {
    hide Pool.Intact, Pool.Bounded, Holds, Safe, Sizes, Served, Inside, Fits;
    held' := held;
    if requests == [] {
      IntactIsSafe(pool);
    } else {
      held' := Serve(pool, requests[0], held');
      held' := Run(pool, requests[1..], held');
      IntactIsSafe(pool);
    }
  }
}
