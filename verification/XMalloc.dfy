// The debug allocator of slp_xmalloc.c: a list of blocks, and a count of the bytes allocated.
module XMalloc {
  import opened Bytes
  import opened LinkedList

  const NULL: nat := 0

  /** A block on the list: the address the caller got, and the size. */
  datatype Block = Block(buf: nat, size: nat)

  function Sum(blocks: seq<Block>): nat {
    if blocks == [] then 0 else Sum(blocks[..|blocks| - 1]) + blocks[|blocks| - 1].size
  }

  /** _xmalloc_find: the first block at the address, or the number of blocks. */
  function Find(blocks: seq<Block>, ptr: nat): (k: nat)
    ensures k <= |blocks| && (k < |blocks| ==> blocks[k].buf == ptr)
    ensures forall i :: 0 <= i < k ==> blocks[i].buf != ptr
  {
    if blocks == [] || blocks[0].buf == ptr then 0 else 1 + Find(blocks[1..], ptr)
  }

  // ----- The allocator as a function -----

  /** G_xmalloc_list and G_xmalloc_allocmem. */
  datatype Heap = Heap(blocks: seq<Block>, allocmem: nat)

  /**
   * What malloc() can answer: nothing, or an address that is not NULL and not in use, for a block that fits the
   * address space beside the others.
   */
  predicate CanGet(blocks: seq<Block>, size: nat, got: Option<nat>) {
    got.Some? ==> got.value != NULL && Find(blocks, got.value) == |blocks| && Sum(blocks) + size < SIZES
  }

  /** slp_xmalloc with the limit `freemem` and malloc()'s answer; the second part is the result. */
  function Allocate(h: Heap, freemem: nat, size: nat, got: Option<nat>): (Heap, nat) {
    if size == 0 then (h, NULL)
    else if freemem != 0 && (h.allocmem + size) % SIZES > freemem then (h, NULL)
    else match got
         case None => (h, NULL)
         case Some(buf) => (Heap(h.blocks + [Block(buf, size)], (h.allocmem + size) % SIZES), buf)
  }

  /** slp_xfree. */
  function Free(h: Heap, ptr: nat): Heap {
    var k := Find(h.blocks, ptr);
    if k == |h.blocks| then h else Heap(Without(h.blocks, k), (h.allocmem - h.blocks[k].size) % SIZES)
  }

  /** slp_xrealloc: the old block is gone also when there is no new one. */
  function Reallocate(h: Heap, freemem: nat, ptr: nat, size: nat, got: Option<nat>): (Heap, nat) {
    var k := Find(h.blocks, ptr);
    if ptr == NULL then Allocate(h, freemem, size, got)
    else if size == 0 then (Free(h, ptr), NULL)
    else if k == |h.blocks| then (h, NULL)
    else if h.blocks[k].size == size then (h, ptr)
    else
      var (h', newptr) := Allocate(h, freemem, size, got);
      (Free(h', ptr), newptr)
  }

  /** How many bytes slp_xrealloc copies to a new block: as many as the old one has. */
  function Copied(h: Heap, freemem: nat, ptr: nat, size: nat, got: Option<nat>): nat {
    var k := Find(h.blocks, ptr);
    if ptr == NULL || size == 0 || k == |h.blocks| || h.blocks[k].size == size then 0
    else if Allocate(h, freemem, size, got).1 == NULL then 0
    else h.blocks[k].size
  }

  datatype Op = Malloc(size: nat, got: Option<nat>) | Realloc(ptr: nat, size: nat, got: Option<nat>) | Release(ptr: nat)

  predicate Possible(h: Heap, op: Op) {
    op.Release? || CanGet(h.blocks, op.size, op.got)
  }

  function Step(h: Heap, freemem: nat, op: Op): Heap {
    match op
    case Malloc(size, got) => Allocate(h, freemem, size, got).0
    case Realloc(ptr, size, got) => Reallocate(h, freemem, ptr, size, got).0
    case Release(ptr) => Free(h, ptr)
  }

  /** The heap after a run from an empty list with a zero counter. */
  function Run(freemem: nat, ops: seq<Op>): Heap {
    if ops == [] then Heap([], 0) else Step(Run(freemem, ops[..|ops| - 1]), freemem, ops[|ops| - 1])
  }

  /** In each step of the run malloc() answers what it can. */
  predicate PossibleRun(freemem: nat, ops: seq<Op>) {
    ops == [] || (PossibleRun(freemem, ops[..|ops| - 1]) && Possible(Run(freemem, ops[..|ops| - 1]), ops[|ops| - 1]))
  }

  // ----- Conservation -----

  ghost predicate Conserved(h: Heap, freemem: nat) {
    && h.allocmem == Sum(h.blocks) < SIZES
    && (forall i, j :: 0 <= i < j < |h.blocks| ==> h.blocks[i].buf != h.blocks[j].buf)
    && (freemem != 0 ==> h.allocmem <= freemem)
  }

  lemma SumAppend(blocks: seq<Block>, b: Block)
    ensures Sum(blocks + [b]) == Sum(blocks) + b.size
  {
    assert (blocks + [b])[..|blocks|] == blocks;
  }

  lemma {:induction false} SumWithout(blocks: seq<Block>, k: nat)
    requires k < |blocks|
    ensures Sum(Without(blocks, k)) + blocks[k].size == Sum(blocks)
  {
    var rest, last := Without(blocks, k), |blocks| - 1;
    if k == last {
      assert rest == blocks[..last];
    } else {
      assert rest[..last - 1] == Without(blocks[..last], k);
      SumWithout(blocks[..last], k);
    }
  }

  lemma AllocateConserves(h: Heap, freemem: nat, size: nat, got: Option<nat>)
    requires Conserved(h, freemem) && CanGet(h.blocks, size, got)
    ensures Conserved(Allocate(h, freemem, size, got).0, freemem)
  {
    if got.Some? { SumAppend(h.blocks, Block(got.value, size)); }
  }

  lemma FreeConserves(h: Heap, freemem: nat, ptr: nat)
    requires Conserved(h, freemem)
    ensures Conserved(Free(h, ptr), freemem)
  {
    hide Find, Sum, Without;
    var k := Find(h.blocks, ptr);
    if k < |h.blocks| {
      SumWithout(h.blocks, k);
      WithoutAt(h.blocks, k);
    }
  }

  lemma StepConserves(h: Heap, freemem: nat, op: Op)
    requires Conserved(h, freemem) && Possible(h, op)
    ensures Conserved(Step(h, freemem, op), freemem)
  {
    hide Conserved, Allocate, Free;
    match op
    case Malloc(size, got) => AllocateConserves(h, freemem, size, got);
    case Realloc(ptr, size, got) =>
      AllocateConserves(h, freemem, size, got);
      FreeConserves(h, freemem, ptr);
      FreeConserves(Allocate(h, freemem, size, got).0, freemem, ptr);
    case Release(ptr) => FreeConserves(h, freemem, ptr);
  }

  /**
   * Main result, over every run: the counter is the sum of the sizes of the blocks on the list, their addresses
   * are distinct, and the sum keeps to the limit if there is one.
   */
  lemma {:induction false} RunConserves(freemem: nat, ops: seq<Op>)
    requires PossibleRun(freemem, ops)
    ensures var h := Run(freemem, ops);
            && h.allocmem == Sum(h.blocks)
            && (forall i, j :: 0 <= i < j < |h.blocks| ==> h.blocks[i].buf != h.blocks[j].buf)
            && (freemem != 0 ==> Sum(h.blocks) <= freemem)
            && Conserved(h, freemem)
  {
    if ops != [] {
      RunConserves(freemem, ops[..|ops| - 1]);
      StepConserves(Run(freemem, ops[..|ops| - 1]), freemem, ops[|ops| - 1]);
    }
  }

  lemma FindIs(blocks: seq<Block>, ptr: nat, k: nat)
    requires k <= |blocks| && (k < |blocks| ==> blocks[k].buf == ptr) && forall i :: 0 <= i < k ==> blocks[i].buf != ptr
    ensures Find(blocks, ptr) == k
  {
  }

  lemma FindAfterFree(h: Heap, freemem: nat, ptr: nat, other: nat)
    requires Conserved(h, freemem)
    ensures Find(Free(h, ptr).blocks, ptr) == |Free(h, ptr).blocks|
    ensures var k, f, g := Find(h.blocks, other), Find(Free(h, ptr).blocks, other), Free(h, ptr).blocks;
            other != ptr ==> if k < |h.blocks| then f < |g| && g[f] == h.blocks[k] else f == |g|
  {
    hide Find, Sum;
    var k, blocks := Find(h.blocks, ptr), h.blocks;
    if k < |blocks| {
      var rest := Without(blocks, k);
      assert forall i :: 0 <= i < |rest| ==> rest[i] == blocks[if i < k then i else i + 1];
      FindIs(rest, ptr, |rest|);
      var f := Find(blocks, other);
      if other != ptr { FindIs(rest, other, if f > k then f - 1 else f); }
    }
  }

  lemma FindAfterAllocate(h: Heap, freemem: nat, size: nat, got: Option<nat>, ptr: nat)
    requires CanGet(h.blocks, size, got)
    ensures var (h', newptr) := Allocate(h, freemem, size, got); var k := Find(h'.blocks, newptr);
            && (newptr != NULL ==> k < |h'.blocks| && h'.blocks[k].size == size)
            && (Find(h.blocks, ptr) < |h.blocks| ==> newptr != ptr || ptr == NULL)
  {
    if got.Some? { FindIs(h.blocks + [Block(got.value, size)], got.value, |h.blocks|); }
  }

  lemma AllocateFails(h: Heap, freemem: nat, size: nat, got: Option<nat>)
    requires size != 0 && CanGet(h.blocks, size, got)
    ensures Allocate(h, freemem, size, got).1 == NULL <==>
      got.None? || (freemem != 0 && (h.allocmem + size) % SIZES > freemem)
  {
    hide Find, Sum;
  }

  /**
   * A reallocation to another size always gives up the old block; what it returns is NULL or the address of a
   * block of the new size. It is NULL with the old block gone exactly when another size is asked for and either
   * malloc() has nothing or the limit is exceeded.
   */
  lemma ReallocGivesUpOld(h: Heap, freemem: nat, ptr: nat, size: nat, got: Option<nat>)
    requires Conserved(h, freemem) && CanGet(h.blocks, size, got)
             && ptr != NULL && size != 0 && Find(h.blocks, ptr) < |h.blocks|
    ensures var (h', newptr) := Reallocate(h, freemem, ptr, size, got);
            && (newptr == ptr <==> h.blocks[Find(h.blocks, ptr)].size == size)
            && (newptr != ptr ==> Find(h'.blocks, ptr) == |h'.blocks|)
            && (newptr != NULL ==> var k := Find(h'.blocks, newptr); k < |h'.blocks| && h'.blocks[k].size == size)
            && (newptr == NULL && Find(h'.blocks, ptr) == |h'.blocks| <==>
                  && h.blocks[Find(h.blocks, ptr)].size != size
                  && (got.None? || (freemem != 0 && (h.allocmem + size) % SIZES > freemem)))
  {
    hide Find, Sum, Conserved, Allocate, Free;
    var (h1, newptr) := Allocate(h, freemem, size, got);
    AllocateFails(h, freemem, size, got);
    AllocateConserves(h, freemem, size, got);
    FindAfterAllocate(h, freemem, size, got, ptr);
    FindAfterFree(h1, freemem, ptr, newptr);
  }

  /** What is copied to a block of another size fits it if and only if the block has not become smaller. */
  lemma CopyFits(h: Heap, freemem: nat, ptr: nat, size: nat, got: Option<nat>)
    requires Conserved(h, freemem) && CanGet(h.blocks, size, got)
             && ptr != NULL && size != 0 && Find(h.blocks, ptr) < |h.blocks|
    ensures var (h', newptr) := Reallocate(h, freemem, ptr, size, got);
            newptr != NULL ==>
              var k, n := Find(h.blocks, ptr), Find(h'.blocks, newptr);
              n < |h'.blocks| &&
              (Copied(h, freemem, ptr, size, got) <= h'.blocks[n].size <==> h.blocks[k].size <= size)
  {
    hide Find, Sum, Conserved, Allocate, Free;
    ReallocGivesUpOld(h, freemem, ptr, size, got);
  }

  /** A failing input: when malloc() has nothing for a larger block, the old one is gone as well. */
  lemma BlockLost()
    ensures var h := Heap([Block(16, 4)], 4); Conserved(h, 0) && Reallocate(h, 0, 16, 8, None) == (Heap([], 0), NULL)
  {
    assert Sum([]) == 0;
    SumAppend([], Block(16, 4));
    assert [] + [Block(16, 4)] == [Block(16, 4)];
    assert Without([Block(16, 4)], 0) == [];
  }

  // ----- What the callers see -----

  /** The size of the block at an address, if there is one. */
  function SizeAt(h: Heap, p: nat): Option<nat> {
    var k := Find(h.blocks, p);
    if k < |h.blocks| then Some(h.blocks[k].size) else None
  }

  /** Is there a new block? */
  predicate Granted(h: Heap, freemem: nat, size: nat, got: Option<nat>) {
    size != 0 && got.Some? && (freemem == 0 || Sum(h.blocks) + size <= freemem)
  }

  /** Main result: an allocation gives a block of its size, or nothing; every other block stays. */
  lemma MallocLaw(h: Heap, freemem: nat, size: nat, got: Option<nat>, q: nat)
    requires Conserved(h, freemem) && CanGet(h.blocks, size, got)
    ensures var (h', p) := Allocate(h, freemem, size, got); var ok := Granted(h, freemem, size, got);
            p == (if ok then got.value else NULL) && SizeAt(h', q) == if ok && q == p then Some(size) else SizeAt(h, q)
  {
    hide Find, Sum;
    if Granted(h, freemem, size, got) {
      var blocks := h.blocks + [Block(got.value, size)];
      var k := Find(h.blocks, q);
      FindIs(blocks, q, if k == |h.blocks| && q != got.value then k + 1 else k);
    }
  }

  /** Main result: a release takes the block at the address, if there is one; every other block stays. */
  lemma FreeLaw(h: Heap, freemem: nat, p: nat, q: nat)
    requires Conserved(h, freemem)
    ensures SizeAt(Free(h, p), q) == if q == p then None else SizeAt(h, q)
  {
    hide Find, Sum, Free;
    FindAfterFree(h, freemem, p, q);
  }

  /**
   * Main result: a reallocation of NULL allocates; to size 0 it releases; of an unknown address it does nothing; to
   * the same size it keeps the block; and otherwise it gives a block of the new size or nothing, for the old one.
   */
  lemma ReallocLaw(h: Heap, freemem: nat, ptr: nat, size: nat, got: Option<nat>, q: nat)
    requires Conserved(h, freemem) && CanGet(h.blocks, size, got) && SizeAt(h, NULL) == None
    ensures var (h', r) := Reallocate(h, freemem, ptr, size, got); var ok := Granted(h, freemem, size, got);
            var was := SizeAt(h, ptr);
            if ptr != NULL && size != 0 && (was == None || was == Some(size)) then
              r == (if was == None then NULL else ptr) && SizeAt(h', q) == SizeAt(h, q)
            else
              && r == (if ok then got.value else NULL)
              && SizeAt(h', q) == if ok && q == r then Some(size) else if q == ptr then None else SizeAt(h, q)
  {
    hide Find, Sum, Conserved, Allocate, Free, SizeAt;
    MallocLaw(h, freemem, size, got, q);
    MallocLaw(h, freemem, size, got, ptr);
    AllocateConserves(h, freemem, size, got);
    FreeLaw(h, freemem, ptr, q);
    FreeLaw(Allocate(h, freemem, size, got).0, freemem, ptr, q);
    NewAddress(h, freemem, ptr, size, got);
  }

  /** NULL is never the address of a block. */
  lemma {:induction false} NullIsNoBlock(freemem: nat, ops: seq<Op>)
    requires PossibleRun(freemem, ops)
    ensures SizeAt(Run(freemem, ops), NULL) == None
  {
    hide Find, SizeAt, Conserved, Step;
    if ops == [] {
      NoBlocks();
    } else {
      var before, op := ops[..|ops| - 1], ops[|ops| - 1];
      RunConserves(freemem, before);
      NullIsNoBlock(freemem, before);
      StepHasNoNull(Run(freemem, before), freemem, op);
    }
  }

  lemma NoBlocks()
    ensures SizeAt(Heap([], 0), NULL) == None
  {
  }

  lemma StepHasNoNull(h: Heap, freemem: nat, op: Op)
    requires Conserved(h, freemem) && Possible(h, op) && SizeAt(h, NULL) == None
    ensures SizeAt(Step(h, freemem, op), NULL) == None
  {
    hide Find, SizeAt, Conserved, Allocate, Reallocate, Free, Sum;
    match op
    case Malloc(size, got) => MallocLaw(h, freemem, size, got, NULL);
    case Realloc(ptr, size, got) => ReallocLaw(h, freemem, ptr, size, got, NULL);
    case Release(ptr) => FreeLaw(h, freemem, ptr, NULL);
  }

  lemma NewAddress(h: Heap, freemem: nat, ptr: nat, size: nat, got: Option<nat>)
    requires CanGet(h.blocks, size, got)
    ensures SizeAt(h, ptr) == None <==> Find(h.blocks, ptr) == |h.blocks|
    ensures SizeAt(h, ptr) != None ==> SizeAt(h, ptr) == Some(h.blocks[Find(h.blocks, ptr)].size)
    ensures got.Some? ==> SizeAt(h, got.value) == None && got.value != NULL
  {
  }

  // ----- The code -----

  class Allocator {
    const list: SLPList<Block>
    const freemem: nat
    var allocmem: nat

    ghost predicate Valid()
      reads this, list, list.nodes
    {
      list.Valid() && Conserved(Value(), freemem)
    }

    ghost function Value(): Heap
      reads this, list
    {
      Heap(list.Values(), allocmem)
    }

    constructor (limit: nat)
      ensures Valid() && Value() == Heap([], 0) && freemem == limit && fresh(list)
    {
      list := new SLPList<Block>();
      freemem, allocmem := limit, 0;
    }

    /** slp_xmalloc; `got` is what malloc() answers for the buffer. */
    method Xmalloc(size: nat, got: Option<nat>) returns (ptr: nat)
      requires Valid() && size < SIZES && CanGet(list.Values(), size, got)
      modifies this, list, list.nodes
      ensures Valid() && (Value(), ptr) == Allocate(old(Value()), freemem, size, got)
      ensures list.nodes == old(list.nodes) || (|list.nodes| > 0 && fresh(list.nodes[|list.nodes| - 1])
                && list.nodes[..|list.nodes| - 1] == old(list.nodes))
    {
      hide Find, Sum, Conserved, SLPList.Valid, SLPList.Values;
      AllocateConserves(Value(), freemem, size, got);
      if size == 0 { return NULL; }
      if freemem != 0 && (allocmem + size) % SIZES > freemem { return NULL; }
      if got.None? { return NULL; }
      var x := new ListItem(Block(got.value, size));
      list.LinkTail(x);
      allocmem := (allocmem + size) % SIZES;
      return got.value;
    }

    /** _xmalloc_find. */
    method FindBlock(ptr: nat) returns (x: ListItem?<Block>, ghost k: nat)
      requires list.Valid()
      ensures k == Find(list.Values(), ptr)
      ensures var f := Find(list.Values(), ptr); x == if f < |list.nodes| then list.nodes[f] else null
      ensures x != null ==> x.val == list.Values()[k]
    {
      hide Find;
      ghost var vs := list.Values();
      x, k := list.head, 0;
      while x != null
        invariant k <= |vs| && k <= Find(vs, ptr)
        invariant x == if k < |vs| then list.nodes[k] else null
        decreases |vs| - k
      {
        assert list.Linked(k) && vs[k] == x.val;
        if x.val.buf == ptr { return; }
        x := x.next;
        k := k + 1;
      }
    }

    /** slp_xfree. */
    method Xfree(ptr: nat)
      requires Valid()
      modifies this, list, list.nodes
      ensures Valid() && Value() == Free(old(Value()), ptr)
    {
      hide Find, Sum, Conserved, Without, SLPList.Valid, SLPList.Values;
      FreeConserves(Value(), freemem, ptr);
      var x, k := FindBlock(ptr);
      if x == null { return; }
      allocmem := (allocmem - x.val.size) % SIZES;
      list.Unlink(x, k);
    }

    /** slp_xrealloc, and how many bytes it copies. The bytes themselves are not modelled. */
    method Xrealloc(ptr: nat, size: nat, got: Option<nat>) returns (r: nat, copied: nat)
      requires Valid() && size < SIZES && CanGet(list.Values(), size, got)
      modifies this, list, list.nodes
      ensures Valid() && (Value(), r) == Reallocate(old(Value()), freemem, ptr, size, got)
      ensures copied == Copied(old(Value()), freemem, ptr, size, got)
    {
      hide Find, Sum, Conserved, SLPList.Valid, SLPList.Values, Allocate, Free;
      copied := 0;
      if ptr == NULL {
        r := Xmalloc(size, got);
        return;
      }
      if size == 0 {
        Xfree(ptr);
        return NULL, 0;
      }
      var x, k := FindBlock(ptr);
      if x == null { return NULL, 0; }
      r := ptr;
      if x.val.size != size {
        r := Xmalloc(size, got);
        if r != NULL { copied := x.val.size; }
        Xfree(ptr);
      }
    }
  }
}
