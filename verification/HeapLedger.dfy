/** What callers of the kernel heap (kernel/memory/heap.c) hold: over whole runs, every pointer that
    kmalloc returned and nobody freed is a payload at least as large as asked for. */
module HeapLedger {
  import opened Pmm
  import opened Heap
  import opened HeapRuns

  /** The outstanding pointers with the sizes that were asked for. */
  type Ledger = map<nat, nat>

  /** Callers ask for sizes that do not wrap and free only what they hold. */
  predicate Fair(h: State, reserved: set<int>, l: Ledger, op: Op) {
    match op
    case Malloc(size) => size <= U64 - ALIGN
    case Free(ptr) => ptr == 0 || ptr in l
    case OtherFree(page) => page !in reserved && PageAddress(page) !in h.pages
    case OtherAlloc => true
  }

  function Record(h: State, l: Ledger, op: Op): Ledger {
    match op
    case Malloc(size) => if Kmalloc(h, size).1 == 0 then l else l[Kmalloc(h, size).1 := size]
    case Free(ptr) => l - {ptr}
    case _ => l
  }

  /** Block b backs the pointer for at least n bytes. */
  predicate Backs(b: Block, ptr: nat, n: nat) {
    !b.free && b.addr + HEADER == ptr && b.size >= n
  }

  /** The ledger is exact: every pointer in it is backed by a live block, and every live block is in it. */
  ghost predicate Exact(live: set<Block>, l: Ledger) {
    && (forall ptr {:trigger Backed(live, ptr, l[ptr])} :: ptr in l ==> Backed(live, ptr, l[ptr]))
    && (forall b :: b in live ==> b.addr + HEADER in l)
  }

  ghost predicate Backed(live: set<Block>, ptr: nat, n: nat) {
    exists b :: b in live && Backs(b, ptr, n)
  }

  ghost predicate LedgerInv(h: State, l: Ledger) {
    Exact(Live(h.blocks), l)
  }

  /** One block that backs ptr for n bytes is the difference between the two. */
  ghost predicate OneApart(less: set<Block>, more: set<Block>, ptr: nat, n: nat) {
    exists b :: more == less + {b} && Backs(b, ptr, n)
  }

  lemma {:induction false} OneMore(live: set<Block>, live': set<Block>, l: Ledger, ptr: nat, size: nat)
    requires Exact(live, l) && OneApart(live, live', ptr, size)
    ensures Exact(live', l[ptr := size])
  {
    var b :| live' == live + {b} && Backs(b, ptr, size);
    var l' := l[ptr := size];
    forall p | p in l' ensures Backed(live + {b}, p, l'[p]) {
      if p == ptr {
        assert Backs(b, p, size);
      } else {
        assert Backed(live, p, l[p]);
        var c :| c in live && Backs(c, p, l[p]);
        assert c in live + {b};
      }
    }
  }

  lemma {:induction false} OneLess(live: set<Block>, l: Ledger, b: Block)
    requires Exact(live, l) && b in live && forall c :: c in live && c.addr == b.addr ==> c == b
    ensures Exact(live - {b}, l - {b.addr + HEADER})
  {
    var l' := l - {b.addr + HEADER};
    forall p | p in l' ensures Backed(live - {b}, p, l'[p]) {
      assert Backed(live, p, l[p]);
      var c :| c in live && Backs(c, p, l[p]);
      assert c in live - {b};
    }
  }

  lemma LiveIsListed(bs: seq<Block>, b: Block)
    ensures b in Live(bs) <==> b in bs && !b.free
  {
  }

  lemma {:induction false} MallocKeeps(h: State, l: Ledger, size: nat)
    requires Inv(h) && LedgerInv(h, l) && size <= U64 - ALIGN
    ensures LedgerInv(Kmalloc(h, size).0, Record(h, l, Malloc(size)))
  {
    MallocAdds(h, size);
    if Kmalloc(h, size).1 != 0 {
      OneMore(Live(h.blocks), Live(Kmalloc(h, size).0.blocks), l, Kmalloc(h, size).1, size);
    }
  }

  lemma {:induction false} MallocAdds(h: State, size: nat)
    requires Inv(h) && size <= U64 - ALIGN
    ensures var (h', ptr) := Kmalloc(h, size);
      if ptr == 0 then h' == h else OneApart(Live(h.blocks), Live(h'.blocks), ptr, size)
  {
    KmallocAllocates(h, size);
    AlignUpCoversIff(size);
    var (h', ptr) := Kmalloc(h, size);
    if ptr != 0 {
      Chosen(h'.blocks, Live(h.blocks), ptr, AlignUp(size), size);
    }
  }

  lemma {:induction false} Chosen(bs: seq<Block>, live: set<Block>, ptr: nat, n: nat, size: nat)
    requires exists b :: b in bs && !b.free && b.addr + HEADER == ptr && b.size >= n && Live(bs) == live + {b}
    requires size <= n
    ensures OneApart(live, Live(bs), ptr, size)
  {
    var b :| b in bs && !b.free && b.addr + HEADER == ptr && b.size >= n && Live(bs) == live + {b};
    assert Backs(b, ptr, size);
  }

  /** A live block is the one that kfree finds for its pointer. */
  lemma {:induction false} FoundBlock(h: State, b: Block)
    requires Sound(h) && b in Live(h.blocks)
    ensures Freeable(h, b.addr + HEADER) && BlockOf(h.blocks, b.addr + HEADER, 0) < |h.blocks|
    ensures h.blocks[BlockOf(h.blocks, b.addr + HEADER, 0)] == b
  {
    AddressesDistinct(h);
    LiveIsListed(h.blocks, b);
    var k :| 0 <= k < |h.blocks| && h.blocks[k] == b;
    var r := BlockOf(h.blocks, b.addr + HEADER, 0);
    assert r <= k;
    assert r == k;
  }

  lemma {:induction false} SameAddressSameBlock(h: State, b: Block)
    requires Sound(h) && b in Live(h.blocks)
    ensures forall c :: c in Live(h.blocks) && c.addr == b.addr ==> c == b
  {
    FoundBlock(h, b);
    forall c | c in Live(h.blocks) && c.addr == b.addr ensures c == b {
      FoundBlock(h, c);
    }
  }

  lemma {:induction false} FreeKeeps(h: State, l: Ledger, ptr: nat)
    requires Inv(h) && LedgerInv(h, l) && (ptr == 0 || ptr in l)
    ensures Freeable(h, ptr) && LedgerInv(Kfree(h, ptr), Record(h, l, Free(ptr)))
  {
    if ptr in l {
      var b := FreeTakes(h, Live(h.blocks), l, ptr);
      OneLess(Live(h.blocks), l, b);
    } else {
      assert l - {ptr} == l;
    }
  }

  /** The live block that a free of an outstanding pointer gives back. */
  lemma {:induction false} FreeTakes(h: State, live: set<Block>, l: Ledger, ptr: nat) returns (b: Block)
    requires Inv(h) && live == Live(h.blocks) && Exact(live, l) && ptr in l
    ensures Freeable(h, ptr) && b in live && b.addr + HEADER == ptr
    ensures forall c :: c in live && c.addr == b.addr ==> c == b
    ensures ptr != 0 && Live(Kfree(h, ptr).blocks) == live - {b}
  {
    assert Backed(live, ptr, l[ptr]);
    b :| b in live && Backs(b, ptr, l[ptr]);
    SameAddressSameBlock(h, b);
    FreeGivesBack(h, b, ptr);
  }

  lemma {:induction false} FreeGivesBack(h: State, b: Block, ptr: nat)
    requires Inv(h) && b in Live(h.blocks) && ptr == b.addr + HEADER
    ensures Freeable(h, ptr) && Live(Kfree(h, ptr).blocks) == Live(h.blocks) - {b}
  {
    FoundBlock(h, b);
    KfreeReleases(h, ptr);
  }

  // ---- runs ----

  /** The state and the ledger after a run of fair operations. */
  ghost predicate Reached(h: State, reserved: set<int>, l: Ledger, ops: seq<Op>, h': State, l': Ledger)
    decreases |ops|
  {
    if ops == [] then h' == h && l' == l
    else
      && Fair(h, reserved, l, ops[0]) && Allowed(h, reserved, ops[0])
      && Reached(Apply(h, reserved, ops[0]), reserved, Record(h, l, ops[0]), ops[1..], h', l')
  }

  /** What callers may do by their ledger is what the heap allows. */
  lemma {:induction false} FairIsAllowed(h: State, reserved: set<int>, l: Ledger, op: Op)
    requires RunInv(h, reserved) && LedgerInv(h, l) && Fair(h, reserved, l, op)
    ensures Allowed(h, reserved, op)
    ensures RunInv(Apply(h, reserved, op), reserved) && LedgerInv(Apply(h, reserved, op), Record(h, l, op))
  {
    match op
    case Malloc(size) =>
      MallocKeeps(h, l, size);
      OpKeeps(h, reserved, op);
    case Free(ptr) =>
      FreeKeeps(h, l, ptr);
      OpKeeps(h, reserved, op);
    case OtherAlloc =>
      OpKeeps(h, reserved, op);
    case OtherFree(_) =>
      OpKeeps(h, reserved, op);
  }

  lemma {:induction false} RunLedger(h: State, reserved: set<int>, l: Ledger, ops: seq<Op>, h': State, l': Ledger)
    requires RunInv(h, reserved) && LedgerInv(h, l) && Reached(h, reserved, l, ops, h', l')
    ensures RunInv(h', reserved) && LedgerInv(h', l')
    decreases |ops|
  {
    if ops != [] {
      FairIsAllowed(h, reserved, l, ops[0]);
      RunLedger(Apply(h, reserved, ops[0]), reserved, Record(h, l, ops[0]), ops[1..], h', l');
    }
  }

  /** Byte a belongs to what the holder of ptr asked for. */
  predicate Holds(l: Ledger, ptr: nat, a: int) {
    ptr in l && ptr <= a < ptr + l[ptr]
  }

  /** Main result: after any fair run from boot, the bytes that the holders of outstanding pointers asked
      for are inside live blocks, no two holders share one, and none is in the kernel image or the
      framebuffer range. */
  lemma {:induction false} OutstandingSafe(kernelEnd: nat, ops: seq<Op>, h: State, l: Ledger, ptr: nat,
      ptr': nat, a: int)
    requires Reached(Boot(kernelEnd), BootReserved(kernelEnd), map[], ops, h, l) && Holds(l, ptr, a)
    ensures Backed(Live(h.blocks), ptr, l[ptr])
    ensures ptr' != ptr ==> !Holds(l, ptr', a)
    ensures !(RAM_BASE <= a < kernelEnd) && !(RAMFB_BASE <= a < RAMFB_END)
  {
    BootLedger(kernelEnd);
    RunLedger(Boot(kernelEnd), BootReserved(kernelEnd), map[], ops, h, l);
    var i := IndexOf(h, l, ptr);
    BlockSafe(kernelEnd, h, i, i, a);
    if ptr' != ptr && ptr' in l {
      var j := IndexOf(h, l, ptr');
      BlockSafe(kernelEnd, h, i, j, a);
    }
  }

  lemma BootLedger(kernelEnd: nat)
    ensures RunInv(Boot(kernelEnd), BootReserved(kernelEnd)) && LedgerInv(Boot(kernelEnd), map[])
  {
  }

  /** The place of the block behind an outstanding pointer. */
  lemma IndexOf(h: State, l: Ledger, ptr: nat) returns (i: nat)
    requires LedgerInv(h, l) && ptr in l
    ensures i < |h.blocks| && Backs(h.blocks[i], ptr, l[ptr])
  {
    assert Backed(Live(h.blocks), ptr, l[ptr]);
    var b :| b in Live(h.blocks) && Backs(b, ptr, l[ptr]);
    LiveIsListed(h.blocks, b);
    i :| 0 <= i < |h.blocks| && h.blocks[i] == b;
  }
}
