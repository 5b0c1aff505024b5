/** The validator of kernel/memory/vm.c on arbitrary table contents: what its success implies, and
    that it succeeds on what the builder makes. */
module VmValidate {
  import opened Bits
  import opened Mmu
  import opened Vm
  import opened VmBuild
  import opened RegionScan

  /** The level 2 entry the walker uses for an address; 0 when the walk ends before it. */
  function EntryOf(v: Tables, address: nat): nat
    requires Shaped(v)
  {
    var s := FindSlot(v, L1Index(address), 0);
    if !IsTable(v.l1[L1Index(address)]) || s == L2_CAPACITY then 0 else v.l2[s * ENTRIES + L2Index(address)]
  }

  lemma TranslateByEntry(v: Tables, mem: Memory, a: nat)
    requires Shaped(v)
    ensures Translate(v, mem, a) == Walk2(mem, EntryOf(v, a), a)
  {
  }

  lemma EntryByBlock(v: Tables, a: nat, c: nat)
    requires Shaped(v) && a / BLOCK_SIZE == c / BLOCK_SIZE
    ensures EntryOf(v, a) == EntryOf(v, c)
  {
    var b := a / BLOCK_SIZE;
    assert a / L1_SIZE == b / ENTRIES && c / L1_SIZE == b / ENTRIES;
  }

  /** Addresses of one page translate alike. */
  lemma TranslateByPage(v: Tables, mem: Memory, va: nat, a: nat)
    requires Shaped(v) && va % PAGE_SIZE == 0 && va <= a < va + PAGE_SIZE
    ensures var r, r' := Translate(v, mem, va), Translate(v, mem, a);
      && (r.Unmapped? <==> r'.Unmapped?)
      && (r.Mapped? ==> r'.physical == r.physical + (a - va) && r'.level == r.level && r'.descriptor == r.descriptor)
  {
    SamePage(va, a);
    EntryByBlock(v, va, a);
    TranslateByEntry(v, mem, va);
    TranslateByEntry(v, mem, a);
  }

  lemma SamePage(va: nat, a: nat)
    requires va % PAGE_SIZE == 0 && va <= a < va + PAGE_SIZE
    ensures a / PAGE_SIZE == va / PAGE_SIZE && a / BLOCK_SIZE == va / BLOCK_SIZE && L3Index(a) == L3Index(va)
    ensures a % PAGE_SIZE == a - va && a % BLOCK_SIZE == va % BLOCK_SIZE + (a - va)
  {
    var p, o := va / PAGE_SIZE, a - va;
    RemainderIs(a, PAGE_SIZE, p, o);
    assert p == p / 512 * 512 + p % 512;
    RemainderIs(va, BLOCK_SIZE, p / 512, p % 512 * PAGE_SIZE);
    RemainderIs(a, BLOCK_SIZE, p / 512, p % 512 * PAGE_SIZE + o);
  }

  /** Addresses of one mapped block translate alike. */
  lemma TranslateByBlock(v: Tables, mem: Memory, va: nat, a: nat)
    requires Shaped(v) && va % BLOCK_SIZE == 0 && va <= a < va + BLOCK_SIZE && IsBlock(EntryOf(v, va))
    ensures var r, r' := Translate(v, mem, va), Translate(v, mem, a);
      r.Mapped? && r'.Mapped? && r'.physical == r.physical + (a - va)
  {
    RemainderIs(a, BLOCK_SIZE, va / BLOCK_SIZE, a - va);
    EntryByBlock(v, va, a);
    TranslateByEntry(v, mem, va);
    TranslateByEntry(v, mem, a);
  }

  lemma LevelTwoIsBlock(v: Tables, mem: Memory, a: nat)
    requires Shaped(v)
    ensures var r := Translate(v, mem, a); IsBlock(EntryOf(v, a)) <==> r.Mapped? && r.level == 2
  {
    TranslateByEntry(v, mem, a);
  }

  // ---- the validation loop ----

  /** Where the loop can be: at a page, and inside a block only when no block entry covers it. */
  predicate At(v: Tables, va: nat, remaining: nat)
    requires Shaped(v)
  {
    && va % PAGE_SIZE == 0 && (va + remaining) % BLOCK_SIZE == 0
    && (va % BLOCK_SIZE != 0 ==> !IsBlock(EntryOf(v, va)))
  }

  /** The address of the next check after va. */
  function StepAt(v: Tables, va: nat): nat
    requires Shaped(v)
  {
    if IsBlock(EntryOf(v, va)) then BLOCK_SIZE else PAGE_SIZE
  }

  /** Whatever the tables hold, a step stays within what remains, so the unsigned counter of the
      remaining bytes never wraps. */
  lemma StepFits(v: Tables, va: nat, remaining: nat)
    requires Shaped(v) && At(v, va, remaining) && remaining > 0
    ensures StepAt(v, va) <= remaining
    ensures At(v, va + StepAt(v, va), remaining - StepAt(v, va))
  {
    var step := StepAt(v, va);
    var end, p := (va + remaining) / BLOCK_SIZE, va / PAGE_SIZE;
    assert va + remaining == end * BLOCK_SIZE && va == p * PAGE_SIZE;
    if IsBlock(EntryOf(v, va)) {
      var b := va / BLOCK_SIZE;
      assert va == b * BLOCK_SIZE && b + 1 <= end;
      RemainderIs(va + step, BLOCK_SIZE, b + 1, 0);
      BlockIsPages(va + step);
    } else {
      assert p + 1 <= end * 512;
      RemainderIs(va + step, PAGE_SIZE, p + 1, 0);
      NextPage(v, va);
    }
  }

  lemma NextPage(v: Tables, va: nat)
    requires Shaped(v) && va % PAGE_SIZE == 0
    ensures (va + PAGE_SIZE) % BLOCK_SIZE != 0 ==> EntryOf(v, va + PAGE_SIZE) == EntryOf(v, va)
  {
    var p := va / PAGE_SIZE;
    assert va == p * PAGE_SIZE;
    if (p + 1) % 512 == 0 {
      RemainderIs(va + PAGE_SIZE, BLOCK_SIZE, (p + 1) / 512, 0);
    } else {
      assert (p + 1) / 512 == p / 512;
      RemainderIs(va, BLOCK_SIZE, p / 512, p % 512 * PAGE_SIZE);
      RemainderIs(va + PAGE_SIZE, BLOCK_SIZE, p / 512, (p + 1) % 512 * PAGE_SIZE);
      EntryByBlock(v, va, va + PAGE_SIZE);
    }
  }

  /** What the look at one address adds. */
  function CheckAt(v: Tables, mem: Memory, k: Kernel, va: nat, pa: nat): Outcome
    requires Shaped(v)
  {
    var t := Translate(v, mem, va);
    if IsGuard(k, va) then if t.Mapped? then Failed else Passed(0, 0, 1)
    else if t.Unmapped? || t.physical != pa then Failed
    else if t.level == 2 then Passed(1, 0, 0) else Passed(0, 1, 0)
  }

  /** The loop is a scan of these looks and steps. */
  function Look(v: Tables, mem: Memory, k: Kernel): (nat, nat) -> Outcome
    requires Shaped(v)
  {
    (va: nat, pa: nat) => CheckAt(v, mem, k, va, pa)
  }

  function Steps(v: Tables): nat -> nat
    requires Shaped(v)
  {
    (va: nat) => StepAt(v, va)
  }

  function Positions(v: Tables): (nat, nat) -> bool
    requires Shaped(v)
  {
    (va: nat, remaining: nat) => At(v, va, remaining)
  }

  /** validate_region from va on. A guard page is never reached through a block entry without
      failing, so its step is a page. */
  function ValidateFrom(v: Tables, mem: Memory, k: Kernel, va: nat, pa: nat, remaining: nat): (r: Outcome)
    requires Shaped(v)
  {
    Scan(Look(v, mem, k), Steps(v), va, pa, remaining)
  }

  lemma LookIs(v: Tables, mem: Memory, k: Kernel, va: nat, pa: nat)
    requires Shaped(v)
    ensures Look(v, mem, k)(va, pa) == CheckAt(v, mem, k, va, pa)
  {
  }

  /** The check of one region. */
  function ValidateRegion(v: Tables, mem: Memory, k: Kernel, r: Region): (o: Outcome)
    requires Shaped(v)
  {
    if !RegionAligned(r) then Failed else ValidateFrom(v, mem, k, r.va, r.pa, r.size)
  }

  // ---- soundness ----

  lemma {:induction false} StepsFit(v: Tables)
    requires Shaped(v)
    ensures Fits(Positions(v), Steps(v))
  {
    forall va: nat, remaining: nat | Positions(v)(va, remaining) && remaining > 0
      ensures GoesOn(Positions(v), Steps(v), va, remaining)
    {
      PositionIs(v, va, remaining);
      StepFits(v, va, remaining);
      PositionIs(v, va + StepAt(v, va), remaining - StepAt(v, va));
    }
  }

  lemma PositionIs(v: Tables, va: nat, remaining: nat)
    requires Shaped(v)
    ensures Positions(v)(va, remaining) == At(v, va, remaining) && Steps(v)(va) == StepAt(v, va) > 0
  {
  }

  /** The loop looked at p, found it backed from q or unmapped as it should be, and its step passed a. */
  predicate Covers(v: Tables, mem: Memory, k: Kernel, p: nat, q: nat, a: nat)
    requires Shaped(v)
  {
    && p % PAGE_SIZE == 0 && (p % BLOCK_SIZE != 0 ==> !IsBlock(EntryOf(v, p)))
    && p <= a < p + StepAt(v, p) && CheckAt(v, mem, k, p, q).Passed?
  }

  lemma {:induction false} Covered(v: Tables, mem: Memory, k: Kernel, va: nat, pa: nat, remaining: nat, a: nat)
    returns (p: nat, q: nat)
    requires Shaped(v) && At(v, va, remaining)
    requires ValidateFrom(v, mem, k, va, pa, remaining).Passed? && va <= a < va + remaining
    ensures va <= p && va + q == p + pa && Covers(v, mem, k, p, q, a)
    ensures CheckAt(v, mem, k, p, q).guards <= ValidateFrom(v, mem, k, va, pa, remaining).guards
  {
    var left;
    StepsFit(v);
    p, q, left := Visit(Look(v, mem, k), Steps(v), Positions(v), va, pa, remaining, a);
    PositionIs(v, p, left);
    LookIs(v, mem, k, p, q);
  }

  /** Success on any tables at all: every address that is not in a guard page is mapped at the
      region's offset, though one address per block or page was looked at. */
  lemma {:induction false} ValidateSound(v: Tables, mem: Memory, k: Kernel, va: nat, pa: nat, remaining: nat, a: nat)
    requires Shaped(v) && At(v, va, remaining) && k.stacks % PAGE_SIZE == 0
    requires ValidateFrom(v, mem, k, va, pa, remaining).Passed? && va <= a < va + remaining && !IsGuard(k, a)
    ensures var r := Translate(v, mem, a); r.Mapped? && r.physical == pa + (a - va)
  {
    var p, q := Covered(v, mem, k, va, pa, remaining, a);
    CoveredIsMapped(v, mem, k, p, q, a);
  }

  lemma {:induction false} CoveredIsMapped(v: Tables, mem: Memory, k: Kernel, p: nat, q: nat, a: nat)
    requires Shaped(v) && k.stacks % PAGE_SIZE == 0 && Covers(v, mem, k, p, q, a) && !IsGuard(k, a)
    ensures var r := Translate(v, mem, a); r.Mapped? && r.physical == q + (a - p)
  {
    if IsBlock(EntryOf(v, p)) {
      BlockIsNoGuard(v, mem, k, p, q);
      TranslateByBlock(v, mem, p, a);
    } else {
      SamePage(p, a);
      GuardByPage(k, a);
      TranslateByPage(v, mem, p, a);
    }
  }

  /** A block that passes its check was not taken for a guard page. */
  lemma BlockIsNoGuard(v: Tables, mem: Memory, k: Kernel, p: nat, q: nat)
    requires Shaped(v) && IsBlock(EntryOf(v, p)) && CheckAt(v, mem, k, p, q).Passed?
    ensures !IsGuard(k, p)
  {
    LevelTwoIsBlock(v, mem, p);
  }

  /** A guard page that was counted is unmapped, so no block entry covers it. */
  lemma {:induction false} CountedGuard(v: Tables, mem: Memory, k: Kernel, va: nat, pa: nat, remaining: nat)
    requires Shaped(v) && At(v, va, remaining) && KernelPlaced(k)
    requires ValidateFrom(v, mem, k, va, pa, remaining).Passed? && ValidateFrom(v, mem, k, va, pa, remaining).guards > 0
    ensures !IsBlock(EntryOf(v, KERNEL_L3_BASE))
  {
    var p, q := VisitGuard(Look(v, mem, k), Steps(v), va, pa, remaining);
    LookIs(v, mem, k, p, q);
    GuardInBlock(v, mem, k, p);
  }

  /** If no block entry covers the guards, success means that they are unmapped. */
  lemma {:induction false} GuardsChecked(v: Tables, mem: Memory, k: Kernel, va: nat, pa: nat, remaining: nat, a: nat)
    requires Shaped(v) && At(v, va, remaining) && KernelPlaced(k) && !IsBlock(EntryOf(v, KERNEL_L3_BASE))
    requires ValidateFrom(v, mem, k, va, pa, remaining).Passed? && va <= a < va + remaining && IsGuard(k, a)
    ensures Translate(v, mem, a) == Unmapped
  {
    var p, q := Covered(v, mem, k, va, pa, remaining, a);
    GuardIsHere(v, mem, k, p, q, a);
    TranslateByPage(v, mem, p, a);
  }

  /** A guard page that a step passes is the page looked at. */
  lemma {:induction false} GuardIsHere(v: Tables, mem: Memory, k: Kernel, p: nat, q: nat, a: nat)
    requires Shaped(v) && KernelPlaced(k) && !IsBlock(EntryOf(v, KERNEL_L3_BASE))
    requires Covers(v, mem, k, p, q, a) && IsGuard(k, a)
    ensures p <= a < p + PAGE_SIZE && p % PAGE_SIZE == 0 && IsGuard(k, p)
  {
    GuardsInFirstBlock(k, a);
    NotInBlock(v, p, a);
    SamePage(p, a);
    GuardByPage(k, a);
  }

  lemma NotInBlock(v: Tables, va: nat, a: nat)
    requires Shaped(v) && a / BLOCK_SIZE == 512 && !IsBlock(EntryOf(v, KERNEL_L3_BASE))
    ensures va % BLOCK_SIZE == 0 && va <= a < va + BLOCK_SIZE ==> !IsBlock(EntryOf(v, va))
  {
    if va % BLOCK_SIZE == 0 && va <= a < va + BLOCK_SIZE {
      EntryByBlock(v, va, KERNEL_L3_BASE);
    }
  }

  /** What address a of a range that starts at va and is backed from pa has to translate to. */
  ghost predicate Correct(v: Tables, mem: Memory, k: Kernel, va: nat, pa: nat, a: nat)
    requires Shaped(v)
  {
    var r := Translate(v, mem, a);
    if IsGuard(k, a) then r == Unmapped else r.Mapped? && r.physical + va == pa + a
  }

  ghost predicate AllCorrect(v: Tables, mem: Memory, k: Kernel, va: nat, pa: nat, remaining: nat)
    requires Shaped(v)
  {
    forall a: nat :: va <= a < va + remaining ==> Correct(v, mem, k, va, pa, a)
  }

  /** No address of the range lies in a guard page. */
  ghost predicate NoGuardIn(k: Kernel, va: nat, remaining: nat) {
    forall a: nat :: va <= a < va + remaining ==> !IsGuard(k, a)
  }

  /** On any tables, every address of the range, not only those the loop looks at, translates as it
      has to iff the loop succeeds and no block entry covers a guard page of the range. */
  lemma {:induction false} ValidateExact(v: Tables, mem: Memory, k: Kernel, va: nat, pa: nat, remaining: nat)
    requires Shaped(v) && At(v, va, remaining) && KernelPlaced(k)
    ensures AllCorrect(v, mem, k, va, pa, remaining) <==>
      && ValidateFrom(v, mem, k, va, pa, remaining).Passed?
      && (IsBlock(EntryOf(v, KERNEL_L3_BASE)) ==> NoGuardIn(k, va, remaining))
  {
    if && ValidateFrom(v, mem, k, va, pa, remaining).Passed?
       && (IsBlock(EntryOf(v, KERNEL_L3_BASE)) ==> NoGuardIn(k, va, remaining)) {
      forall a: nat | va <= a < va + remaining ensures Correct(v, mem, k, va, pa, a) {
        AcceptedIsCorrect(v, mem, k, va, pa, remaining, a);
      }
    }
    if AllCorrect(v, mem, k, va, pa, remaining) {
      ValidateAccepts(v, mem, k, va, pa, remaining);
      forall a: nat | va <= a < va + remaining && IsGuard(k, a) ensures !IsBlock(EntryOf(v, KERNEL_L3_BASE)) {
        assert Correct(v, mem, k, va, pa, a);
        GuardInBlock(v, mem, k, a);
      }
    }
  }

  /** A block entry over the guards maps them. */
  lemma {:induction false} GuardInBlock(v: Tables, mem: Memory, k: Kernel, a: nat)
    requires Shaped(v) && KernelPlaced(k) && IsGuard(k, a)
    ensures IsBlock(EntryOf(v, KERNEL_L3_BASE)) ==> Translate(v, mem, a).Mapped?
  {
    GuardsInFirstBlock(k, a);
    EntryByBlock(v, a, KERNEL_L3_BASE);
    LevelTwoIsBlock(v, mem, a);
  }

  lemma {:induction false} AcceptedIsCorrect(v: Tables, mem: Memory, k: Kernel, va: nat, pa: nat, remaining: nat,
      a: nat)
    requires Shaped(v) && At(v, va, remaining) && KernelPlaced(k)
    requires ValidateFrom(v, mem, k, va, pa, remaining).Passed? && va <= a < va + remaining
    requires IsBlock(EntryOf(v, KERNEL_L3_BASE)) ==> NoGuardIn(k, va, remaining)
    ensures Correct(v, mem, k, va, pa, a)
  {
    if IsGuard(k, a) {
      GuardsChecked(v, mem, k, va, pa, remaining, a);
    } else {
      ValidateSound(v, mem, k, va, pa, remaining, a);
    }
  }

  lemma {:induction false} ValidateAccepts(v: Tables, mem: Memory, k: Kernel, va: nat, pa: nat, remaining: nat)
    requires Shaped(v) && At(v, va, remaining) && AllCorrect(v, mem, k, va, pa, remaining)
    ensures ValidateFrom(v, mem, k, va, pa, remaining).Passed?
  {
    var look := Look(v, mem, k);
    forall p: nat, q: nat | va <= p < va + remaining && va + q == p + pa ensures look(p, q).Passed? {
      assert Correct(v, mem, k, va, pa, p);
      LookIs(v, mem, k, p, q);
    }
    StepsFit(v);
    AllPass(look, Steps(v), Positions(v), va, pa, remaining);
  }

  /** If no block entry covers it, a guard page of the range is counted by a run that succeeds. */
  lemma {:induction false} GuardsSeen(v: Tables, mem: Memory, k: Kernel, va: nat, pa: nat, remaining: nat, a: nat)
    requires Shaped(v) && At(v, va, remaining) && KernelPlaced(k) && !IsBlock(EntryOf(v, KERNEL_L3_BASE))
    requires ValidateFrom(v, mem, k, va, pa, remaining).Passed? && va <= a < va + remaining && IsGuard(k, a)
    ensures ValidateFrom(v, mem, k, va, pa, remaining).guards > 0
  {
    var p, q := Covered(v, mem, k, va, pa, remaining, a);
    GuardIsHere(v, mem, k, p, q, a);
  }

  /** What the comparison of the guard counts adds: on any tables, every address of RAM translates
      as it has to iff the region passes and at least one guard page was counted. */
  lemma {:induction false} RamCorrectIff(v: Tables, mem: Memory, k: Kernel)
    requires Shaped(v) && KernelPlaced(k)
    ensures AllCorrect(v, mem, k, RAM.va, RAM.pa, RAM.size) <==>
      ValidateRegion(v, mem, k, RAM).Passed? && ValidateRegion(v, mem, k, RAM).guards > 0
  {
    RegionStart(v, mem, k, RAM);
    ValidateExact(v, mem, k, RAM.va, RAM.pa, RAM.size);
    assert IsGuard(k, k.stacks);
    GuardsInFirstBlock(k, k.stacks);
    RegionBlocks(k.stacks);
    var o := ValidateRegion(v, mem, k, RAM);
    if o.Passed? && o.guards > 0 {
      CountedGuard(v, mem, k, RAM.va, RAM.pa, RAM.size);
    } else if o.Passed? && !IsBlock(EntryOf(v, KERNEL_L3_BASE)) {
      GuardsSeen(v, mem, k, RAM.va, RAM.pa, RAM.size, k.stacks);
    }
  }

  /** validate_tables: both regions, and the three counts against the builder's. `before` is the
      number of guard pages counted earlier, which this function does not reset. */
  function ValidateTables(v: Tables, mem: Memory, y: Layout, k: Kernel, blocks: int, pages: int, guards: int,
      before: int, l3Mapped: bool): (ok: bool)
    requires Shaped(v)
  {
    && y.l1 % PAGE_SIZE == 0 && (v.used > 0 ==> y.l2 % PAGE_SIZE == 0) && (l3Mapped ==> y.l3 % PAGE_SIZE == 0)
    && CountsMatch(ValidateRegion(v, mem, k, MMIO), ValidateRegion(v, mem, k, RAM), blocks, pages, guards, before)
  }

  predicate CountsMatch(m: Outcome, r: Outcome, blocks: int, pages: int, guards: int, before: int) {
    && m.Passed? && r.Passed?
    && m.blocks + r.blocks == blocks && m.pages + r.pages == pages && before + m.guards + r.guards == guards
  }

  lemma JudgedByCounts(v: Tables, mem: Memory, y: Layout, k: Kernel, blocks: int, pages: int, guards: int, before: int,
      l3Mapped: bool, m: Outcome, r: Outcome)
    requires Shaped(v) && LayoutOk(y)
    requires m == ValidateRegion(v, mem, k, MMIO) && r == ValidateRegion(v, mem, k, RAM)
    ensures ValidateTables(v, mem, y, k, blocks, pages, guards, before, l3Mapped) <==>
      CountsMatch(m, r, blocks, pages, guards, before)
  {
  }

  /** Main result on the validator: success on any table contents means that every address of both
      regions outside the guard pages maps to itself; and where guards were to be found at all,
      the guard pages are unmapped. */
  lemma {:induction false} ValidatorSound(v: Tables, mem: Memory, y: Layout, k: Kernel, blocks: int, pages: int,
      guards: int, l3Mapped: bool, a: nat)
    requires Shaped(v) && KernelPlaced(k) && ValidateTables(v, mem, y, k, blocks, pages, guards, 0, l3Mapped)
    requires InRegion(MMIO, a) || InRegion(RAM, a)
    ensures !IsGuard(k, a) ==> Translate(v, mem, a).Mapped? && Translate(v, mem, a).physical == a
    ensures IsGuard(k, a) && guards > 0 ==> Translate(v, mem, a) == Unmapped
  {
    RegionStart(v, mem, k, MMIO);
    RegionStart(v, mem, k, RAM);
    if !IsGuard(k, a) {
      if InRegion(MMIO, a) {
        ValidateSound(v, mem, k, MMIO.va, MMIO.pa, MMIO.size, a);
      } else {
        ValidateSound(v, mem, k, RAM.va, RAM.pa, RAM.size, a);
      }
    } else if guards > 0 {
      GuardsInFirstBlock(k, a);
      RegionBlocks(a);
      if ValidateRegion(v, mem, k, MMIO).guards > 0 {
        CountedGuard(v, mem, k, MMIO.va, MMIO.pa, MMIO.size);
      } else {
        CountedGuard(v, mem, k, RAM.va, RAM.pa, RAM.size);
      }
      GuardsChecked(v, mem, k, RAM.va, RAM.pa, RAM.size, a);
    }
  }

  lemma RegionStart(v: Tables, mem: Memory, k: Kernel, r: Region)
    requires Shaped(v) && (r == MMIO || r == RAM)
    ensures RegionAligned(r) && At(v, r.va, r.size)
    ensures ValidateRegion(v, mem, k, r) == ValidateFrom(v, mem, k, r.va, r.pa, r.size)
  {
  }

  // ---- completeness ----

  /** The walker finds the built entry for block number b. */
  predicate Reaches(v: Tables, y: Layout, b: nat)
    requires Shaped(v)
  {
    EntryOf(v, b * BLOCK_SIZE) == BuiltEntry(y, b)
  }

  /** The block at va passes its check. */
  predicate BlockPasses(v: Tables, mem: Memory, k: Kernel, va: nat)
    requires Shaped(v)
  {
    !IsGuard(k, va) && IsBlock(EntryOf(v, va)) && Translate(v, mem, va).Mapped? && Translate(v, mem, va).physical == va
  }

  predicate BlocksPass(v: Tables, mem: Memory, k: Kernel, va: nat, n: nat)
    requires Shaped(v)
  {
    forall i: nat :: i < n ==> BlockPasses(v, mem, k, Nth(va, i))
  }

  function Nth(va: nat, i: nat): nat {
    va + i * BLOCK_SIZE
  }

  lemma {:induction false} BlockLook(v: Tables, mem: Memory, k: Kernel, va: nat)
    requires Shaped(v) && BlockPasses(v, mem, k, va)
    ensures Look(v, mem, k)(va, va) == Passed(1, 0, 0) && Steps(v)(va) == BLOCK_SIZE
  {
    LevelTwoIsBlock(v, mem, va);
  }

  lemma {:induction false} BlockInRow(v: Tables, mem: Memory, k: Kernel, n: nat, va: nat, j: nat, pos: nat -> nat)
    requires Shaped(v) && BlocksPass(v, mem, k, va, n) && j < n && pos(j) == Nth(va, j) && pos(j + 1) == Nth(va, j + 1)
    ensures BlockAt(Look(v, mem, k), Steps(v), pos, j)
  {
    assert BlockPasses(v, mem, k, Nth(va, j));
    BlockLook(v, mem, k, Nth(va, j));
  }

  /** Over block entries that pass the loop counts blocks. */
  lemma {:induction false} ValidateBlocks(v: Tables, mem: Memory, k: Kernel, n: nat, va: nat, remaining: nat)
    requires Shaped(v) && remaining == n * BLOCK_SIZE && BlocksPass(v, mem, k, va, n)
    ensures ValidateFrom(v, mem, k, va, va, remaining) == Passed(n, 0, 0)
  {
    var pos := (i: nat) => Nth(va, i);
    forall j: nat | j < n ensures BlockAt(Look(v, mem, k), Steps(v), pos, j) {
      BlockInRow(v, mem, k, n, va, j, pos);
    }
    BlocksFrom(Look(v, mem, k), Steps(v), pos, n, va, remaining);
  }

  lemma {:induction false} BlockChecked(v: Tables, mem: Memory, y: Layout, k: Kernel, b: nat)
    requires Shaped(v) && LayoutOk(y) && KernelPlaced(k) && (64 <= b < 81 || 513 <= b < 576) && Reaches(v, y, b)
    ensures BlockPasses(v, mem, k, b * BLOCK_SIZE)
  {
    var va := b * BLOCK_SIZE;
    assert va / BLOCK_SIZE == b;
    TranslateByEntry(v, mem, va);
    LevelTwoIsBlock(v, mem, va);
    BlockTranslates(mem, b, if b < 81 then DEVICE else NORMAL_XN, va);
    if IsGuard(k, va) { GuardsInFirstBlock(k, va); }
  }

  /** How many guard pages come before page i of the level 3 table. */
  ghost function GuardsBefore(k: Kernel, i: nat): nat {
    |GuardPages(k, i)|
  }

  lemma {:induction false} GuardsAreCounted(k: Kernel, i: nat)
    ensures GuardsBefore(k, 0) == 0 && GuardsBefore(k, i) <= i
    ensures GuardsBefore(k, i + 1) == GuardsBefore(k, i) + if GuardPage(k, i) then 1 else 0
  {
    assert GuardPages(k, 0) == {};
    if i > 0 { GuardsAreCounted(k, i - 1); }
    CountStep(k, i);
  }

  function PageVa(i: nat): nat {
    KERNEL_L3_BASE + i * PAGE_SIZE
  }

  lemma {:induction false} PageLook(v: Tables, mem: Memory, y: Layout, k: Kernel, i: nat)
    requires Shaped(v) && LayoutOk(y) && KernelPlaced(k) && i < ENTRIES && Reaches(v, y, 512)
    requires forall j :: 0 <= j < ENTRIES ==> Entry(mem, y.l3, j) == BuiltPage(k, j)
    ensures Steps(v)(PageVa(i)) == PAGE_SIZE
    ensures Look(v, mem, k)(PageVa(i), PageVa(i)) == if GuardPage(k, i) then Passed(0, 0, 1) else Passed(0, 1, 0)
  {
    PageChecked(v, mem, y, k, i);
  }

  /** Over the built level 3 table the loop counts pages and guards, then the blocks behind it. */
  lemma {:induction false} ValidatePages(v: Tables, mem: Memory, y: Layout, k: Kernel)
    requires Shaped(v) && LayoutOk(y) && KernelPlaced(k)
    requires Reaches(v, y, 512) && BlocksPass(v, mem, k, KERNEL_L3_BASE + BLOCK_SIZE, 63)
    requires forall j :: 0 <= j < ENTRIES ==> Entry(mem, y.l3, j) == BuiltPage(k, j)
    ensures |GuardPages(k, ENTRIES)| <= ENTRIES
    ensures ValidateFrom(v, mem, k, RAM.va, RAM.va, RAM.size) ==
      Passed(63, ENTRIES - |GuardPages(k, ENTRIES)|, |GuardPages(k, ENTRIES)|)
  {
    var look, steps := Look(v, mem, k), Steps(v);
    var pos, g := (i: nat) => PageVa(i), (i: nat) => GuardsBefore(k, i);
    forall j: nat | j < ENTRIES ensures PageAt(look, steps, pos, g, j) {
      PageInRow(v, mem, y, k, j, pos, g);
    }
    forall j: nat ensures g(j) <= j && g(0) == 0 {
      GuardsAreCounted(k, j);
    }
    ValidateBlocks(v, mem, k, 63, PageVa(ENTRIES), 63 * BLOCK_SIZE);
    PagesFrom(look, steps, pos, g, ENTRIES, RAM.va, PageVa(ENTRIES), RAM.size, 63);
  }

  lemma {:induction false} PageInRow(v: Tables, mem: Memory, y: Layout, k: Kernel, j: nat, pos: nat -> nat,
      g: nat -> nat)
    requires Shaped(v) && LayoutOk(y) && KernelPlaced(k) && j < ENTRIES && Reaches(v, y, 512)
    requires forall j :: 0 <= j < ENTRIES ==> Entry(mem, y.l3, j) == BuiltPage(k, j)
    requires pos(j) == PageVa(j) && pos(j + 1) == PageVa(j + 1)
    requires g(j) == GuardsBefore(k, j) && g(j + 1) == GuardsBefore(k, j + 1)
    ensures PageAt(Look(v, mem, k), Steps(v), pos, g, j)
  {
    PageLook(v, mem, y, k, j);
    GuardsAreCounted(k, j);
  }

  lemma {:induction false} PageChecked(v: Tables, mem: Memory, y: Layout, k: Kernel, i: nat)
    requires Shaped(v) && LayoutOk(y) && KernelPlaced(k) && i < ENTRIES
    requires EntryOf(v, KERNEL_L3_BASE) == TableDesc(y.l3)
    requires forall j :: 0 <= j < ENTRIES ==> Entry(mem, y.l3, j) == BuiltPage(k, j)
    ensures var va := KERNEL_L3_BASE + i * PAGE_SIZE; var r := Translate(v, mem, va);
      && (if GuardPage(k, i) then r == Unmapped else r.Mapped? && r.physical == va && r.level == 3)
      && !IsBlock(EntryOf(v, va))
  {
    var va := KERNEL_L3_BASE + i * PAGE_SIZE;
    RemainderIs(va, BLOCK_SIZE, 512, i * PAGE_SIZE);
    EntryByBlock(v, va, KERNEL_L3_BASE);
    TranslateByEntry(v, mem, va);
    TableDescIs(y.l3);
    PageTranslates(mem, y, k, va);
  }

  /** On built tables the slot lookup reaches every built entry. */
  lemma {:induction false} EntryOfBuilt(v: Tables, y: Layout, k: Kernel, b: nat)
    requires Built(v, y, k) && b < 2048
    ensures Reaches(v, y, b)
  {
    var a := b * BLOCK_SIZE;
    assert a / BLOCK_SIZE == b;
    IndexOfBlock(a);
    assert BlockEntry(v, b) == BuiltEntry(y, b);
    var s := FindSlot(v, L1Index(a), 0);
    if s < L2_CAPACITY { TableDescIs(y.l2 + s * PAGE_SIZE); }
  }

  lemma {:induction false} BuiltBlocksPass(v: Tables, mem: Memory, y: Layout, k: Kernel, lo: nat, va: nat, n: nat)
    requires Built(v, y, k) && KernelPlaced(k) && va == lo * BLOCK_SIZE
    requires (64 <= lo <= lo + n <= 81 || 513 <= lo <= lo + n <= 576)
    ensures BlocksPass(v, mem, k, va, n)
  {
    forall i: nat | i < n ensures BlockPasses(v, mem, k, Nth(va, i)) {
      EntryOfBuilt(v, y, k, lo + i);
      BlockChecked(v, mem, y, k, lo + i);
      assert Nth(va, i) == (lo + i) * BLOCK_SIZE;
    }
  }

  lemma {:induction false} BuiltMmioPasses(v: Tables, mem: Memory, y: Layout, k: Kernel)
    requires Built(v, y, k) && KernelPlaced(k)
    ensures ValidateRegion(v, mem, k, MMIO) == Passed(17, 0, 0)
  {
    RegionStart(v, mem, k, MMIO);
    BuiltBlocksPass(v, mem, y, k, 64, MMIO.va, 17);
    ValidateBlocks(v, mem, k, 17, MMIO.va, MMIO.size);
  }

  lemma {:induction false} BuiltRamPasses(v: Tables, mem: Memory, y: Layout, k: Kernel)
    requires Built(v, y, k) && KernelPlaced(k)
    requires forall j :: 0 <= j < ENTRIES ==> Entry(mem, y.l3, j) == BuiltPage(k, j)
    ensures |GuardPages(k, ENTRIES)| <= ENTRIES
    ensures ValidateRegion(v, mem, k, RAM) == Passed(63, ENTRIES - |GuardPages(k, ENTRIES)|, |GuardPages(k, ENTRIES)|)
  {
    RegionStart(v, mem, k, RAM);
    EntryOfBuilt(v, y, k, 512);
    BuiltBlocksPass(v, mem, y, k, 513, KERNEL_L3_BASE + BLOCK_SIZE, 63);
    ValidatePages(v, mem, y, k);
  }

  /** Main result, the other direction: the validator accepts whatever the builder made, with the
      numbers of blocks, pages and guards that are really there. */
  lemma {:induction false} ValidatorComplete(v: Tables, y: Layout, k: Kernel, elsewhere: Memory)
    requires Built(v, y, k) && KernelPlaced(k)
    ensures ValidateTables(v, InMemory(v, y, elsewhere), y, k, |MappedBlocks(v)|, |MappedPages(v)|,
      |GuardPages(k, ENTRIES)|, 0, true)
  {
    ValidatesOnce(v, y, k, elsewhere, 0);
  }

  /** validate_tables does not reset its count of guard pages, so on built tables it succeeds iff
      that count is zero when it is called: a second validation without a rebuild fails. */
  lemma {:induction false} ValidatesOnce(v: Tables, y: Layout, k: Kernel, elsewhere: Memory, before: int)
    requires Built(v, y, k) && KernelPlaced(k)
    ensures var blocks, pages, guards := |MappedBlocks(v)|, |MappedPages(v)|, |GuardPages(k, ENTRIES)|;
      ValidateTables(v, InMemory(v, y, elsewhere), y, k, blocks, pages, guards, before, true) <==> before == 0
  {
    var mem := InMemory(v, y, elsewhere);
    BuiltMmioPasses(v, mem, y, k);
    BuiltRamPasses(v, mem, y, k);
    BuiltCounts(v, y, k);
  }
}
