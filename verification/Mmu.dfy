/** Descriptor arithmetic of arch/arm64/mmu.c for the VMSAv8-64 format (section D5.3 of the Arm
    Architecture Reference Manual DDI 0487, issue F), and the table walk it is made for. Shifts and
    masks appear as division and remainder; module MmuMasks proves that they are the same. */
module Mmu {
  import opened Bits

  const PAGE_SIZE := 4096
  const BLOCK_SIZE := 0x200000
  const L1_SIZE := 0x40000000
  const ENTRIES := 512
  const U48 := 0x1_0000_0000_0000
  /** The PXN bit; UXN is the bit above it. */
  const PXN := 0x20_0000_0000_0000

  function L1Index(address: nat): nat { address / L1_SIZE % ENTRIES }
  function L2Index(address: nat): nat { address / BLOCK_SIZE % ENTRIES }
  function L3Index(address: nat): nat { address / PAGE_SIZE % ENTRIES }

  /** An attribute word: `low` are the bits below 12 without the tag, `xn` the UXN and PXN bits. */
  datatype Attr = Attr(low: nat, xn: nat)

  predicate AttrValid(t: Attr) {
    t.low < PAGE_SIZE && t.low % 4 == 0 && t.xn < 4
  }

  function AttrWord(t: Attr): nat {
    t.xn * PXN + t.low
  }

  /** The AP bits of an attribute: 0 EL1 read/write, 1 EL0 read/write, 2 EL1 read-only, 3 EL0 read-only. */
  function AttrAp(t: Attr): nat {
    t.low / 64 % 4
  }

  const DEVICE := Attr(0x404, 3)
  const NORMAL_XN := Attr(0x700, 3)
  const NORMAL_RO_XN := Attr(0x780, 3)
  const NORMAL_RO_EXEC := Attr(0x780, 0)
  const USER_CODE := Attr(0x7C0, 1)
  const USER_DATA := Attr(0x740, 3)

  function TableDesc(physical: nat): nat { physical / PAGE_SIZE * PAGE_SIZE + 3 }
  function BlockDesc(physical: nat, t: Attr): nat { physical / BLOCK_SIZE * BLOCK_SIZE + AttrWord(t) + 1 }
  function PageDesc(physical: nat, t: Attr): nat { physical / PAGE_SIZE * PAGE_SIZE + AttrWord(t) + 3 }

  predicate IsTable(d: nat) { d % 4 == 3 }
  predicate IsBlock(d: nat) { d % 4 == 1 }
  function DescAddress(d: nat): nat { d / PAGE_SIZE % 0x10_0000_0000 * PAGE_SIZE }
  function BlockAddress(d: nat): nat { d / BLOCK_SIZE % 0x8000000 * BLOCK_SIZE }
  function Ap(d: nat): nat { d / 64 % 4 }
  function Xn(d: nat): nat { d / PXN % 4 }

  /** The access flag; the hardware faults on a block or page whose flag is clear. */
  predicate AccessFlag(d: nat) { d / 0x400 % 2 == 1 }
  /** The index into MAIR_EL1: 0 normal, 1 device memory. */
  function MemoryType(d: nat): nat { d / 4 % 8 }
  /** 3 is inner shareable. */
  function Shareability(d: nat): nat { d / 256 % 4 }
  /** Neither the NS bit nor the nG bit is set: secure and global. */
  predicate Plain(d: nat) { d / 32 % 2 == 0 && d / 0x800 % 2 == 0 }

  predicate ExecuteNever(d: nat) { Xn(d) != 0 }
  predicate UserAccess(d: nat) { Ap(d) == 1 || Ap(d) == 3 }
  predicate UserWritable(d: nat) { Ap(d) == 1 }
  predicate UserExecutable(d: nat) { UserAccess(d) && Xn(d) < 2 }
  predicate KernelExecutable(d: nat) { Xn(d) % 2 == 0 }
  /** Writable at all: EL1 may write unless the AP bits say read-only. */
  predicate Writable(d: nat) { Ap(d) < 2 }

  // ---- what the predicates and extractors read back ----

  /** The fields below bit 12 are those of the attribute. */
  predicate HasAttr(d: nat, t: Attr) {
    && Ap(d) == AttrAp(t) && MemoryType(d) == t.low / 4 % 8 && Shareability(d) == t.low / 256 % 4
    && (AccessFlag(d) <==> t.low / 0x400 % 2 == 1) && (Plain(d) <==> t.low / 32 % 2 == 0 && t.low / 0x800 % 2 == 0)
  }

  lemma LowFields(above: nat, low: nat, tag: nat, d: nat)
    requires low < PAGE_SIZE && low % 4 == 0 && tag < 4 && d == above * PAGE_SIZE + low + tag
    ensures d % 4 == tag && Ap(d) == low / 64 % 4
    ensures MemoryType(d) == low / 4 % 8 && Shareability(d) == low / 256 % 4
    ensures (AccessFlag(d) <==> low / 0x400 % 2 == 1) && (Plain(d) <==> low / 32 % 2 == 0 && low / 0x800 % 2 == 0)
  {
    var w := low / 4;
    Quotient(low, 4);
    RemainderIs(d, 4, above * 1024 + w, tag);
    LowField(above, w, tag, d, 16, 4, 16);
    LowField(above, w, tag, d, 1, 8, 128);
    LowField(above, w, tag, d, 64, 4, 4);
    LowField(above, w, tag, d, 0x100, 2, 2);
    LowField(above, w, tag, d, 8, 2, 64);
    LowField(above, w, tag, d, 0x200, 2, 1);
  }

  /** A field of `width` values at the multiple 4 * m, with room for `more` of them below bit 12. */
  lemma {:induction false} LowField(above: nat, w: nat, tag: nat, d: nat, m: nat, width: nat, more: nat)
    requires 0 < m && 0 < width && PAGE_SIZE == more * width * (4 * m) && tag < 4
    requires d == above * PAGE_SIZE + 4 * w + tag
    ensures d / (4 * m) % width == (4 * w) / (4 * m) % width
  {
    var q, unit := w / m, 4 * m;
    Quotient(w, m);
    assert 4 * w == q * unit + 4 * (w % m);
    RemainderIs(4 * w, unit, q, 4 * (w % m));
    Regroup(above, more * width, unit, q);
    RemainderIs(d, unit, above * (more * width) + q, 4 * (w % m) + tag);
    Quotient(q, width);
    Regroup(above, more, width, q / width);
    RemainderIs(above * (more * width) + q, width, above * more + q / width, q % width);
  }

  lemma Quotient(x: nat, d: nat)
    requires 0 < d
    ensures x == x / d * d + x % d
  {
  }

  lemma Regroup(a: nat, r: nat, u: nat, q: nat)
    ensures (a * r + q) * u == a * (r * u) + q * u
  {
  }

  lemma HighFields(p: nat, xn: nat, r: nat, d: nat)
    requires p % PAGE_SIZE == 0 && p < U48 && xn < 4 && r < PAGE_SIZE && d == xn * PXN + p + r
    ensures Xn(d) == xn && DescAddress(d) == p
  {
    var q := p / PAGE_SIZE;
    RemainderIs(d, PXN, xn, p + r);
    RemainderIs(d, PAGE_SIZE, xn * 0x200_0000_0000 + q, r);
    RemainderIs(xn * 0x200_0000_0000 + q, 0x10_0000_0000, xn * 32, q);
  }

  lemma BlockField(p: nat, xn: nat, r: nat, d: nat)
    requires p % BLOCK_SIZE == 0 && p < U48 && xn < 4 && r < PAGE_SIZE && d == xn * PXN + p + r
    ensures BlockAddress(d) == p
  {
    var b := p / BLOCK_SIZE;
    RemainderIs(d, BLOCK_SIZE, xn * 0x1_0000_0000 + b, r);
    RemainderIs(xn * 0x1_0000_0000 + b, 0x8000000, xn * 32, b);
  }

  lemma TableDescIs(p: nat)
    requires p % PAGE_SIZE == 0 && p < U48
    ensures IsTable(TableDesc(p)) && !IsBlock(TableDesc(p)) && DescAddress(TableDesc(p)) == p
  {
    LowFields(p / PAGE_SIZE, 0, 3, p + 3);
    HighFields(p, 0, 3, p + 3);
  }

  lemma BlockDescIs(p: nat, t: Attr)
    requires p % BLOCK_SIZE == 0 && p < U48 && AttrValid(t)
    ensures var d := BlockDesc(p, t);
      IsBlock(d) && !IsTable(d) && BlockAddress(d) == p && Xn(d) == t.xn && HasAttr(d, t)
  {
    var d := BlockDesc(p, t);
    BlockIsPages(p);
    LowFields(t.xn * 0x200_0000_0000 + p / PAGE_SIZE, t.low, 1, d);
    HighFields(p, t.xn, t.low + 1, d);
    BlockField(p, t.xn, t.low + 1, d);
  }

  lemma BlockIsPages(p: nat)
    requires p % BLOCK_SIZE == 0
    ensures p % PAGE_SIZE == 0 && p == p / PAGE_SIZE * PAGE_SIZE && p == p / BLOCK_SIZE * BLOCK_SIZE
  {
    var b := p / BLOCK_SIZE;
    RemainderIs(p, PAGE_SIZE, b * 512, 0);
  }

  lemma PageDescIs(p: nat, t: Attr)
    requires p % PAGE_SIZE == 0 && p < U48 && AttrValid(t)
    ensures var d := PageDesc(p, t);
      IsTable(d) && !IsBlock(d) && DescAddress(d) == p && Xn(d) == t.xn && HasAttr(d, t)
  {
    var d := PageDesc(p, t);
    LowFields(t.xn * 0x200_0000_0000 + p / PAGE_SIZE, t.low, 3, d);
    HighFields(p, t.xn, t.low + 3, d);
  }

  // ---- the walk ----

  /** Table memory: the contents of the tables by their address. */
  type Memory = map<nat, seq<nat>>

  function Entry(mem: Memory, table: nat, index: nat): nat {
    if table in mem && index < |mem[table]| then mem[table][index] else 0
  }

  datatype Translation = Unmapped | Mapped(physical: nat, descriptor: nat, level: nat)

  /** Level 3 of a walk, given the level 2 descriptor. */
  function Walk3(mem: Memory, d2: nat, address: nat): (r: Translation)
  {
    var d3 := Entry(mem, DescAddress(d2), L3Index(address));
    if !IsTable(d3) then Unmapped else Mapped(DescAddress(d3) + address % PAGE_SIZE, d3, 3)
  }

  /** Levels 2 and 3 of a walk, given the level 2 descriptor. */
  function Walk2(mem: Memory, d2: nat, address: nat): (r: Translation)
  {
    if IsBlock(d2) then Mapped(BlockAddress(d2) + address % BLOCK_SIZE, d2, 2)
    else if !IsTable(d2) then Unmapped
    else Walk3(mem, d2, address)
  }

  /** A translation that the hardware uses: one whose access flag is set. */
  function Flagged(r: Translation): Translation {
    if r.Mapped? && AccessFlag(r.descriptor) then r else Unmapped
  }

  /** The hardware's walk from a root table. */
  function Walk(mem: Memory, root: nat, address: nat): (r: Translation)
  {
    var d1 := Entry(mem, root, L1Index(address));
    if !IsTable(d1) then Unmapped else Flagged(Walk2(mem, Entry(mem, DescAddress(d1), L2Index(address)), address))
  }
}

/** The shifts and masks of arch/arm64/mmu.c are the arithmetic of module Mmu. */
module MmuMasks {
  import opened Bits
  import opened Mmu

  const TAG_MASK := 3
  const AP_MASK := 0xC0
  const XN_MASK := 0x60_0000_0000_0000
  const ADDR_MASK := 0x0000_ffff_ffff_f000
  const BLOCK_ADDR_MASK := 0x0000_ffff_ffe0_0000
  const NOT_PAGE_MASK := 0xffff_ffff_ffff_f000
  const NOT_BLOCK_MASK := 0xffff_ffff_ffe0_0000

  lemma {:induction false} IndexMasks(address: nat)
    ensures And(address / L1_SIZE, ENTRIES - 1) == L1Index(address)
    ensures And(address / BLOCK_SIZE, ENTRIES - 1) == L2Index(address)
    ensures And(address / PAGE_SIZE, ENTRIES - 1) == L3Index(address)
  {
    Pow2Values();
    AndLowMask(address / L1_SIZE, 9);
    AndLowMask(address / BLOCK_SIZE, 9);
    AndLowMask(address / PAGE_SIZE, 9);
  }

  lemma {:induction false} FieldMasks(d: nat)
    ensures And(d, TAG_MASK) == d % 4
    ensures And(d, AP_MASK) == Ap(d) * 64
    ensures And(d, XN_MASK) == Xn(d) * PXN
    ensures And(d, ADDR_MASK) == DescAddress(d)
    ensures And(d, BLOCK_ADDR_MASK) == BlockAddress(d)
  {
    Pow2Values();
    AndLowMask(d, 2);
    AndFieldMask(d, 6, 2, AP_MASK);
    AndFieldMask(d, 53, 2, XN_MASK);
    AndFieldMask(d, 12, 36, ADDR_MASK);
    AndFieldMask(d, 21, 27, BLOCK_ADDR_MASK);
  }

  /** Masking a physical address below 2^48 rounds it down. */
  lemma {:induction false} PageMask(p: nat)
    requires p < U48
    ensures And(p, NOT_PAGE_MASK) == p / PAGE_SIZE * PAGE_SIZE
  {
    Pow2Values();
    AndFieldMask(p, 12, 52, NOT_PAGE_MASK);
    Below(p / PAGE_SIZE, 0x10_0000_0000_0000);
  }

  lemma {:induction false} BlockMask(p: nat)
    requires p < U48
    ensures And(p, NOT_BLOCK_MASK) == p / BLOCK_SIZE * BLOCK_SIZE
  {
    Pow2Values();
    AndFieldMask(p, 21, 43, NOT_BLOCK_MASK);
    Below(p / BLOCK_SIZE, 0x800_0000_0000);
  }

  lemma Below(x: nat, m: nat)
    requires x < m
    ensures x % m == x
  {
  }

  /** Address, attributes and tag occupy different bits. */
  lemma {:induction false} OrDescriptor(q: nat, t: Attr, tag: nat)
    requires q < 0x10_0000_0000 && AttrValid(t) && tag < 4
    ensures Or(Or(q * PAGE_SIZE, AttrWord(t)), tag) == q * PAGE_SIZE + AttrWord(t) + tag
  {
    OrHigh53(4096 * q, t.xn, t.low);
    OrLow12(q, t.low);
    var word := t.xn * (PXN / 4) + q * 1024 + t.low / 4;
    assert t.low == 4 * (t.low / 4);
    OrLow2(word, tag);
  }

  /** The descriptor constructors, as the source writes them. */
  lemma {:induction false} TableDescMasks(p: nat)
    requires p < U48
    ensures Or(Or(And(p, NOT_PAGE_MASK), 1), 2) == TableDesc(p)
  {
    PageMask(p);
    OrOneTwo(p / PAGE_SIZE * 1024);
  }

  lemma {:induction false} BlockDescMasks(p: nat, t: Attr)
    requires p < U48 && AttrValid(t)
    ensures Or(Or(And(p, NOT_BLOCK_MASK), AttrWord(t)), 1) == BlockDesc(p, t)
  {
    BlockMask(p);
    var b := p / BLOCK_SIZE;
    assert b * BLOCK_SIZE == b * 512 * PAGE_SIZE;
    OrDescriptor(b * 512, t, 1);
  }

  lemma {:induction false} PageDescMasks(p: nat, t: Attr)
    requires p < U48 && AttrValid(t)
    ensures Or(Or(And(p, NOT_PAGE_MASK), AttrWord(t)), 3) == PageDesc(p, t)
  {
    PageMask(p);
    OrDescriptor(p / PAGE_SIZE, t, 3);
  }
}
