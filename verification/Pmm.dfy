/** The physical page bitmap of kernel/memory/pmm.c: a set of used pages, and the bitmap that
    refines it. */
module Pmm {
  const PAGE_SIZE := 4096
  const RAM_BASE := 0x40000000
  const RAM_SIZE := 0x08000000
  const RAM_END := RAM_BASE + RAM_SIZE
  const TOTAL_PAGES := 32768
  const RAMFB_BASE := 0x46ffe000
  const RAMFB_END := 0x47200000

  /** Page p is the bytes from PageAddress(p) on. */
  function PageAddress(p: int): int {
    RAM_BASE + p * PAGE_SIZE
  }

  /** Page p shares at least one byte with [start, end). */
  predicate Overlaps(p: int, start: int, end: int) {
    start < end && PageAddress(p) < end && start < PageAddress(p) + PAGE_SIZE
  }

  /** The pages reserve_range marks, said by overlap alone; the empty range is special because an
      unaligned empty range still marks its page. */
  predicate Reserved(p: int, start: nat, end: nat) {
    && 0 <= p < TOTAL_PAGES
    && RAM_BASE < end && start < RAM_END
    && PageAddress(p) < end && start < PageAddress(p) + PAGE_SIZE
  }

  function ReservedPages(start: nat, end: nat): (r: set<int>)
    ensures forall p :: p in r <==> Reserved(p, start, end)
    ensures start < end ==> forall p :: 0 <= p < TOTAL_PAGES ==> (p in r <==> Overlaps(p, start, end))
  {
    set p | 0 <= p < TOTAL_PAGES && Reserved(p, start, end)
  }

  /** The lowest page index at or above `i` that is not used, or TOTAL_PAGES. */
  function LowestFree(used: set<int>, i: nat): (r: nat)
    requires i <= TOTAL_PAGES
    ensures i <= r <= TOTAL_PAGES
    ensures r < TOTAL_PAGES ==> r !in used
    ensures forall j :: i <= j < r ==> j in used
    decreases TOTAL_PAGES - i
  {
    if i == TOTAL_PAGES || i !in used then i else LowestFree(used, i + 1)
  }

  // ---- the bits of one byte ----

  /** `1U << k`, tabulated. */
  function Mask(k: nat): bv8
    requires k < 8
  {
    if k == 0 then 1 else if k == 1 then 2 else if k == 2 then 4 else if k == 3 then 8
    else if k == 4 then 16 else if k == 5 then 32 else if k == 6 then 64 else 128
  }

  lemma MaskIsShift(k: nat)
    requires k < 8
    ensures Mask(k) == (1 as bv8) << k
  {
  }

  predicate Bit(b: bv8, k: nat)
    requires k < 8
  {
    b & Mask(k) != 0
  }

  lemma SetBit(b: bv8, k: nat, j: nat)
    requires k < 8 && j < 8
    ensures Bit(b | Mask(k), j) <==> j == k || Bit(b, j)
  {
  }

  lemma ClearBit(b: bv8, k: nat, j: nat)
    requires k < 8 && j < 8
    ensures Bit(b & !Mask(k), j) <==> j != k && Bit(b, j)
  {
  }

  // ---- the bitmap ----

  predicate PageUsed(bits: seq<bv8>, p: int)
    requires |bits| == TOTAL_PAGES / 8
  {
    0 <= p < TOTAL_PAGES && Bit(bits[p / 8], p % 8)
  }

  /** The set of used pages that a bitmap stands for. */
  function UsedSet(bits: seq<bv8>): (r: set<int>)
    requires |bits| == TOTAL_PAGES / 8
    ensures forall p :: p in r <==> PageUsed(bits, p)
  {
    set p | 0 <= p < TOTAL_PAGES && PageUsed(bits, p)
  }

  lemma SetPageBit(bits: seq<bv8>, p: int, b: bv8, q: int)
    requires |bits| == TOTAL_PAGES / 8 && 0 <= p < TOTAL_PAGES && 0 <= q < TOTAL_PAGES
    requires b == bits[p / 8] | Mask(p % 8)
    ensures PageUsed(bits[p / 8 := b], q) <==> q == p || PageUsed(bits, q)
  {
    SetBit(bits[p / 8], p % 8, q % 8);
  }

  lemma ClearPageBit(bits: seq<bv8>, p: int, b: bv8, q: int)
    requires |bits| == TOTAL_PAGES / 8 && 0 <= p < TOTAL_PAGES && 0 <= q < TOTAL_PAGES
    requires b == bits[p / 8] & !Mask(p % 8)
    ensures PageUsed(bits[p / 8 := b], q) <==> q != p && PageUsed(bits, q)
  {
    ClearBit(bits[p / 8], p % 8, q % 8);
  }

  /** Setting the bit of a free page adds that page to the set and one to its size. */
  lemma MarkUsed(bits: seq<bv8>, p: int, b: bv8)
    requires |bits| == TOTAL_PAGES / 8 && 0 <= p < TOTAL_PAGES && !PageUsed(bits, p)
    requires b == bits[p / 8] | Mask(p % 8)
    ensures UsedSet(bits[p / 8 := b]) == UsedSet(bits) + {p}
    ensures |UsedSet(bits[p / 8 := b])| == |UsedSet(bits)| + 1
  {
    forall q | 0 <= q < TOTAL_PAGES
      ensures q in UsedSet(bits[p / 8 := b]) <==> q in UsedSet(bits) + {p}
    {
      SetPageBit(bits, p, b, q);
    }
    assert UsedSet(bits[p / 8 := b]) == UsedSet(bits) + {p};
  }

  lemma MarkFree(bits: seq<bv8>, p: int, b: bv8)
    requires |bits| == TOTAL_PAGES / 8 && 0 <= p < TOTAL_PAGES && PageUsed(bits, p)
    requires b == bits[p / 8] & !Mask(p % 8)
    ensures UsedSet(bits[p / 8 := b]) == UsedSet(bits) - {p}
    ensures |UsedSet(bits[p / 8 := b])| == |UsedSet(bits)| - 1
  {
    forall q | 0 <= q < TOTAL_PAGES
      ensures q in UsedSet(bits[p / 8 := b]) <==> q in UsedSet(bits) - {p}
    {
      ClearPageBit(bits, p, b, q);
    }
    assert UsedSet(bits[p / 8 := b]) == UsedSet(bits) - {p};
  }

  /** The pages from index `first` up to, not including, `last`. */
  function PagesBetween(first: int, last: int): (r: set<int>)
    ensures forall p :: p in r <==> first <= p < last
    decreases last - first
  {
    if first >= last then {} else PagesBetween(first, last - 1) + {last - 1}
  }

  function RoundDown(x: nat): (r: nat)
    ensures r <= x < r + PAGE_SIZE && r % PAGE_SIZE == 0
  {
    x - x % PAGE_SIZE
  }

  lemma RoundsToPage(x: nat)
    requires RAM_BASE <= x && x % PAGE_SIZE == 0
    ensures x == PageAddress((x - RAM_BASE) / PAGE_SIZE)
  {
  }

  lemma IndexOfPage(i: int)
    ensures (PageAddress(i) - RAM_BASE) / PAGE_SIZE == i
    ensures PageAddress(i + 1) == PageAddress(i) + PAGE_SIZE
  {
  }

  /** The set grew by the pages from `first` to before i. */
  ghost predicate Grew(start: set<int>, now: set<int>, first: int, i: int) {
    forall p :: p in now <==> p in start || first <= p < i
  }

  lemma GrowsByOne(start: set<int>, before: set<int>, now: set<int>, first: int, i: int)
    requires first <= i && Grew(start, before, first, i) && now == before + {i}
    ensures Grew(start, now, first, i + 1)
  {
  }

  lemma GrewToEnd(start: set<int>, now: set<int>, first: int, i: int, last: int)
    requires Grew(start, now, first, i) && (i == last || (i == first && last <= first))
    ensures now == start + PagesBetween(first, last)
  {
  }

  /** Clipping and rounding a range gives exactly the overlapping pages. */
  lemma ReservedIsBetween(start: nat, end: nat, first: int, last: int)
    requires RAM_BASE < end && start < RAM_END
    requires PageAddress(first) == RoundDown(if start < RAM_BASE then RAM_BASE else start)
    requires PageAddress(last) == RoundDown((if end > RAM_END then RAM_END else end) + PAGE_SIZE - 1)
    ensures PagesBetween(first, last) == ReservedPages(start, end)
    ensures 0 <= first && last <= TOTAL_PAGES
  {
    forall p
      ensures first <= p < last <==> Reserved(p, start, end)
    {
    }
  }

  class PageAllocator {
    const bitmap: array<bv8>
    var usedPages: nat

    ghost predicate Valid()
      reads this, bitmap
    {
      bitmap.Length == TOTAL_PAGES / 8 && usedPages == |UsedSet(bitmap[..])|
    }

    ghost function Used(): (r: set<int>)
      requires Valid()
      reads this, bitmap
      ensures forall p :: p in r ==> 0 <= p < TOTAL_PAGES
      ensures |r| == usedPages
    {
      UsedSet(bitmap[..])
    }

    /** pmm_init: exactly the pages of the kernel image and of the framebuffer are used. */
    constructor (kernelEnd: nat)
      ensures Valid() && fresh(bitmap)
      ensures Used() == ReservedPages(RAM_BASE, kernelEnd) + ReservedPages(RAMFB_BASE, RAMFB_END)
    {
      bitmap := new bv8[TOTAL_PAGES / 8](i => 0);
      usedPages := 0;
      new;
      assert UsedSet(bitmap[..]) == {};
      Reserve(RAM_BASE, kernelEnd);
      Reserve(RAMFB_BASE, RAMFB_END);
    }

    /** mark_page_used. */
    method Mark(p: nat)
      requires Valid() && p < TOTAL_PAGES
      modifies this, bitmap
      ensures Valid() && Used() == old(Used()) + {p}
    {
      var b := bitmap[p / 8] | Mask(p % 8);
      if !Bit(bitmap[p / 8], p % 8) {
        MarkUsed(bitmap[..], p, b);
        bitmap[p / 8] := b;
        assert bitmap[..] == old(bitmap[..])[p / 8 := b];
        usedPages := usedPages + 1;
      } else {
        assert PageUsed(bitmap[..], p);
      }
    }

    /** mark_page_free. */
    method Release(p: nat)
      requires Valid() && p < TOTAL_PAGES
      modifies this, bitmap
      ensures Valid() && Used() == old(Used()) - {p}
    {
      var b := bitmap[p / 8] & !Mask(p % 8);
      if Bit(bitmap[p / 8], p % 8) {
        MarkFree(bitmap[..], p, b);
        bitmap[p / 8] := b;
        assert bitmap[..] == old(bitmap[..])[p / 8 := b];
        usedPages := usedPages - 1;
      } else {
        assert !PageUsed(bitmap[..], p);
      }
    }

    /** reserve_range marks exactly the overlapping pages. */
    method Reserve(start: nat, end: nat)
      requires Valid()
      modifies this, bitmap
      ensures Valid() && Used() == old(Used()) + ReservedPages(start, end)
    {
      if end <= RAM_BASE || start >= RAM_END {
        assert ReservedPages(start, end) == {};
        assert Used() == Used() + {};
        return;
      }
      var low := RoundDown(if start < RAM_BASE then RAM_BASE else start);
      var high := RoundDown((if end > RAM_END then RAM_END else end) + PAGE_SIZE - 1);
      ghost var first, last := (low - RAM_BASE) / PAGE_SIZE, (high - RAM_BASE) / PAGE_SIZE;
      RoundsToPage(low);
      RoundsToPage(high);
      ReservedIsBetween(start, end, first, last);
      MarkPages(low, high, first, last);
    }

    /** The loop of reserve_range over page-aligned addresses. */
    method MarkPages(low: nat, high: nat, ghost first: int, ghost last: int)
      requires Valid() && low == PageAddress(first) && high == PageAddress(last) && 0 <= first && last <= TOTAL_PAGES
      modifies this, bitmap
      ensures Valid() && Used() == old(Used()) + PagesBetween(first, last)
    {
      var current := low;
      ghost var i, start := first, Used();
      while current < high
        invariant Valid() && current == PageAddress(i) && first <= i && (i <= last || i == first)
        invariant Grew(start, Used(), first, i)
      {
        ghost var before := Used();
        IndexOfPage(i);
        var page := (current - RAM_BASE) / PAGE_SIZE;
        Mark(page);
        GrowsByOne(start, before, Used(), first, page);
        current := current + PAGE_SIZE;
        i := i + 1;
      }
      GrewToEnd(start, Used(), first, i, last);
    }

    /** pmm_alloc_page: the address of the lowest free page, or 0. */
    method Alloc() returns (address: nat)
      requires Valid()
      modifies this, bitmap
      ensures Valid()
      ensures var p := LowestFree(old(Used()), 0);
        if p == TOTAL_PAGES then address == 0 && Used() == old(Used())
        else address == PageAddress(p) && Used() == old(Used()) + {p}
    {
      for i := 0 to TOTAL_PAGES
        invariant Valid() && Used() == old(Used())
        invariant LowestFree(Used(), i) == LowestFree(Used(), 0)
      {
        if !Bit(bitmap[i / 8], i % 8) {
          assert !PageUsed(bitmap[..], i);
          Mark(i);
          return RAM_BASE + i * PAGE_SIZE;
        }
        assert PageUsed(bitmap[..], i);
      }
      address := 0;
    }

    /** pmm_free_page: addresses outside RAM or inside a page are ignored. */
    method Free(address: nat)
      requires Valid()
      modifies this, bitmap
      ensures Valid()
      ensures if RAM_BASE <= address < RAM_END && address % PAGE_SIZE == 0
        then Used() == old(Used()) - {(address - RAM_BASE) / PAGE_SIZE}
        else Used() == old(Used())
    {
      if address < RAM_BASE || address >= RAM_END || address % PAGE_SIZE != 0 {
        return;
      }
      Release((address - RAM_BASE) / PAGE_SIZE);
    }
  }
}
