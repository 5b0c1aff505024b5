/** The loop of validate_region (kernel/memory/vm.c) without the tables: whatever the look at an
    address says and however far the next step goes. */
module RegionScan {

  datatype Outcome = Failed | Passed(blocks: nat, pages: nat, guards: nat)

  function Plus(r: Outcome, blocks: nat, pages: nat, guards: nat): Outcome {
    if r.Failed? then Failed else Passed(r.blocks + blocks, r.pages + pages, r.guards + guards)
  }

  lemma PlusTwice(r: Outcome, c: Outcome, blocks: nat, pages: nat, guards: nat)
    requires c.Passed?
    ensures Plus(Plus(r, c.blocks, c.pages, c.guards), blocks, pages, guards) ==
      Plus(r, blocks + c.blocks, pages + c.pages, guards + c.guards)
  {
  }

  /** The loop from va on, backed from pa. */
  function Scan(look: (nat, nat) -> Outcome, step: nat -> nat, va: nat, pa: nat, remaining: nat): (r: Outcome)
    decreases remaining
  {
    if remaining == 0 then Passed(0, 0, 0)
    else if !(0 < step(va) <= remaining) || look(va, pa).Failed? then Failed
    else
      var c, n := look(va, pa), step(va);
      Plus(Scan(look, step, va + n, pa + n, remaining - n), c.blocks, c.pages, c.guards)
  }

  lemma {:induction false} ScanStep(look: (nat, nat) -> Outcome, step: nat -> nat, va: nat, pa: nat, remaining: nat)
    requires 0 < step(va) <= remaining
    ensures var c, n := look(va, pa), step(va);
      Scan(look, step, va, pa, remaining) ==
        if c.Failed? then Failed
        else Plus(Scan(look, step, va + n, pa + n, remaining - n), c.blocks, c.pages, c.guards)
  {
  }

  /** Position va with `remaining` bytes left is one that the loop can be at, and a step leads to another. */
  ghost predicate Fits(at: (nat, nat) -> bool, step: nat -> nat) {
    forall va: nat, remaining: nat {:trigger GoesOn(at, step, va, remaining)} ::
      at(va, remaining) && remaining > 0 ==> GoesOn(at, step, va, remaining)
  }

  predicate GoesOn(at: (nat, nat) -> bool, step: nat -> nat, va: nat, remaining: nat) {
    0 < step(va) <= remaining && at(va + step(va), remaining - step(va))
  }

  /** Every address of a range that passes is passed by the step of an address p that was looked at. */
  lemma {:induction false} Visit(look: (nat, nat) -> Outcome, step: nat -> nat, at: (nat, nat) -> bool, va: nat,
      pa: nat, remaining: nat, a: nat)
    returns (p: nat, q: nat, left: nat)
    requires Fits(at, step) && at(va, remaining)
    requires Scan(look, step, va, pa, remaining).Passed? && va <= a < va + remaining
    ensures at(p, left) && left > 0 && p + left == va + remaining
    ensures va <= p <= a < p + step(p) && va + q == p + pa
    ensures look(p, q).Passed? && look(p, q).guards <= Scan(look, step, va, pa, remaining).guards
    decreases remaining
  {
    assert GoesOn(at, step, va, remaining);
    var n := step(va);
    if a < va + n {
      p, q, left := va, pa, remaining;
    } else {
      p, q, left := Visit(look, step, at, va + n, pa + n, remaining - n, a);
    }
  }

  /** A guard page that was counted was looked at. */
  lemma {:induction false} VisitGuard(look: (nat, nat) -> Outcome, step: nat -> nat, va: nat, pa: nat, remaining: nat)
    returns (p: nat, q: nat)
    requires Scan(look, step, va, pa, remaining).Passed? && Scan(look, step, va, pa, remaining).guards > 0
    ensures look(p, q).Passed? && look(p, q).guards > 0
    decreases remaining
  {
    var n := step(va);
    if look(va, pa).guards > 0 {
      p, q := va, pa;
    } else {
      p, q := VisitGuard(look, step, va + n, pa + n, remaining - n);
    }
  }

  function Sum(a: Outcome, b: Outcome): (r: Outcome)
    requires a.Passed? && b.Passed?
    ensures r.Passed?
  {
    Passed(a.blocks + b.blocks, a.pages + b.pages, a.guards + b.guards)
  }

  /** The loop stands at va, has counted `done`, and the whole of it has the outcome o. */
  ghost predicate Scanning(look: (nat, nat) -> Outcome, step: nat -> nat, at: (nat, nat) -> bool, o: Outcome,
      done: Outcome, va: int, pa: int, remaining: int) {
    && va >= 0 && pa >= 0 && remaining >= 0 && at(va, remaining)
    && done.Passed? && o == Plus(Scan(look, step, va, pa, remaining), done.blocks, done.pages, done.guards)
  }

  lemma {:induction false} ScanningStep(look: (nat, nat) -> Outcome, step: nat -> nat, at: (nat, nat) -> bool,
      o: Outcome, done: Outcome, va: nat, pa: nat, remaining: nat)
    requires Fits(at, step) && Scanning(look, step, at, o, done, va, pa, remaining) && remaining > 0
    ensures var c, n := look(va, pa), step(va);
      if c.Failed? then o == Failed
      else n <= remaining && Scanning(look, step, at, o, Sum(done, c), va + n, pa + n, remaining - n)
  {
    assert GoesOn(at, step, va, remaining);
    ScanStep(look, step, va, pa, remaining);
  }

  lemma {:induction false} NothingLeft(look: (nat, nat) -> Outcome, step: nat -> nat, at: (nat, nat) -> bool,
      o: Outcome, done: Outcome, va: int, pa: int, remaining: int)
    requires Scanning(look, step, at, o, done, va, pa, remaining) && remaining <= 0
    ensures o == done
  {
  }

  /** What is counted from pos(j) on and what `sum` says of the looks before it make the same total for
      every j of a row of positions that pass. */
  lemma {:induction false} Conserved(look: (nat, nat) -> Outcome, step: nat -> nat, pos: nat -> nat,
      sum: nat -> Outcome, i: nat, n: nat, end: nat)
    requires i <= n && pos(n) <= end && forall j: nat :: i <= j < n ==> InRow(look, step, pos, sum, j)
    requires sum(n).Passed?
    ensures pos(i) <= end && sum(i).Passed?
    ensures Total(Scan(look, step, pos(i), pos(i), end - pos(i)), sum(i)) ==
      Total(Scan(look, step, pos(n), pos(n), end - pos(n)), sum(n))
    decreases n - i
  {
    if i < n {
      Conserved(look, step, pos, sum, i + 1, n, end);
      assert InRow(look, step, pos, sum, i);
      var c := look(pos(i), pos(i));
      ScanStep(look, step, pos(i), pos(i), end - pos(i));
      PlusTwice(Scan(look, step, pos(i + 1), pos(i + 1), end - pos(i + 1)), c, sum(i).blocks, sum(i).pages,
                sum(i).guards);
    }
  }

  /** The look at position j passes and leads to the next position and the next sum. */
  ghost predicate InRow(look: (nat, nat) -> Outcome, step: nat -> nat, pos: nat -> nat, sum: nat -> Outcome, j: nat) {
    var c := look(pos(j), pos(j));
    && c.Passed? && sum(j).Passed? && sum(j + 1) == Plus(sum(j), c.blocks, c.pages, c.guards)
    && 0 < step(pos(j)) && pos(j + 1) == pos(j) + step(pos(j))
  }

  /** A row of blocks that pass. */
  lemma {:induction false} RowOfBlocks(look: (nat, nat) -> Outcome, step: nat -> nat, pos: nat -> nat, n: nat)
    requires forall j: nat :: j < n ==> BlockAt(look, step, pos, j)
    ensures pos(0) <= pos(n) && Scan(look, step, pos(0), pos(0), pos(n) - pos(0)) == Passed(n, 0, 0)
  {
    var sum := (j: nat) => Passed(j, 0, 0);
    forall j: nat | j < n ensures InRow(look, step, pos, sum, j) {
      assert BlockAt(look, step, pos, j);
    }
    Conserved(look, step, pos, sum, 0, n, pos(n));
  }

  /** The same from va on over `remaining` bytes. */
  lemma {:induction false} BlocksFrom(look: (nat, nat) -> Outcome, step: nat -> nat, pos: nat -> nat, n: nat, va: nat,
      remaining: nat)
    requires (forall j: nat :: j < n ==> BlockAt(look, step, pos, j)) && pos(0) == va && pos(n) == va + remaining
    ensures Scan(look, step, va, va, remaining) == Passed(n, 0, 0)
  {
    RowOfBlocks(look, step, pos, n);
  }

  predicate BlockAt(look: (nat, nat) -> Outcome, step: nat -> nat, pos: nat -> nat, j: nat) {
    look(pos(j), pos(j)) == Passed(1, 0, 0) && 0 < step(pos(j)) && pos(j + 1) == pos(j) + step(pos(j))
  }

  /** A row of pages, some of them guards: g(j) guard pages come before page j. */
  lemma {:induction false} RowOfPages(look: (nat, nat) -> Outcome, step: nat -> nat, pos: nat -> nat, g: nat -> nat,
      n: nat, end: nat)
    requires pos(n) <= end && g(0) == 0 && (forall j: nat :: j <= n ==> g(j) <= j)
    requires forall j: nat :: j < n ==> PageAt(look, step, pos, g, j)
    ensures pos(0) <= end && g(n) <= n
    ensures Scan(look, step, pos(0), pos(0), end - pos(0)) ==
      Plus(Scan(look, step, pos(n), pos(n), end - pos(n)), 0, n - g(n), g(n))
  {
    var sum := (j: nat) => Passed(0, if g(j) <= j then j - g(j) else 0, g(j));
    forall j: nat | j < n ensures InRow(look, step, pos, sum, j) {
      assert PageAt(look, step, pos, g, j) && g(j) <= j && g(j + 1) <= j + 1;
    }
    Conserved(look, step, pos, sum, 0, n, end);
    assert g(n) <= n;
  }

  /** The same from va on, with blocks behind the pages. */
  lemma {:induction false} PagesFrom(look: (nat, nat) -> Outcome, step: nat -> nat, pos: nat -> nat, g: nat -> nat,
      n: nat, va: nat, middle: nat, size: nat, blocks: nat)
    requires g(0) == 0 && (forall j: nat :: j <= n ==> g(j) <= j)
    requires forall j: nat :: j < n ==> PageAt(look, step, pos, g, j)
    requires pos(0) == va && pos(n) == middle <= va + size
    requires Scan(look, step, middle, middle, va + size - middle) == Passed(blocks, 0, 0)
    ensures g(n) <= n && Scan(look, step, va, va, size) == Passed(blocks, n - g(n), g(n))
  {
    RowOfPages(look, step, pos, g, n, va + size);
  }

  predicate PageAt(look: (nat, nat) -> Outcome, step: nat -> nat, pos: nat -> nat, g: nat -> nat, j: nat) {
    && look(pos(j), pos(j)) == (if g(j + 1) == g(j) then Passed(0, 1, 0) else Passed(0, 0, 1))
    && g(j) <= g(j + 1) <= g(j) + 1
    && 0 < step(pos(j)) && pos(j + 1) == pos(j) + step(pos(j))
  }

  function Total(o: Outcome, s: Outcome): Outcome
    requires s.Passed?
  {
    Plus(o, s.blocks, s.pages, s.guards)
  }

  /** A range in which every look passes, passes. */
  lemma {:induction false} AllPass(look: (nat, nat) -> Outcome, step: nat -> nat, at: (nat, nat) -> bool, va: nat,
      pa: nat, remaining: nat)
    requires Fits(at, step) && at(va, remaining)
    requires forall p: nat, q: nat :: va <= p < va + remaining && va + q == p + pa ==> look(p, q).Passed?
    ensures Scan(look, step, va, pa, remaining).Passed?
    decreases remaining
  {
    if remaining > 0 {
      assert GoesOn(at, step, va, remaining);
      var n := step(va);
      assert look(va, pa).Passed?;
      AllPass(look, step, at, va + n, pa + n, remaining - n);
    }
  }
}
