/** Tear-down of the page tables below a list of VMAs (free_pgtables and free_p?d_range), for any
    number of levels.  Floors and ceilings are words, and 0 as a ceiling means the top. */
module FreePgtables {
  import opened Words

  /** The table of level `level` covering [base, base + spans[level]). */
  datatype Table = Table(level: int, base: int)

  /** A VMA covers [start, end); the word 0 as `end` would be the top of the address space. */
  datatype Vma = Vma(start: int, end: int)

  function End(g: Geometry, t: Table): int
    requires 0 <= t.level < |g.spans|
  { t.base + g.spans[t.level] }

  ghost predicate WellPlaced(g: Geometry, t: Table)
    requires g.Valid()
  {
    1 <= t.level < g.Root() && 0 <= t.base && t.base % g.spans[t.level] == 0 && End(g, t) <= g.word
  }

  /** The table whose entry points at t. */
  function Parent(g: Geometry, t: Table): Table
    requires g.Valid() && 1 <= t.level < g.Root() - 1
  { Table(t.level + 1, AlignDown(t.base, g.spans[t.level + 1])) }

  ghost predicate Inside(g: Geometry, t: Table, u: Table)
    requires 0 <= t.level < |g.spans| && 0 <= u.level < |g.spans|
  { t != u && u.base <= t.base && End(g, t) <= End(g, u) && t.level < u.level }

  /** A table may go exactly when its whole span lies in [floor, top). */
  ghost predicate Freeable(g: Geometry, t: Table, floor: int, top: int)
    requires 0 <= t.level < |g.spans|
  { floor <= t.base && End(g, t) <= top }

  ghost predicate Overlaps(g: Geometry, t: Table, a: int, e: int)
    requires 0 <= t.level < |g.spans|
  { t.base < e && a < End(g, t) }

  ghost predicate Sorted(g: Geometry, vmas: seq<Vma>) {
    && (forall i {:trigger vmas[i]} :: 0 <= i < |vmas| ==> g.Word(vmas[i].start) && g.Word(vmas[i].end) && vmas[i].start < g.Top(vmas[i].end))
    && (forall i, j {:trigger vmas[i], vmas[j]} :: 0 <= i < j < |vmas| ==> g.Top(vmas[i].end) <= vmas[j].start)
  }

  /** Every table that could be freed overlaps [a, e): no other user of the space below it. */
  ghost predicate Covered(g: Geometry, present: set<Table>, floor: int, top: int, a: int, e: int)
    requires g.Valid() && Shape(g, present)
  {
    forall t :: t in present && Freeable(g, t, floor, top) ==> Overlaps(g, t, a, e)
  }

  ghost predicate CoveredByList(g: Geometry, present: set<Table>, floor: int, top: int, vmas: seq<Vma>)
    requires g.Valid() && Shape(g, present)
  {
    forall t :: t in present && Freeable(g, t, floor, top) ==>
      exists i :: 0 <= i < |vmas| && Overlaps(g, t, vmas[i].start, g.Top(vmas[i].end))
  }

  ghost predicate Shape(g: Geometry, present: set<Table>)
    requires g.Valid()
  { forall t :: t in present ==> WellPlaced(g, t) }

  /** Every table hangs below its parent; the root itself is not a member. */
  ghost predicate Tree(g: Geometry, present: set<Table>)
    requires g.Valid()
  {
    && Shape(g, present)
    && forall t :: t in present && t.level < g.Root() - 1 ==> Parent(g, t) in present
  }

  /** An aligned table lies before, in or after an aligned block at least as large. */
  lemma BlockOrder(g: Geometry, t: Table, l: int, base: int)
    requires g.Valid() && WellPlaced(g, t) && t.level <= l < |g.spans| && base % g.spans[l] == 0
    ensures End(g, t) <= base || (base <= t.base && End(g, t) <= base + g.spans[l]) || base + g.spans[l] <= t.base
    ensures t.base % g.spans[t.level] == 0 && End(g, t) % g.spans[t.level] == 0 && base % g.spans[t.level] == 0
  {
    var s, big := g.spans[t.level], g.spans[l];
    assert g.Nested(t.level, l);
    DivisorOfMultiple(base, s, big);
    SumOfMultiples(t.base, s, s);
    SumOfMultiples(base, big, s);
    if t.base < base { MultiplesApart(t.base, base, s); }
    else if t.base < base + big { MultiplesApart(t.base, base + big, s); }
  }

  /** The parent's span holds the child's. */
  lemma ParentHolds(g: Geometry, t: Table)
    requires g.Valid() && WellPlaced(g, t) && t.level < g.Root() - 1
    ensures Parent(g, t).base % g.spans[t.level + 1] == 0
    ensures Inside(g, t, Parent(g, t))
  {
    AlignDownFacts(t.base, g.spans[t.level + 1]);
    BlockOrder(g, t, t.level + 1, Parent(g, t).base);
  }

  /** An aligned table with its end below a ceiling has it below the masked ceiling too. */
  lemma MaskedCeiling(g: Geometry, t: Table, l: int, top: int)
    requires g.Valid() && WellPlaced(g, t) && 0 <= l <= t.level && 0 <= top
    ensures End(g, t) <= top <==> End(g, t) <= AlignDown(top, g.spans[l])
    ensures 0 < End(g, t)
  {
    var s := g.spans[l];
    assert g.Nested(l, t.level);
    AlignDownFacts(top, s);
    DivisorOfMultiple(t.base, s, g.spans[t.level]);
    SumOfMultiples(t.base, g.spans[t.level], s);
    if AlignDown(top, s) < End(g, t) { MultiplesApart(AlignDown(top, s), End(g, t), s); }
  }

  /** The three tests at the end of free_pmd_range and free_pud_range decide Freeable. */
  function MayFree(g: Geometry, s: int, start: int, end: int, floor: int, ceiling: int): bool
    requires 0 < s
  {
    if start < floor then false
    else if ceiling != 0 && AlignDown(ceiling, s) == 0 then false
    else !(g.Dec(end) > g.Dec(if ceiling != 0 then AlignDown(ceiling, s) else 0))
  }

  lemma MayFreeIffFreeable(g: Geometry, t: Table, end: int, floor: int, ceiling: int)
    requires g.Valid() && WellPlaced(g, t) && g.Word(end) && g.Word(ceiling)
    requires t.base < g.Top(end) <= End(g, t)
    ensures MayFree(g, g.spans[t.level], t.base, end, floor, ceiling) <==> Freeable(g, t, floor, g.Top(ceiling))
  {
    var s := g.spans[t.level];
    if ceiling != 0 {
      MaskedCeiling(g, t, t.level, ceiling);
      AlignedAtMost(g, t, AlignDown(ceiling, s));
      AlignDownIs(ceiling, s);
      StartNonNegative(ceiling, s);
      assert 0 < s && End(g, t) == t.base + s <= g.word && 0 <= t.base;
      hide WellPlaced;
    }
  }

  /** An aligned bound holds part of the table only if it holds all of it. */
  lemma AlignedAtMost(g: Geometry, t: Table, c: int)
    requires g.Valid() && WellPlaced(g, t)
    ensures c % g.spans[t.level] == 0 && t.base < c ==> End(g, t) <= c
  {
    if c % g.spans[t.level] == 0 && t.base < c { MultiplesApart(t.base, c, g.spans[t.level]); }
  }

  /** Nothing is freed twice, and nothing is freed while a table inside it is left. */
  ghost predicate FreedInOrder(g: Geometry, present: set<Table>, freed: seq<Table>)
    requires g.Valid() && Shape(g, present)
  {
    && (forall i {:trigger freed[i]} :: 0 <= i < |freed| ==> 0 <= freed[i].level < |g.spans| && freed[i] !in present)
    && (forall i, j {:trigger freed[i], freed[j]} :: 0 <= i < j < |freed| ==> freed[i] != freed[j] && !Inside(g, freed[j], freed[i]))
    && (forall t, i {:trigger t in present, freed[i]} :: t in present && 0 <= i < |freed| ==> !Inside(g, t, freed[i]))
  }

  lemma FreeKeepsTree(g: Geometry, present: set<Table>, t: Table)
    requires g.Valid() && Tree(g, present) && t in present
    requires forall u :: u in present ==> !Inside(g, u, t)
    ensures Tree(g, present - {t})
  {
    forall u | u in present - {t} && u.level < g.Root() - 1
      ensures Parent(g, u) in present - {t}
    {
      ParentHolds(g, u);
    }
  }

  lemma FreeKeepsOrder(g: Geometry, present: set<Table>, freed: seq<Table>, t: Table)
    requires g.Valid() && Shape(g, present) && FreedInOrder(g, present, freed) && t in present
    requires forall u :: u in present ==> !Inside(g, u, t)
    ensures Shape(g, present - {t}) && FreedInOrder(g, present - {t}, freed + [t])
  {
    assert WellPlaced(g, t);
    assert 1 <= t.level < |g.spans|;
    hide WellPlaced, Inside;
  }

  /** t is below level l + 1, lies in [base, done), and may go. */
  ghost predicate Due(g: Geometry, t: Table, l: int, base: int, done: int, floor: int, top: int)
    requires 0 <= t.level < |g.spans|
  { t.level <= l && base <= t.base && End(g, t) <= done && Freeable(g, t, floor, top) }

  ghost function DueSet(g: Geometry, present: set<Table>, l: int, base: int, done: int, floor: int, top: int): set<Table>
    requires g.Valid() && Shape(g, present)
  { set t | t in present && Due(g, t, l, base, done, floor, top) }

  /** Every table that is due overlaps the range walked. */
  ghost predicate DueIsWalked(g: Geometry, present: set<Table>, l: int, base: int, done: int, floor: int, top: int, a: int, e: int)
    requires g.Valid() && Shape(g, present)
  { forall t :: t in present && Due(g, t, l, base, done, floor, top) ==> Overlaps(g, t, a, e) }

  /** The loop bounds already guarantee that every PTE table met may go. */
  ghost predicate PteTablesFree(g: Geometry, a: int, e: int, floor: int, top: int)
    requires g.Valid()
  { floor <= AlignDown(a, g.spans[1]) && AlignDown(e - 1, g.spans[1]) + g.spans[1] <= top }

  lemma AlignDownMonotone(a: int, b: int, s: int)
    requires 0 < s && a <= b
    ensures AlignDown(a, s) <= AlignDown(b, s)
  {
    AlignDownFacts(a, s);
    AlignDownFacts(b, s);
    if AlignDown(b, s) < AlignDown(a, s) { MultiplesApart(AlignDown(b, s), AlignDown(a, s), s); }
  }

  lemma PteTablesFreeWithin(g: Geometry, a: int, e: int, a': int, e': int, floor: int, top: int)
    requires g.Valid() && PteTablesFree(g, a, e, floor, top) && a <= a' && e' <= e
    ensures PteTablesFree(g, a', e', floor, top)
  {
    AlignDownMonotone(a, a', g.spans[1]);
    AlignDownMonotone(e' - 1, e - 1, g.spans[1]);
  }

  /** A table below a block of level m hangs below that block's own table. */
  lemma {:induction false} AncestorPresent(g: Geometry, present: set<Table>, t: Table, m: int, base: int)
    requires g.Valid() && Tree(g, present) && t in present && t.level <= m < g.Root() && base % g.spans[m] == 0
    requires base <= t.base && End(g, t) <= base + g.spans[m]
    ensures Table(m, base) in present
    decreases m - t.level
  {
    if t.level == m {
      assert t.base == base;
    } else {
      ParentHolds(g, t);
      BlockOrder(g, Parent(g, t), m, base);
      AncestorPresent(g, present, Parent(g, t), m, base);
    }
  }

  /** What is due up to the end of the next child block is what was due before it plus what is due in it. */
  lemma DueStep(g: Geometry, all: set<Table>, l: int, base: int, b: int, floor: int, top: int)
    requires g.Valid() && Shape(g, all) && 0 <= l < |g.spans| && b % g.spans[l] == 0 && base <= b
    ensures Shape(g, all - DueSet(g, all, l, base, b, floor, top))
    ensures (all - DueSet(g, all, l, base, b, floor, top)) - DueSet(g, all - DueSet(g, all, l, base, b, floor, top), l, b, b + g.spans[l], floor, top)
         == all - DueSet(g, all, l, base, b + g.spans[l], floor, top)
  {
    forall t | t in all && t.level <= l
      ensures End(g, t) <= b || (b <= t.base && End(g, t) <= b + g.spans[l]) || b + g.spans[l] <= t.base
      ensures t.base < End(g, t)
    {
      BlockOrder(g, t, l, b);
    }
    hide WellPlaced;
  }

  lemma AbsentBlockHasNoDue(g: Geometry, present: set<Table>, l: int, b: int, floor: int, top: int)
    requires g.Valid() && Tree(g, present) && 0 <= l < g.Root() && b % g.spans[l] == 0
    requires Table(l, b) !in present
    ensures DueSet(g, present, l, b, b + g.spans[l], floor, top) == {}
  {
    forall t | t in present && Due(g, t, l, b, b + g.spans[l], floor, top)
      ensures false
    {
      AncestorPresent(g, present, t, l, b);
    }
  }

  lemma ChildDueIsWalked(g: Geometry, all: set<Table>, p: set<Table>, l: int, base: int, s: int, floor: int, top: int,
                         a: int, e: int, b: int, a': int, e': int)
    requires g.Valid() && Shape(g, all) && Shape(g, p) && p <= all && 1 <= l < |g.spans|
    requires DueIsWalked(g, all, l, base, base + s, floor, top, a, e)
    requires base <= b && b + g.spans[l - 1] <= base + s
    requires (a' == a || a' == b) && e' == (if b + g.spans[l - 1] < e then b + g.spans[l - 1] else e)
    ensures DueIsWalked(g, p, l - 1, b, b + g.spans[l - 1], floor, top, a', e')
  {
    assert forall t :: t in p ==> WellPlaced(g, t) && t.base < End(g, t);
    hide WellPlaced;
  }

  /** After the walk over the children, everything due below level l is gone: a table starting at or
      after the last block walked would not overlap the range. */
  lemma WalkedAllDue(g: Geometry, all: set<Table>, l: int, base: int, done: int, limit: int, floor: int, top: int, a: int, e: int)
    requires g.Valid() && Shape(g, all) && 2 <= l < |g.spans|
    requires DueIsWalked(g, all, l, base, limit, floor, top, a, e)
    requires e <= done <= limit && done % g.spans[l - 1] == 0
    ensures DueSet(g, all, l - 1, base, done, floor, top) == DueSet(g, all, l - 1, base, limit, floor, top)
  {
    forall t | t in all && Due(g, t, l - 1, base, limit, floor, top)
      ensures End(g, t) <= done
    {
      assert Due(g, t, l, base, limit, floor, top);
      BlockOrder(g, t, l - 1, done);
    }
  }

  /** Once everything due below it is gone, the table of the block is the only thing left to decide. */
  lemma TableLast(g: Geometry, all: set<Table>, l: int, base: int, floor: int, top: int)
    requires g.Valid() && Tree(g, all) && 1 <= l < g.Root() && Table(l, base) in all
    ensures var t, end := Table(l, base), base + g.spans[l];
      var p := all - DueSet(g, all, l - 1, base, end, floor, top);
      && t in p && Shape(g, p)
      && (if Freeable(g, t, floor, top)
          then p - {t} == all - DueSet(g, all, l, base, end, floor, top) && forall u :: u in p ==> !Inside(g, u, t)
          else p == all - DueSet(g, all, l, base, end, floor, top))
  {
    var t, end := Table(l, base), base + g.spans[l];
    forall u | u in all
      ensures Due(g, u, l, base, end, floor, top) <==> Due(g, u, l - 1, base, end, floor, top) || (u == t && Freeable(g, t, floor, top))
      ensures Freeable(g, t, floor, top) && Inside(g, u, t) ==> Due(g, u, l - 1, base, end, floor, top)
      ensures u == t ==> !Due(g, u, l - 1, base, end, floor, top)
    {
      assert WellPlaced(g, u);
    }
    hide WellPlaced, Due, Inside, Freeable;
  }

  lemma NoLevelZero(g: Geometry, all: set<Table>, base: int, end: int, floor: int, top: int)
    requires g.Valid() && Tree(g, all)
    ensures DueSet(g, all, 0, base, end, floor, top) == {}
  {
  }

  /** free_pte_range tests nothing; the caller's bounds make its table free to go. */
  lemma PteTableFreeable(g: Geometry, a: int, e: int, floor: int, top: int)
    requires g.Valid() && a < e <= AlignDown(a, g.spans[1]) + g.spans[1] && PteTablesFree(g, a, e, floor, top)
    ensures Freeable(g, Table(1, AlignDown(a, g.spans[1])), floor, top)
  {
    AlignDownFacts(a, g.spans[1]);
    AlignDownUnique(e - 1, AlignDown(a, g.spans[1]), g.spans[1]);
  }

  /** Where the loop over one table's entries stands: at address a of child block b. */
  ghost predicate AtEntry(g: Geometry, l: int, start: int, addr: int, e: int, a: int, b: int)
    requires g.Valid() && 2 <= l < |g.spans|
  {
    && g.Word(a) && addr <= a < e <= start + g.spans[l]
    && b == AlignDown(a, g.spans[l - 1]) && (a == addr || a == b)
  }

  lemma EntryInTable(g: Geometry, l: int, start: int, addr: int, e: int, a: int, b: int)
    requires g.Valid() && 2 <= l < |g.spans| && 0 <= addr && start == AlignDown(addr, g.spans[l]) && AtEntry(g, l, start, addr, e, a, b)
    ensures b % g.spans[l - 1] == 0 && start <= b <= a < b + g.spans[l - 1] <= start + g.spans[l]
    ensures 0 <= start && (b + g.spans[l - 1]) % g.spans[l - 1] == 0
    ensures AlignDown(b + g.spans[l - 1], g.spans[l - 1]) == b + g.spans[l - 1]
  {
    AlignDownFacts(addr, g.spans[l]);
    assert g.Nested(l - 1, l);
    SubBlock(a, g.spans[l - 1], start, g.spans[l]);
    AlignDownFacts(a, g.spans[l - 1]);
    NextAligned(b, g.spans[l - 1]);
    AlignDownIs(addr, g.spans[l]);
    StartNonNegative(addr, g.spans[l]);
  }

  /** No table below the first entry's block is due, so the walk may start there. */
  lemma NothingDueBefore(g: Geometry, all: set<Table>, l: int, start: int, floor: int, top: int, addr: int, e: int)
    requires g.Valid() && Shape(g, all) && 2 <= l < |g.spans| && 0 <= addr < e <= start + g.spans[l] && start == AlignDown(addr, g.spans[l])
    requires g.Word(addr) && DueIsWalked(g, all, l, start, start + g.spans[l], floor, top, addr, e)
    ensures DueSet(g, all, l - 1, start, AlignDown(addr, g.spans[l - 1]), floor, top) == {}
  {
    EntryInTable(g, l, start, addr, e, addr, AlignDown(addr, g.spans[l - 1]));
    forall t | t in all && Due(g, t, l - 1, start, AlignDown(addr, g.spans[l - 1]), floor, top)
      ensures false
    {
      assert Due(g, t, l, start, start + g.spans[l], floor, top);
    }
  }

  /** One entry: the table's part below it may be handed to the next level, and what is gone after
      that is what was due up to the end of the entry. */
  lemma EntryStep(g: Geometry, all: set<Table>, l: int, start: int, floor: int, top: int, addr: int, e: int, a: int, b: int, next: int)
    requires g.Valid() && Tree(g, all) && 2 <= l < |g.spans| && 0 <= addr && start == AlignDown(addr, g.spans[l])
    requires AtEntry(g, l, start, addr, e, a, b) && next == (if b + g.spans[l - 1] < e then b + g.spans[l - 1] else e)
    requires DueIsWalked(g, all, l, start, start + g.spans[l], floor, top, addr, e)
    requires Tree(g, all - DueSet(g, all, l - 1, start, b, floor, top))
    ensures var p := all - DueSet(g, all, l - 1, start, b, floor, top); var done := b + g.spans[l - 1];
      && DueIsWalked(g, p, l - 1, b, done, floor, top, a, next)
      && p - DueSet(g, p, l - 1, b, done, floor, top) == all - DueSet(g, all, l - 1, start, done, floor, top)
      && (Table(l - 1, b) !in p ==> p == p - DueSet(g, p, l - 1, b, done, floor, top))
  {
    var p := all - DueSet(g, all, l - 1, start, b, floor, top);
    EntryInTable(g, l, start, addr, e, a, b);
    DueStep(g, all, l - 1, start, b, floor, top);
    forall t | t in all && Due(g, t, l - 1, start, start + g.spans[l], floor, top)
      ensures Due(g, t, l, start, start + g.spans[l], floor, top) && Overlaps(g, t, addr, e)
    {
    }
    ChildDueIsWalked(g, all, p, l, start, g.spans[l], floor, top, addr, e, b, a, next);
    if Table(l - 1, b) !in p {
      AbsentBlockHasNoDue(g, p, l - 1, b, floor, top);
      assert p - {} == p;
    }
  }

  /** The range after free_pgd_range's first adjustments, in numbers. */
  function TrimStart(g: Geometry, addr: int, floor: int): int
    requires g.Valid()
  { var a := AlignDown(addr, g.spans[1]); if a < floor then a + g.spans[1] else a }

  function TrimEnd(g: Geometry, e: int, top: int): int
    requires g.Valid()
  { if e > AlignDown(top, g.spans[1]) then e - g.spans[1] else e }

  /** The adjustments lose no table that may go. */
  lemma TrimKeeps(g: Geometry, t: Table, addr: int, e: int, floor: int, top: int)
    requires g.Valid() && WellPlaced(g, t) && 0 <= floor <= addr < e <= top <= g.word
    requires Freeable(g, t, floor, top) && Overlaps(g, t, addr, e)
    ensures End(g, t) <= AlignDown(top, g.spans[1])
    ensures TrimStart(g, addr, floor) < TrimEnd(g, e, top)
    ensures Overlaps(g, t, TrimStart(g, addr, floor), TrimEnd(g, e, top))
    ensures 0 < AlignDown(top, g.spans[1]) && TrimStart(g, addr, floor) < g.word
  {
    var s := g.spans[1];
    var a0, c := AlignDown(addr, s), AlignDown(top, s);
    assert g.Nested(1, t.level);
    AlignDownFacts(addr, s);
    AlignDownFacts(top, s);
    MaskedCeiling(g, t, 1, top);
    DivisorOfMultiple(t.base, s, g.spans[t.level]);
    SumOfMultiples(t.base, g.spans[t.level], s);
    MultiplesApart(t.base, End(g, t), s);
    if a0 < floor { MultiplesApart(a0, t.base, s); }
    if a0 < c { MultiplesApart(a0, c, s); }
  }

  lemma TrimKeepsAll(g: Geometry, all: set<Table>, addr: int, e: int, floor: int, top: int)
    requires g.Valid() && Tree(g, all) && 0 <= floor <= addr < e <= top <= g.word && Covered(g, all, floor, top, addr, e)
    ensures var a, e', c := TrimStart(g, addr, floor), TrimEnd(g, e, top), AlignDown(top, g.spans[1]);
      forall t :: t in all && Freeable(g, t, floor, top) ==> End(g, t) <= c && Overlaps(g, t, a, e') && a < e' && 0 < c && a < g.word
  {
    forall t | t in all && Freeable(g, t, floor, top)
      ensures var a, e', c := TrimStart(g, addr, floor), TrimEnd(g, e, top), AlignDown(top, g.spans[1]);
        End(g, t) <= c && Overlaps(g, t, a, e') && a < e' && 0 < c && a < g.word
    {
      TrimKeeps(g, t, addr, e, floor, top);
    }
  }

  /** What is left of the range satisfies what the walk relies on. */
  lemma TrimmedRange(g: Geometry, addr: int, e: int, floor: int, top: int)
    requires g.Valid() && 0 <= floor <= addr < e <= top <= g.word
    ensures var a, e', c := TrimStart(g, addr, floor), TrimEnd(g, e, top), AlignDown(top, g.spans[1]);
      && 0 <= a <= g.word && a % g.spans[1] == 0 && c <= top && floor <= a && e' <= e
      && (0 < c ==> 0 < e' <= c && (a < e' ==> PteTablesFree(g, a, e', floor, c)))
      && (top == g.word ==> c == g.word)
  {
    var s := g.spans[1];
    var a0, c := AlignDown(addr, s), AlignDown(top, s);
    assert g.FillsWord(1);
    AlignDownFacts(addr, s);
    AlignDownFacts(top, s);
    BlockFits(addr, s, g.word);
    NextAligned(a0, s);
    StartNonNegative(addr, s);
    StartNonNegative(top, s);
    AlignDownUnique(g.word, g.word, s);
    if 0 < c { MultiplesApart(0, c, s); }
    var a, e' := TrimStart(g, addr, floor), TrimEnd(g, e, top);
    AlignDownUnique(a, a, s);
    if 0 < c {
      AlignDownFacts(e' - 1, s);
      MultiplesApart(AlignDown(e' - 1, s), c, s);
    }
  }

  /** The word arithmetic of free_pgd_range computes those numbers. */
  lemma TrimWords(g: Geometry, addr: int, end: int, floor: int, ceiling: int)
    requires g.Valid() && g.Word(addr) && g.Word(end) && g.Word(floor) && g.Word(ceiling)
    requires floor <= addr < g.Top(end) <= g.Top(ceiling)
    ensures var s, a0, c := g.spans[1], AlignDown(addr, g.spans[1]), if ceiling == 0 then 0 else AlignDown(ceiling, g.spans[1]);
      var bound := AlignDown(g.Top(ceiling), s);
      && g.Word(a0) && g.Word(c)
      && g.Add(a0, s) == (if a0 + s == g.word then 0 else a0 + s)
      && (ceiling != 0 ==> bound == c)
      && (ceiling == 0 ==> bound == g.word)
      && (0 < bound ==> g.Top(c) == bound && (g.Dec(end) > g.Dec(c) <==> g.Top(end) > bound))
      && (0 < bound < g.Top(end) ==> g.Word(g.Add(end, -s)) && g.Top(g.Add(end, -s)) == g.Top(end) - s)
  {
    var s := g.spans[1];
    assert g.FillsWord(1);
    AlignDownFacts(addr, s);
    StartNonNegative(addr, s);
    BlockFits(addr, s, g.word);
    AlignDownUnique(g.word, g.word, s);
    AlignDownFacts(ceiling, s);
    StartNonNegative(ceiling, s);
    if AlignDown(addr, s) + s == g.word { SelfMod(g.word); } else { SmallMod(AlignDown(addr, s) + s, g.word); }
    var bound := AlignDown(g.Top(ceiling), s);
    if 0 < bound && g.Top(end) > bound {
      AlignDownIs(g.Top(ceiling), s);
      MultiplesApart(0, bound, s);
      SmallMod(end - s, g.word);
    }
  }

  /** The three early returns of free_pgd_range, in words. */
  predicate ReturnsEarly(g: Geometry, addr: int, end: int, floor: int, ceiling: int)
    requires g.Valid()
  {
    var s, a0 := g.spans[1], AlignDown(addr, g.spans[1]);
    var a := if a0 < floor then g.Add(a0, s) else a0;
    var c := if ceiling != 0 then AlignDown(ceiling, s) else 0;
    var e := if g.Dec(end) > g.Dec(c) then g.Add(end, -s) else end;
    (a0 < floor && a == 0) || (ceiling != 0 && c == 0) || a > g.Dec(e)
  }

  /** They are taken exactly if the range that is left is empty. */
  lemma ReturnsEarlyIfEmpty(g: Geometry, addr: int, end: int, floor: int, ceiling: int)
    requires g.Valid() && g.Word(addr) && g.Word(end) && g.Word(floor) && g.Word(ceiling)
    requires floor <= addr < g.Top(end) <= g.Top(ceiling)
    ensures ReturnsEarly(g, addr, end, floor, ceiling) <==> TrimEnd(g, g.Top(end), g.Top(ceiling)) <= TrimStart(g, addr, floor)
  {
    var s := g.spans[1];
    TrimWords(g, addr, end, floor, ceiling);
    AlignDownFacts(addr, s);
    AlignDownFacts(g.Top(ceiling), s);
    StartNonNegative(addr, s);
    TrimmedRange(g, addr, g.Top(end), floor, g.Top(ceiling));
    hide AlignDown, Geometry.Add;
  }

  lemma AllDueBelowRoot(g: Geometry, all: set<Table>, floor: int, top: int, c: int)
    requires g.Valid() && Tree(g, all) && 0 <= floor && c <= top <= g.word
    requires forall t :: t in all && Freeable(g, t, floor, top) ==> End(g, t) <= c
    ensures forall t :: t in all - DueSet(g, all, g.Root() - 1, 0, g.word, floor, c) <==> t in all && !Freeable(g, t, floor, top)
  {
  }

  lemma RootWalk(g: Geometry, all: set<Table>, floor: int, top: int, addr: int, e: int, c: int)
    requires g.Valid() && Tree(g, all) && 0 <= addr < e <= g.word && c <= top
    requires forall t :: t in all && Freeable(g, t, floor, top) ==> Overlaps(g, t, addr, e)
    ensures AlignDown(addr, g.spans[g.Root()]) == 0
    ensures DueIsWalked(g, all, g.Root(), 0, g.word, floor, c, addr, e)
  {
    SelfMod(g.word);
    SmallMod(addr, g.word);
  }

  lemma VmaOrder(g: Geometry, vmas: seq<Vma>, i: int, j: int)
    requires g.Valid() && Sorted(g, vmas) && 0 <= i < |vmas| && 0 <= j < |vmas|
    ensures vmas[i].start < g.Top(vmas[i].end)
    ensures i < j ==> g.Top(vmas[i].end) <= vmas[j].start
  {
  }

  /** The floor stays the same for every call while the ceiling is the next VMA, so when group
      [i, j) is reached, what may go below vmas[i] is gone and what may go below the new ceiling
      overlaps the group, whichever VMAs were gathered. */
  lemma GroupIsCovered(g: Geometry, all: set<Table>, p: set<Table>, vmas: seq<Vma>, i: int, j: int, floor: int, top: int, next: int)
    requires g.Valid() && Tree(g, all) && Tree(g, p) && Sorted(g, vmas) && 0 <= i < j <= |vmas|
    requires CoveredByList(g, all, floor, top, vmas)
    requires forall t :: t in p <==> t in all && !Freeable(g, t, floor, vmas[i].start)
    requires if j < |vmas| then next == vmas[j].start <= top else next == top
    ensures Covered(g, p, floor, next, vmas[i].start, g.Top(vmas[j - 1].end))
  {
    forall t | t in p && Freeable(g, t, floor, next)
      ensures Overlaps(g, t, vmas[i].start, g.Top(vmas[j - 1].end))
    {
      assert WellPlaced(g, t) && Freeable(g, t, floor, top);
      var v :| 0 <= v < |vmas| && Overlaps(g, t, vmas[v].start, g.Top(vmas[v].end));
      TableInGroup(g, vmas, t, v, i, j, next);
    }
  }

  lemma TableInGroup(g: Geometry, vmas: seq<Vma>, t: Table, v: int, i: int, j: int, next: int)
    requires g.Valid() && Sorted(g, vmas) && 0 <= i < j <= |vmas| && 0 <= v < |vmas| && 0 <= t.level < |g.spans|
    requires Overlaps(g, t, vmas[v].start, g.Top(vmas[v].end))
    requires vmas[i].start < End(g, t) <= next && (j < |vmas| ==> next == vmas[j].start)
    ensures Overlaps(g, t, vmas[i].start, g.Top(vmas[j - 1].end))
  {
    VmaOrder(g, vmas, v, i);
    if j < |vmas| { VmaOrder(g, vmas, j, v); }
    VmaOrder(g, vmas, v, j - 1);
    VmaOrder(g, vmas, i, j - 1);
    hide Sorted;
  }

  class PageTables {
    const g: Geometry
    /** The tables there were to begin with. */
    const tables: set<Table>
    var present: set<Table>
    /** Tables handed to pte_free_tlb, pmd_free_tlb and pud_free_tlb, oldest first. */
    var freed: seq<Table>

    ghost predicate Valid()
      reads this
    {
      && g.Valid() && Tree(g, present) && FreedInOrder(g, present, freed)
      && forall t :: t in tables <==> t in present || t in freed
    }

    constructor (g: Geometry, present: set<Table>)
      requires g.Valid() && Tree(g, present)
      ensures Valid() && this.g == g && tables == this.present == present && freed == []
    {
      this.g, this.tables, this.present, this.freed := g, present, present, [];
    }

    /** Clear one entry and hand the table below it to the gather. */
    method Free(t: Table)
      requires Valid() && t in present
      requires forall u :: u in present ==> !Inside(g, u, t)
      modifies this
      ensures Valid() && present == old(present) - {t} && freed == old(freed) + [t]
    {
      FreeKeepsTree(g, present, t);
      FreeKeepsOrder(g, present, freed, t);
      present, freed := present - {t}, freed + [t];
    }

    /** free_pte_range (l == 1), free_pmd_range (l == 2), free_pud_range (l == 3) on the entry whose
        block holds [addr, end): frees exactly what may go below it, and its table if that may go. */
    method FreeRange(l: int, addr: int, end: int, floor: int, ceiling: int)
      requires Valid() && 1 <= l < g.Root()
      requires g.Word(addr) && g.Word(end) && g.Word(floor) && g.Word(ceiling)
      requires addr < g.Top(end) <= AlignDown(addr, g.spans[l]) + g.spans[l]
      requires Table(l, AlignDown(addr, g.spans[l])) in present
      requires PteTablesFree(g, addr, g.Top(end), floor, g.Top(ceiling))
      requires DueIsWalked(g, present, l, AlignDown(addr, g.spans[l]), AlignDown(addr, g.spans[l]) + g.spans[l],
                           floor, g.Top(ceiling), addr, g.Top(end))
      modifies this
      ensures Valid() && old(freed) <= freed
      ensures present == old(present - DueSet(g, present, l, AlignDown(addr, g.spans[l]), AlignDown(addr, g.spans[l]) + g.spans[l],
                                              floor, g.Top(ceiling)))
      decreases l, 0
    {
      hide WellPlaced, DueSet, DueIsWalked, FreedInOrder, Inside, Freeable, MayFree, PteTablesFree;
      var start := AlignDown(addr, g.spans[l]);
      AlignDownFacts(addr, g.spans[l]);
      ghost var top, all := g.Top(ceiling), present;
      TableLast(g, all, l, start, floor, top);
      if l == 1 {
        NoLevelZero(g, all, start, start + g.spans[l], floor, top);
        assert all - {} == all;
        PteTableFreeable(g, addr, g.Top(end), floor, top);
        Free(Table(l, start));
      } else {
        FreeChildren(l, addr, end, floor, ceiling, start);
        MayFreeIffFreeable(g, Table(l, start), end, floor, ceiling);
        if MayFree(g, g.spans[l], start, end, floor, ceiling) {
          Free(Table(l, start));
        }
      }
    }

    /** The loop of free_pmd_range and free_pud_range over the entries of one table. */
    method FreeChildren(l: int, addr: int, end: int, floor: int, ceiling: int, ghost start: int)
      requires Valid() && 2 <= l < |g.spans|
      requires g.Word(addr) && g.Word(end) && g.Word(floor) && g.Word(ceiling)
      requires start == AlignDown(addr, g.spans[l]) && addr < g.Top(end) <= start + g.spans[l]
      requires PteTablesFree(g, addr, g.Top(end), floor, g.Top(ceiling))
      requires DueIsWalked(g, present, l, start, start + g.spans[l], floor, g.Top(ceiling), addr, g.Top(end))
      modifies this
      ensures Valid() && old(freed) <= freed
      ensures present == old(present - DueSet(g, present, l - 1, start, start + g.spans[l], floor, g.Top(ceiling)))
      decreases l - 1, 1
    {
      hide WellPlaced, DueSet, DueIsWalked, PteTablesFree, FreedInOrder;
      var c := g.spans[l - 1];
      ghost var top, e, all := g.Top(ceiling), g.Top(end), present;
      var a := addr;
      ghost var b := AlignDown(a, c);
      NothingDueBefore(g, all, l, start, floor, top, addr, e);
      while true
        invariant Valid() && old(freed) <= freed
        invariant AtEntry(g, l, start, addr, e, a, b)
        invariant present == all - DueSet(g, all, l - 1, start, b, floor, top)
        decreases e - a
      {
        var next := g.AddrEnd(c, a, end);
        AddrEndMeaning(g, l - 1, a, end);
        EntryInTable(g, l, start, addr, e, a, b);
        EntryStep(g, all, l, start, floor, top, addr, e, a, b, g.Top(next));
        if Table(l - 1, AlignDown(a, c)) in present {
          PteTablesFreeWithin(g, addr, e, a, g.Top(next), floor, top);
          FreeRange(l - 1, a, next, floor, ceiling);
        }
        b := b + c;
        a := next;
        if a == end { break; }
      }
      WalkedAllDue(g, all, l, start, b, start + g.spans[l], floor, top, addr, e);
    }

    /** free_pgd_range: every table that lies within [floor, ceiling) goes, and no other, whatever
        wraps; the tables that may go are those of the range [addr, end). */
    method FreePgdRange(addr: int, end: int, floor: int, ceiling: int)
      requires Valid() && g.Word(addr) && g.Word(end) && g.Word(floor) && g.Word(ceiling)
      requires floor <= addr < g.Top(end) <= g.Top(ceiling)
      requires Covered(g, present, floor, g.Top(ceiling), addr, g.Top(end))
      modifies this
      ensures Valid() && old(freed) <= freed
      ensures forall t :: t in present <==> t in old(present) && !Freeable(g, t, floor, g.Top(ceiling))
    {
      var pmd := g.spans[1];
      ghost var all, top := present, g.Top(ceiling);
      ghost var bound := AlignDown(top, pmd);
      TrimKeepsAll(g, all, addr, g.Top(end), floor, top);
      TrimmedRange(g, addr, g.Top(end), floor, top);
      TrimWords(g, addr, end, floor, ceiling);
      hide WellPlaced, Freeable, Overlaps, FreedInOrder, AlignDown, DueSet, DueIsWalked, PteTablesFree, Geometry.Add;
      var a, e, c := AlignDown(addr, pmd), end, ceiling;
      if a < floor {
        a := g.Add(a, pmd);
        if a == 0 { return; }
      }
      if c != 0 {
        c := AlignDown(c, pmd);
        if c == 0 { return; }
      }
      if g.Dec(e) > g.Dec(c) {
        e := g.Add(e, -pmd);
      }
      if a > g.Dec(e) { return; }
      assert a == TrimStart(g, addr, floor) && g.Top(e) == TrimEnd(g, g.Top(end), top) && g.Top(c) == bound;
      RootWalk(g, all, floor, top, a, g.Top(e), bound);
      FreeChildren(g.Root(), a, e, floor, c, 0);
      AllDueBelowRoot(g, all, floor, top, bound);
    }

    /** free_pgtables: one call per gathered group of VMAs.  In all, a table goes exactly when its
        whole span lies in [floor, ceiling): none of a neighbour's, none left straddling two calls. */
    method FreePgtables(vmas: seq<Vma>, floor: int, ceiling: int)
      requires Valid() && g.Word(floor) && g.Word(ceiling) && Sorted(g, vmas)
      requires forall i {:trigger vmas[i]} :: 0 <= i < |vmas| ==> floor <= vmas[i].start && g.Top(vmas[i].end) <= g.Top(ceiling)
      requires CoveredByList(g, present, floor, g.Top(ceiling), vmas)
      modifies this
      ensures Valid() && old(freed) <= freed
      ensures forall t :: t in present <==> t in old(present) && !Freeable(g, t, floor, g.Top(ceiling))
    {
      ghost var all, top := present, g.Top(ceiling);
      var i := 0;
      while i < |vmas|
        invariant 0 <= i <= |vmas| && Valid() && old(freed) <= freed
        invariant forall t :: t in present <==> t in all && !Freeable(g, t, floor, if i < |vmas| then vmas[i].start else top)
      {
        var addr := vmas[i].start;
        var j := i + 1;
        // gather nearby VMAs into one call down; the sum wraps like the word it is
        while j < |vmas| && vmas[j].start <= g.Add(vmas[j - 1].end, g.spans[1])
          invariant i < j <= |vmas|
        {
          j := j + 1;
        }
        var next := if j < |vmas| then vmas[j].start else ceiling;
        GroupIsCovered(g, all, present, vmas, i, j, floor, top, g.Top(next));
        FreePgdRange(addr, vmas[j - 1].end, floor, next);
        i := j;
      }
    }
  }
}
