/** do_fault_around: the window of pages around a fault that map_pages may fill, and the setting that
    bounds it. */
module FaultAround {
  import opened Arith
  import opened Words

  ghost predicate PowerOfTwo(x: int) { exists n: nat :: x == Pow2(n) }

  /** rounddown_pow_of_two */
  method RounddownPowOfTwo(x: nat) returns (r: nat)
    requires 0 < x
    ensures PowerOfTwo(r) && r <= x < 2 * r
  {
    r := 1;
    ghost var n := 0;
    assert r == Pow2(0);
    while 2 * r <= x
      invariant r == Pow2(n) && r <= x
      decreases x - r
    {
      r, n := 2 * r, n + 1;
    }
  }

  lemma {:induction false} Pow2Divides(m: nat, n: nat)
    requires m <= n
    ensures Pow2(n) % Pow2(m) == 0 && Pow2(m) <= Pow2(n)
  {
    if m < n {
      Pow2Divides(m, n - 1);
      SumOfMultiples(Pow2(n - 1), Pow2(n - 1), Pow2(m));
    } else {
      SelfMod(Pow2(m));
    }
  }

  lemma {:induction false} Pow2Injects(m: nat, n: nat)
    requires Pow2(m) <= Pow2(n)
    ensures m <= n
  {
    if n < m {
      Pow2Grows(n, m);
    }
  }

  lemma {:induction false} Pow2Grows(m: nat, n: nat)
    requires m < n
    ensures Pow2(m) < Pow2(n)
    decreases n
  {
    if m < n - 1 { Pow2Grows(m, n - 1); }
  }

  /** Of two powers of two the smaller divides the larger. */
  lemma PowersDivide(x: int, y: int)
    requires PowerOfTwo(x) && PowerOfTwo(y) && x <= y
    ensures y % x == 0
  {
    var m: nat :| x == Pow2(m);
    var n: nat :| y == Pow2(n);
    Pow2Injects(m, n);
    Pow2Divides(m, n);
  }

  class Setting {
    /** PTRS_PER_PTE */
    const ptrs: nat
    /** fault_around_bytes */
    var bytes: nat

    ghost predicate Valid()
      reads this
    { PowerOfTwo(ptrs) && PowerOfTwo(bytes) && PAGE_SIZE <= bytes <= ptrs * PAGE_SIZE }

    constructor (ptrs: nat)
      requires PowerOfTwo(ptrs) && 16 <= ptrs
      ensures Valid() && this.ptrs == ptrs && bytes == 65536
    {
      this.ptrs, bytes := ptrs, 65536;
      new;
      Pow2Four(0);
      Pow2Four(4);
      Pow2Four(8);
      Pow2Four(12);
      BytesAtFirst(ptrs);
    }

    /** fault_around_bytes_set */
    method Set(val: nat) returns (ok: bool)
      requires Valid()
      modifies this
      ensures Valid() && (ok <==> val / PAGE_SIZE <= ptrs)
      ensures !ok ==> bytes == old(bytes)
      ensures ok ==> bytes <= Max(val, PAGE_SIZE) < 2 * bytes
    {
      if val / PAGE_SIZE > ptrs { return false; }
      if val > PAGE_SIZE {
        bytes := RounddownPowOfTwo(val);
        BytesFit(ptrs, bytes, val);
      } else {
        bytes := PAGE_SIZE;
        Pow2Twelve(0);
        var n: nat :| ptrs == Pow2(n);
        Pow2Divides(0, n);
      }
      ok := true;
    }
  }

  lemma BytesAtFirst(ptrs: nat)
    requires 16 <= ptrs
    ensures PAGE_SIZE <= 65536 <= ptrs * PAGE_SIZE
  {
  }

  /** The largest power of two below a size that still has at most `ptrs` whole pages. */
  lemma BytesFit(ptrs: nat, bytes: nat, val: nat)
    requires PowerOfTwo(ptrs) && PowerOfTwo(bytes) && bytes <= val < 2 * bytes && val / PAGE_SIZE <= ptrs && PAGE_SIZE < val
    ensures PAGE_SIZE <= bytes <= ptrs * PAGE_SIZE
  {
    var n: nat :| ptrs == Pow2(n);
    var b: nat :| bytes == Pow2(b);
    Pow2Twelve(0);
    Pow2Twelve(n);
    assert Pow2(n + 13) == 2 * Pow2(n + 12);
    if b < 12 {
      Pow2Divides(b + 1, 12);
    } else {
      Pow2Divides(12, b);
    }
    if b <= n + 12 {
      Pow2Divides(b, n + 12);
    } else {
      Pow2Divides(n + 13, b);
    }
  }

  lemma Pow2Four(n: nat)
    ensures Pow2(n + 4) == 16 * Pow2(n)
  {
    assert Pow2(n + 1) == 2 * Pow2(n);
    assert Pow2(n + 2) == 2 * Pow2(n + 1);
    assert Pow2(n + 3) == 2 * Pow2(n + 2);
  }

  lemma Pow2Twelve(n: nat)
    ensures Pow2(n + 12) == Pow2(n) * PAGE_SIZE
  {
    Pow2Four(n);
    Pow2Four(n + 4);
    Pow2Four(n + 8);
  }

  /** The VMA, as far as do_fault_around looks at it. */
  datatype Vma = Vma(start: int, end: int, pgoff: nat) {
    ghost predicate Valid() { 0 <= start < end && start % PAGE_SIZE == 0 && end % PAGE_SIZE == 0 }

    /** linear_page_index */
    function Index(a: int): int { pgoff + (a - start) / PAGE_SIZE }
  }

  /** The entry of its table that address a has. */
  function PteIndex(ptrs: nat, a: int): int
    requires 0 < ptrs
  { a / PAGE_SIZE % ptrs }

  /** What map_pages is called with. */
  datatype Window = Nothing | Window(addr: int, pte: int, pgoff: int, maxPgoff: int)

  /** Where the window ends. */
  function End(w: Window): int
    requires w.Window?
  { w.addr + (w.maxPgoff - w.pgoff + 1) * PAGE_SIZE }

  /** The window before anything is skipped: it starts at `addr`, page-aligned, and ends with the file
      page maxPgoff. */
  ghost predicate Fits(ptrs: nat, bytes: nat, v: Vma, address: int, w: Window)
    requires 0 < ptrs && w.Window?
  {
    var n := w.maxPgoff - w.pgoff + 1;
    // in step
    && w.addr % PAGE_SIZE == 0 && w.pgoff == v.Index(w.addr) && w.pte == PteIndex(ptrs, w.addr)
    // it holds the page of the fault
    && w.addr <= address < End(w)
    // one VMA, one page table, and no more than fault_around_bytes
    && v.start <= w.addr && End(w) <= v.end
    && 0 <= w.pte && w.pte + n <= ptrs
    && End(w) - w.addr <= bytes
  }

  /** Two addresses of one table: their entries are as far apart as their pages. */
  lemma SameTable(ptrs: nat, base: int, a: int)
    requires 0 < ptrs && 0 <= base && base % (ptrs * PAGE_SIZE) == 0 && base <= a < base + ptrs * PAGE_SIZE
    ensures PteIndex(ptrs, a) == (a - base) / PAGE_SIZE && 0 <= PteIndex(ptrs, a) < ptrs
  {
    var q := base / (ptrs * PAGE_SIZE);
    assert base == ptrs * PAGE_SIZE * q;
    assert base == (ptrs * q) * PAGE_SIZE by { assert ptrs * PAGE_SIZE * q == (ptrs * q) * PAGE_SIZE; }
    var k := (a - base) / PAGE_SIZE;
    assert a / PAGE_SIZE == ptrs * q + k;
    ModOf(ptrs * q + k, q, k, ptrs);
  }

  lemma ModOf(x: int, q: int, r: int, m: int)
    requires 0 < m && 0 <= r < m && x == m * q + r
    ensures x % m == r
  {
    MultipleMod(q, m);
    AlignDownUnique(x, m * q, m);
  }

  /** Where the window starts: in the table of the fault, at or before it. */
  lemma StartPlace(ptrs: nat, bytes: nat, v: Vma, address: int)
    requires PowerOfTwo(ptrs) && PowerOfTwo(bytes) && PAGE_SIZE <= bytes <= ptrs * PAGE_SIZE && v.Valid() && v.start <= address < v.end
    ensures var start := Max(AlignDown(address, bytes), v.start); var base := AlignDown(address, ptrs * PAGE_SIZE);
      && 0 <= base <= start <= address < base + ptrs * PAGE_SIZE && base % (ptrs * PAGE_SIZE) == 0
      && start % PAGE_SIZE == 0 && address - start < bytes && bytes % PAGE_SIZE == 0
  {
    var t := ptrs * PAGE_SIZE;
    TablePower(ptrs);
    PowersDivide(bytes, t);
    PagePower();
    PowersDivide(PAGE_SIZE, bytes);
    AlignDownFacts(address, t);
    StartNonNegative(address, t);
    SubBlock(address, bytes, AlignDown(address, t), t);
    AlignDownFacts(address, bytes);
    DivisorOfMultiple(AlignDown(address, bytes), PAGE_SIZE, bytes);
  }

  lemma PagePower()
    ensures PowerOfTwo(PAGE_SIZE)
  {
    Pow2Twelve(0);
  }

  lemma TablePower(ptrs: nat)
    requires PowerOfTwo(ptrs)
    ensures PowerOfTwo(ptrs * PAGE_SIZE)
  {
    var n: nat :| ptrs == Pow2(n);
    Pow2Twelve(n);
  }

  /** The window as the code computes it, from the fault's entry and file page. */
  function Opening(ptrs: nat, bytes: nat, v: Vma, address: int): Window
    requires 0 < ptrs && 0 < bytes
  {
    var nrPages := bytes / PAGE_SIZE;
    var start := Max(AlignDown(address, bytes), v.start);
    var off := (address - start) / PAGE_SIZE % ptrs;
    var pgoff := v.Index(AlignDown(address, PAGE_SIZE)) - off;
    var tableEnd := pgoff - PteIndex(ptrs, start) + ptrs - 1;
    var vmaEnd := (v.end - v.start) / PAGE_SIZE + v.pgoff - 1;
    Window(start, PteIndex(ptrs, address) - off, pgoff, Min(tableEnd, Min(vmaEnd, pgoff + nrPages - 1)))
  }

  lemma OpeningFits(ptrs: nat, bytes: nat, v: Vma, address: int)
    requires PowerOfTwo(ptrs) && PowerOfTwo(bytes) && PAGE_SIZE <= bytes <= ptrs * PAGE_SIZE && v.Valid() && v.start <= address < v.end && 0 < ptrs
    ensures var w := Opening(ptrs, bytes, v, address);
      && Fits(ptrs, bytes, v, address, w) && w.addr == Max(AlignDown(address, bytes), v.start)
      && End(w) == Min(AlignDown(address, ptrs * PAGE_SIZE) + ptrs * PAGE_SIZE, Min(v.end, w.addr + bytes))
  {
    hide PowerOfTwo, AlignDown, PteIndex, Fits, Vma.Valid, Vma.Index, Opening;
    var start, base := Max(AlignDown(address, bytes), v.start), AlignDown(address, ptrs * PAGE_SIZE);
    StartPlace(ptrs, bytes, v, address);
    BaseOnPage(ptrs, base);
    SameTable(ptrs, base, start);
    SameTable(ptrs, base, address);
    OpeningOffsets(ptrs, bytes, v, address, start, base);
    PagesInside(ptrs, bytes, v, address, Opening(ptrs, bytes, v, address), base);
  }

  lemma BaseOnPage(ptrs: nat, base: int)
    requires 0 < ptrs && base % (ptrs * PAGE_SIZE) == 0
    ensures base % PAGE_SIZE == 0
  {
    MultipleMod(ptrs, PAGE_SIZE);
    DivisorOfMultiple(base, PAGE_SIZE, ptrs * PAGE_SIZE);
  }

  lemma DivSum(x: int, d: int)
    requires x % PAGE_SIZE == 0
    ensures (x + d) / PAGE_SIZE == x / PAGE_SIZE + d / PAGE_SIZE && (x + d) % PAGE_SIZE == d % PAGE_SIZE
  {
  }

  lemma OffSmall(d: int, bytes: int, ptrs: int)
    requires 0 <= d < bytes <= ptrs * PAGE_SIZE
    ensures 0 <= d / PAGE_SIZE < ptrs
  {
  }

  /** The numbers of the window, without masks. */
  lemma OpeningOffsets(ptrs: nat, bytes: nat, v: Vma, address: int, start: int, base: int)
    requires 0 < ptrs && PAGE_SIZE <= bytes <= ptrs * PAGE_SIZE && v.Valid() && start == Max(AlignDown(address, bytes), v.start)
    requires v.start <= start <= address && address - start < bytes && start % PAGE_SIZE == 0 && base <= start && base % PAGE_SIZE == 0
    requires PteIndex(ptrs, start) == (start - base) / PAGE_SIZE && PteIndex(ptrs, address) == (address - base) / PAGE_SIZE
    ensures var w := Opening(ptrs, bytes, v, address);
      && w.Window? && w.addr == start && w.pgoff == v.Index(start) && w.pte == PteIndex(ptrs, start)
      && w.maxPgoff == Min(w.pgoff - w.pte + ptrs - 1, Min((v.end - v.start) / PAGE_SIZE + v.pgoff - 1, w.pgoff + bytes / PAGE_SIZE - 1))
  {
    hide PteIndex;
    var d := address - start;
    var off := d / PAGE_SIZE;
    OffSmall(d, bytes, ptrs);
    SmallMod(off, ptrs);
    SumOfMultiples(start, base, PAGE_SIZE);
    SumOfMultiples(start, v.start, PAGE_SIZE);
    DivSum(start - base, d);
    DivSum(start, d);
    DivSum(start - v.start, d - d % PAGE_SIZE);
    assert AlignDown(address, PAGE_SIZE) == start + (d - d % PAGE_SIZE);
    assert (d - d % PAGE_SIZE) / PAGE_SIZE == off;
  }

  lemma PagesInside(ptrs: nat, bytes: nat, v: Vma, address: int, w: Window, base: int)
    requires 0 < ptrs && PAGE_SIZE <= bytes <= ptrs * PAGE_SIZE && bytes % PAGE_SIZE == 0 && v.Valid() && w.Window?
    requires v.start <= w.addr <= address < v.end && address - w.addr < bytes && w.addr % PAGE_SIZE == 0
    requires base <= w.addr && base % PAGE_SIZE == 0 && address < base + ptrs * PAGE_SIZE
    requires w.pgoff == v.Index(w.addr) && w.pte == PteIndex(ptrs, w.addr) == (w.addr - base) / PAGE_SIZE
    requires w.maxPgoff == Min(w.pgoff - w.pte + ptrs - 1, Min((v.end - v.start) / PAGE_SIZE + v.pgoff - 1, w.pgoff + bytes / PAGE_SIZE - 1))
    ensures Fits(ptrs, bytes, v, address, w) && End(w) == Min(base + ptrs * PAGE_SIZE, Min(v.end, w.addr + bytes))
  {
    hide PteIndex;
    SumOfMultiples(w.addr, base, PAGE_SIZE);
    SumOfMultiples(w.addr, v.start, PAGE_SIZE);
    SumOfMultiples(v.end, v.start, PAGE_SIZE);
    WholePages(w.addr - base);
    WholePages(w.addr - v.start);
    WholePages(v.end - v.start);
    WholePages(bytes);
    PagesEnd(w.addr, base, v.start, v.end, bytes, ptrs, w.pte, (w.addr - v.start) / PAGE_SIZE, (v.end - v.start) / PAGE_SIZE, bytes / PAGE_SIZE);
  }

  lemma WholePages(x: int)
    requires x % PAGE_SIZE == 0
    ensures x == x / PAGE_SIZE * PAGE_SIZE
  {
  }

  lemma PagesEnd(addr: int, base: int, start: int, end: int, bytes: int, ptrs: int, i: int, j: int, k: int, m: int)
    requires addr - base == i * PAGE_SIZE && addr - start == j * PAGE_SIZE && end - start == k * PAGE_SIZE && bytes == m * PAGE_SIZE
    ensures addr + Min(ptrs - i, Min(k - j, m)) * PAGE_SIZE == Min(base + ptrs * PAGE_SIZE, Min(end, addr + bytes))
  {
  }

  /** The window starts inside the block of fault_around_bytes that holds the fault, but leaves it if and
      only if the VMA starts inside the block, and neither the VMA nor the table ends with it. */
  lemma LeavesBlock(ptrs: nat, bytes: nat, v: Vma, address: int)
    requires PowerOfTwo(ptrs) && PowerOfTwo(bytes) && PAGE_SIZE <= bytes <= ptrs * PAGE_SIZE && v.Valid() && v.start <= address < v.end && 0 < ptrs
    ensures var w, block := Opening(ptrs, bytes, v, address), AlignDown(address, bytes);
      && block <= w.addr < block + bytes
      && (block + bytes < End(w) <==>
            block < v.start && block + bytes < v.end && block + bytes < AlignDown(address, ptrs * PAGE_SIZE) + ptrs * PAGE_SIZE)
  {
    hide PowerOfTwo, PteIndex, Fits, Opening, Vma.Index, AlignDown;
    OpeningFits(ptrs, bytes, v, address);
    StartPlace(ptrs, bytes, v, address);
    BlockHolds(address, bytes);
  }

  lemma BlockHolds(address: int, bytes: int)
    requires 0 < bytes
    ensures AlignDown(address, bytes) <= address < AlignDown(address, bytes) + bytes
  {
  }

  /** Such a window: blocks of 16 pages, and a fault in the first page of a VMA that starts in the middle
      of a block. */
  lemma BlockIsLeft()
    ensures PowerOfTwo(512) && PowerOfTwo(65536)
    ensures var v := Vma(0x8000, 0x100000, 0); v.Valid() && AlignDown(0x8000, 65536) + 65536 < End(Opening(512, 65536, v, 0x8000))
  {
    hide PowerOfTwo, Opening, End;
    SomePowers();
    LeavesBlock(512, 65536, Vma(0x8000, 0x100000, 0), 0x8000);
  }

  lemma SomePowers()
    ensures PowerOfTwo(512) && PowerOfTwo(65536)
  {
    Pow2Four(0);
    Pow2Four(4);
    Pow2Four(5);
    Pow2Four(8);
    Pow2Four(12);
    assert Pow2(5) == 2 * Pow2(4);
    assert PowerOfTwo(Pow2(9)) && PowerOfTwo(Pow2(16));
  }

  /** do_fault_around on the table of the fault; `none` says which of its entries are empty.  The window
      fits as said above; what is passed on is its first empty entry, with address, entry and file page
      still in step, and everything before it is mapped already.  The test against the VMA's end never
      decides, since the window ends first. */
  method DoFaultAround(s: Setting, v: Vma, address: int, none: seq<bool>) returns (w: Window, first: Window)
    requires s.Valid() && v.Valid() && v.start <= address < v.end && |none| == s.ptrs && 0 < s.ptrs
    ensures first.Window? && Fits(s.ptrs, s.bytes, v, address, first)
    ensures w.Nothing? ==> forall i :: first.pte <= i <= first.pte + first.maxPgoff - first.pgoff ==> !none[i]
    ensures w.Window? ==>
      && first.pgoff <= w.pgoff <= w.maxPgoff == first.maxPgoff
      && w.addr == first.addr + (w.pgoff - first.pgoff) * PAGE_SIZE && w.pte == first.pte + (w.pgoff - first.pgoff)
      && w.pgoff == v.Index(w.addr) && none[w.pte]
      && forall i :: first.pte <= i < w.pte ==> !none[i]
  {
    first := Opening(s.ptrs, s.bytes, v, address);
    OpeningFits(s.ptrs, s.bytes, v, address);
    hide Opening, PteIndex;
    var start, pte, pgoff, maxPgoff := first.addr, first.pte, first.pgoff, first.maxPgoff;
    while !none[pte]
      invariant first.pgoff <= pgoff <= maxPgoff && start == first.addr + (pgoff - first.pgoff) * PAGE_SIZE && pte == first.pte + (pgoff - first.pgoff)
      invariant forall i :: first.pte <= i < pte ==> !none[i]
      decreases maxPgoff - pgoff
    {
      pgoff := pgoff + 1;
      if pgoff > maxPgoff { return Nothing, first; }
      start := start + PAGE_SIZE;
      if start >= v.end { return Nothing, first; }
      pte := pte + 1;
    }
    w := Window(start, pte, pgoff, maxPgoff);
  }
}
