/** remap_pfn_range: a run of page frames is mapped linearly by a walk that carries the frame number
    less the page number of the address; and vm_normal_page, which tells such entries from copies. */
module RemapPfn {
  import opened Walk
  import opened Words

  predicate OnPage(a: int) { a % PAGE_SIZE == 0 }

  predicate Run(addr: int, end: int) { 0 <= addr < end && OnPage(addr) && OnPage(end) }

  /** The frame that address a gets when `pfn` goes to `addr`, in words. */
  function Frame(word: int, pfn: int, addr: int, a: int): int
    requires 0 < word
  { (pfn + (a - addr) / PAGE_SIZE) % word }

  /** `pfn - (addr >> PAGE_SHIFT)` and `pfn + (addr >> PAGE_SHIFT)` in words. */
  function Less(word: int, pfn: int, addr: int): int
    requires 0 < word
  { (pfn - addr / PAGE_SIZE) % word }

  function More(word: int, pfn: int, addr: int): int
    requires 0 < word
  { (pfn + addr / PAGE_SIZE) % word }

  function Linear(word: int, pfn: int, addr: int, end: int): map<int, int>
    requires 0 < word
  { map a | addr <= a < end && a % PAGE_SIZE == 0 :: Frame(word, pfn, addr, a) }

  lemma LinearIs(word: int, pfn: int, addr: int, end: int)
    requires 0 < word
    ensures forall x :: addr <= x < end && x % PAGE_SIZE == 0 ==>
      x in Linear(word, pfn, addr, end) && Linear(word, pfn, addr, end)[x] == (pfn + (x - addr) / PAGE_SIZE) % word
  {
  }

  lemma LessIs(word: int, pfn: int, addr: int)
    requires 0 < word
    ensures Less(word, pfn, addr) == (pfn - addr / PAGE_SIZE) % word
  {
  }

  lemma ModAdd(x: int, y: int, w: int)
    requires 0 < w
    ensures (x % w + y) % w == (x + y) % w
  {
    var q := x / w;
    assert x == w * q + x % w;
    AddMultiples(x % w + y, q, w);
  }

  lemma AddMultiples(x: int, q: int, w: int)
    requires 0 < w
    ensures (x + w * q) % w == x % w
  {
    var r, k := x % w, x / w;
    assert x + w * q == w * (k + q) + r;
    ModUnique(x + w * q, k + q, r, w);
  }

  lemma ModUnique(x: int, q: int, r: int, w: int)
    requires 0 < w && 0 <= r < w && x == w * q + r
    ensures x % w == r
  {
    AlignDownUnique(x, w * q, w) by { MultipleMod(q, w); }
  }

  /** Less and then more is a step along the line. */
  lemma LessMore(word: int, pfn: int, addr: int, a: int)
    requires 0 < word && OnPage(addr) && OnPage(a)
    ensures More(word, Less(word, pfn, addr), a) == Frame(word, pfn, addr, a)
  {
    ModAdd(pfn - addr / PAGE_SIZE, a / PAGE_SIZE, word);
    assert (a - addr) / PAGE_SIZE == a / PAGE_SIZE - addr / PAGE_SIZE;
  }

  /** A line continued from a point on it is the same line. */
  lemma Continued(word: int, pfn: int, addr: int, at: int, a: int)
    requires 0 < word && OnPage(addr) && OnPage(at) && OnPage(a)
    ensures Frame(word, Frame(word, pfn, addr, at), at, a) == Frame(word, pfn, addr, a)
  {
    ModAdd(pfn + (at - addr) / PAGE_SIZE, (a - at) / PAGE_SIZE, word);
    assert (a - addr) / PAGE_SIZE == (at - addr) / PAGE_SIZE + (a - at) / PAGE_SIZE;
  }

  lemma LinearJoins(word: int, pfn: int, addr: int, at: int, end: int)
    requires 0 < word && OnPage(addr) && OnPage(at) && addr <= at <= end
    ensures Linear(word, pfn, addr, at) + Linear(word, Frame(word, pfn, addr, at), at, end) == Linear(word, pfn, addr, end)
  {
    forall a | at <= a < end && a % PAGE_SIZE == 0
      ensures Frame(word, Frame(word, pfn, addr, at), at, a) == Frame(word, pfn, addr, a)
    {
      Continued(word, pfn, addr, at, a);
    }
    hide Frame;
  }

  lemma LinearOne(word: int, pfn: int, at: int)
    requires 0 < word && 0 <= pfn < word && OnPage(at)
    ensures Linear(word, pfn, at, at + PAGE_SIZE) == map[at := pfn]
    ensures Frame(word, pfn, at, at + PAGE_SIZE) == (pfn + 1) % word
    ensures OnPage(at + PAGE_SIZE)
  {
    assert forall a :: at <= a < at + PAGE_SIZE && a % PAGE_SIZE == 0 <==> a == at;
    assert Frame(word, pfn, at, at) == pfn;
  }

  lemma NoLine(word: int, pfn: int, addr: int)
    requires 0 < word && 0 <= pfn < word
    ensures Linear(word, pfn, addr, addr) == map[] && Frame(word, pfn, addr, addr) == pfn
  {
  }

  lemma NextPage(a: int, end: int)
    requires a < end && OnPage(a) && OnPage(end)
    ensures a + PAGE_SIZE <= end
  {
  }

  lemma MapsJoin(was: map<int, int>, s: map<int, int>, t: map<int, int>)
    ensures was + s + t == was + (s + t)
  {
  }

  /** struct vm_area_struct; mixed: VM_MIXEDMAP, pfnMap: VM_PFNMAP. */
  datatype Vma = Vma(start: int, end: int, pgoff: int, cow: bool, pfnMap: bool, mixed: bool)

  datatype Error = NoError | EINVAL | ENOMEM

  class Mapper {
    const g: Geometry
    /** Whether an allocation may fail, and whether the frames may be refused. */
    const scarce: bool
    const picky: bool
    var vma: Vma
    /** The frames in the entries, all marked special. */
    var ptes: map<int, int>
    /** The first frame of the run that track_pfn_remap was told, and untrack_pfn. */
    var tracked: seq<int>
    var untracked: seq<int>

    ghost predicate Valid()
      reads this`vma
    { g.Valid() && g.spans[0] == PAGE_SIZE && 0 <= vma.start < vma.end < g.word && OnPage(vma.start) && OnPage(vma.end) && 0 <= vma.pgoff < g.word }

    constructor (g: Geometry, vma: Vma, scarce: bool, picky: bool)
      requires g.Valid() && g.spans[0] == PAGE_SIZE && 0 <= vma.start < vma.end < g.word && OnPage(vma.start) && OnPage(vma.end) && 0 <= vma.pgoff < g.word
      ensures Valid() && this.g == g && this.vma == vma && ptes == map[] && tracked == [] && untracked == []
      ensures this.scarce == scarce && this.picky == picky
    {
      this.g, this.vma, ptes, tracked, untracked := g, vma, map[], [], [];
      this.scarce, this.picky := scarce, picky;
    }

    ghost predicate Empty(addr: int, end: int)
      reads this`ptes
    { forall a :: a in ptes ==> !(addr <= a < end) }

    /** remap_pte_range */
    method RemapPteRange(addr: int, end: int, pfn: int) returns (failed: bool, ghost a: int)
      requires Valid() && Run(addr, end) && 0 <= pfn < g.word && Empty(addr, end)
      modifies this`ptes
      ensures addr <= a <= end && OnPage(a) && (failed <==> a != end) && (failed ==> scarce)
      ensures ptes == old(ptes) + Linear(g.word, pfn, addr, a)
    {
      hide Linear, Frame, OnPage;
      ghost var was := ptes;
      NoLine(g.word, pfn, addr);
      var memory: bool := *;
      if !memory && scarce { return true, addr; }
      var at, frame := addr, pfn;
      failed, a := false, addr;
      while true
        invariant a == at && addr <= at < end && OnPage(at) && 0 <= frame < g.word && frame == Frame(g.word, pfn, addr, at)
        invariant ptes == was + Linear(g.word, pfn, addr, at)
        decreases end - at
      {
        NextPage(at, end);
        LinearOne(g.word, frame, at);
        LinearJoins(g.word, pfn, addr, at, at + PAGE_SIZE);
        Continued(g.word, pfn, addr, at, at + PAGE_SIZE);
        MapsJoin(was, Linear(g.word, pfn, addr, at), map[at := frame]);
        ptes := ptes[at := frame];
        assert ptes == was + Linear(g.word, pfn, addr, at) + map[at := frame];
        frame := (frame + 1) % g.word;
        at := at + PAGE_SIZE;
        a := at;
        if at == end { break; }
      }
    }

    /** remap_pud_range and remap_pmd_range, and the loop of remap_pfn_range (l == root). */
    method RemapLevel(l: int, addr: int, end: int, pfn: int) returns (failed: bool, ghost a: int)
      requires Valid() && 1 <= l < |g.spans| && Run(addr, end) && end < g.word && 0 <= pfn < g.word && Empty(addr, end)
      modifies this`ptes
      ensures addr <= a <= end && OnPage(a) && (failed <==> a != end) && (failed ==> scarce)
      ensures ptes == old(ptes) + Linear(g.word, pfn, addr, a)
      decreases l
    {
      if l == 1 {
        failed, a := RemapPteRange(addr, end, pfn);
        return;
      }
      hide Linear, Frame, OnPage, Less, More, Geometry.Valid, Geometry.AddrEnd;
      ghost var was := ptes;
      BaseFacts(g, l, pfn, addr);
      NoLine(g.word, pfn, addr);
      var base := Less(g.word, pfn, addr);
      if l < g.Root() {
        var memory: bool := *;
        if !memory && scarce { return true, addr; }
      }
      var at := addr;
      failed, a := false, addr;
      while true
        invariant a == at && addr <= at < end && OnPage(at)
        invariant ptes == was + Linear(g.word, pfn, addr, at) && Empty(at, end)
        decreases end - at
      {
        LessMore(g.word, pfn, addr, at);
        EntryRun(g, l, at, end);
        BaseFacts(g, l, pfn, at);
        var next := g.AddrEnd(g.spans[l - 1], at, end);
        failed, a := RemapLevel(l - 1, at, next, More(g.word, base, at));
        LinearJoins(g.word, pfn, addr, at, a);
        MapsJoin(was, Linear(g.word, pfn, addr, at), Linear(g.word, Frame(g.word, pfn, addr, at), at, a));
        if failed { return; }
        StillEmpty(was, g.word, pfn, addr, next, end);
        at := next;
        if at == end { break; }
      }
    }

    /** remap_pfn_range.  A copy-on-write mapping must be remapped whole, and then remembers its first
        frame as its offset.  After a failure part of the run is mapped, and what is untracked is not
        the frame that was tracked but that frame less the page number of the address. */
    method RemapPfnRange(addr: int, size: int, pfn: int) returns (err: Error, ghost a: int)
      requires Valid() && 0 <= addr && OnPage(addr) && 0 < size && addr + PageAlign(size) < g.word && 0 <= pfn < g.word
      requires Empty(addr, addr + PageAlign(size))
      modifies this`ptes, this`vma, this`tracked, this`untracked
      ensures Valid()
      ensures old(vma).cow && !(addr == old(vma).start && addr + PageAlign(size) == old(vma).end) ==> err == EINVAL && vma == old(vma)
      ensures err == EINVAL ==> ptes == old(ptes) && vma.pfnMap == old(vma).pfnMap && tracked == old(tracked) && untracked == old(untracked)
      ensures err != EINVAL ==>
        && vma == old(vma).(pfnMap := true, pgoff := if old(vma).cow then pfn else old(vma).pgoff)
        && addr <= a <= addr + PageAlign(size) && ptes == old(ptes) + Linear(g.word, pfn, addr, a) && tracked == old(tracked) + [pfn]
      ensures err == ENOMEM ==> scarce
      ensures err == EINVAL ==> picky || (old(vma).cow && !(addr == old(vma).start && addr + PageAlign(size) == old(vma).end))
      ensures err == NoError ==> a == addr + PageAlign(size) && untracked == old(untracked)
      ensures err != EINVAL ==> forall x :: addr <= x < a && x % PAGE_SIZE == 0 ==> x in ptes && ptes[x] == (pfn + (x - addr) / PAGE_SIZE) % g.word
      ensures err == ENOMEM ==> untracked == old(untracked) + [(pfn - addr / PAGE_SIZE) % g.word]
    {
      hide Linear, Frame, Less, More;
      LessIs(g.word, pfn, addr);
      a := addr;
      PageAlignFacts(addr, size);
      var end := addr + PageAlign(size);
      if vma.cow {
        if addr != vma.start || end != vma.end { return EINVAL, addr; }
        vma := vma.(pgoff := pfn);
      }
      var refused: bool := *;
      if refused && picky { return EINVAL, addr; }
      tracked := tracked + [pfn];
      vma := vma.(pfnMap := true);
      var failed;
      failed, a := RemapLevel(g.Root(), addr, end, pfn);
      LinearIs(g.word, pfn, addr, a);
      if failed {
        untracked := untracked + [Less(g.word, pfn, addr)];
        return ENOMEM, a;
      }
      err := NoError;
    }
  }

  function PageAlign(size: int): int { AlignDown(size + PAGE_SIZE - 1, PAGE_SIZE) }

  lemma PageAlignFacts(addr: int, size: int)
    requires 0 < size && OnPage(addr)
    ensures OnPage(PageAlign(size)) && size <= PageAlign(size) < size + PAGE_SIZE && OnPage(addr + PageAlign(size))
  {
    AlignDownFacts(size + PAGE_SIZE - 1, PAGE_SIZE);
    SumOfMultiples(addr, PageAlign(size), PAGE_SIZE);
  }

  /** What is untracked after a failure is what was tracked if and only if the page number of the
      address is a multiple of the word, which for an address means that it is in the first page. */
  lemma UntrackedFrame(word: int, pfn: int, addr: int)
    requires 0 <= pfn < word && 0 <= addr < word
    ensures Less(word, pfn, addr) == pfn <==> addr < PAGE_SIZE
  {
    var n := addr / PAGE_SIZE;
    assert 0 <= n < word;
    if pfn < n {
      ModUnique(pfn - n, -1, pfn - n + word, word);
    } else {
      ModUnique(pfn - n, 0, pfn - n, word);
    }
  }

  /** A failure at address 0x10000 of a range mapped to frame 0x100. */
  lemma WrongFrame()
    ensures Less(0x1_0000_0000_0000_0000, 0x100, 0x10000) == 0xF0
  {
  }

  // ---- vm_normal_page

  datatype Found = NoPage | PageOf(frame: int)

  /** What vm_normal_page asks about frames. */
  datatype Memory = Memory(zeroPfn: int, highest: int, valid: set<int>)

  /** vm_normal_page where entries have no special bit. */
  function NormalPage(word: int, v: Vma, addr: int, pfn: int, m: Memory): (r: Found)
    requires 0 < word
    ensures r.PageOf? ==> r.frame == pfn && if v.mixed then pfn in m.valid else pfn != m.zeroPfn && pfn <= m.highest
  {
    if v.pfnMap || v.mixed then
      if v.mixed then
        if pfn !in m.valid then NoPage else PageOf(pfn)
      else
        var off := (addr - v.start) / PAGE_SIZE;
        if pfn == (v.pgoff + off) % word then NoPage
        else if !v.cow then NoPage
        else CheckPfn(pfn, m)
    else CheckPfn(pfn, m)
  }

  /** Which entries have a page. */
  lemma NormalPageMeaning(word: int, v: Vma, addr: int, pfn: int, m: Memory)
    requires 0 < word
    ensures v.mixed ==> (NormalPage(word, v, addr, pfn, m).PageOf? <==> pfn in m.valid)
    ensures !v.mixed ==> (NormalPage(word, v, addr, pfn, m).PageOf? <==>
      pfn != m.zeroPfn && pfn <= m.highest && (v.pfnMap ==> v.cow && pfn != (v.pgoff + (addr - v.start) / PAGE_SIZE) % word))
  {
  }

  function CheckPfn(pfn: int, m: Memory): Found {
    if pfn == m.zeroPfn then NoPage
    else if pfn > m.highest then NoPage
    else PageOf(pfn)
  }

  /** In a copy-on-write mapping that has been remapped whole, whatever the frame in an entry is now:
      there is no page exactly if it is still the linear frame, the zero frame, or beyond all pages;
      otherwise it is that frame's page. */
  lemma LinearHasNoPage(word: int, v: Vma, addr: int, pfn: int, m: Memory)
    requires 0 < word && v.cow && v.pfnMap && !v.mixed && v.start <= addr < v.end && OnPage(addr)
    ensures NormalPage(word, v, addr, pfn, m) ==
      if pfn == Linear(word, v.pgoff, v.start, v.end)[addr] || pfn == m.zeroPfn || pfn > m.highest then NoPage else PageOf(pfn)
  {
  }

  /** remap_pfn_range on a copy-on-write mapping leaves no entry with a page, and a copied page is found
      again unless it happens to be the very frame that was there. */
  method RemapThenLook(r: Mapper, pfn: int, m: Memory) returns (err: Error)
    requires r.Valid() && r.vma.cow && !r.vma.mixed && 0 <= pfn < r.g.word && r.Empty(r.vma.start, r.vma.end)
    modifies r`ptes, r`vma, r`tracked, r`untracked
    ensures !r.scarce && !r.picky ==> err == NoError
    ensures err == NoError ==> forall a :: r.vma.start <= a < r.vma.end && OnPage(a) ==>
      && a in r.ptes && NormalPage(r.g.word, r.vma, a, r.ptes[a], m) == NoPage
      && forall copy {:trigger NormalPage(r.g.word, r.vma, a, copy, m)} ::
           NormalPage(r.g.word, r.vma, a, copy, m) == PageOf(copy) <==> copy != r.ptes[a] && copy != m.zeroPfn && copy <= m.highest
  {
    hide NormalPage, Linear, Frame;
    ghost var reached;
    ghost var v := r.vma;
    WholeSize(v.start, v.end);
    err, reached := r.RemapPfnRange(r.vma.start, r.vma.end - r.vma.start, pfn);
    if err == NoError {
      LinearIs(r.g.word, pfn, v.start, v.end);
      forall a | v.start <= a < v.end && OnPage(a)
        ensures a in r.ptes && NormalPage(r.g.word, r.vma, a, r.ptes[a], m) == NoPage
        ensures forall copy {:trigger NormalPage(r.g.word, r.vma, a, copy, m)} ::
          NormalPage(r.g.word, r.vma, a, copy, m) == PageOf(copy) <==> copy != r.ptes[a] && copy != m.zeroPfn && copy <= m.highest
      {
        assert r.ptes[a] == Linear(r.g.word, pfn, v.start, v.end)[a];
        LinearHasNoPage(r.g.word, r.vma, a, r.ptes[a], m);
        forall copy
          ensures NormalPage(r.g.word, r.vma, a, copy, m) == PageOf(copy) <==> copy != r.ptes[a] && copy != m.zeroPfn && copy <= m.highest
        {
          LinearHasNoPage(r.g.word, r.vma, a, copy, m);
        }
      }
    }
  }

  lemma WholeSize(start: int, end: int)
    requires 0 <= start < end && OnPage(start) && OnPage(end)
    ensures start + PageAlign(end - start) == end
  {
    SumOfMultiples(end, start, PAGE_SIZE);
    AlignDownUnique(end - start + PAGE_SIZE - 1, end - start, PAGE_SIZE);
  }

  lemma StillEmpty(was: map<int, int>, word: int, pfn: int, addr: int, at: int, end: int)
    requires 0 < word && addr <= at && forall a :: a in was ==> !(addr <= a < end)
    ensures forall a :: a in was + Linear(word, pfn, addr, at) ==> !(at <= a < end)
  {
  }

  /** Frames are words. */
  lemma BaseFacts(g: Geometry, l: int, pfn: int, addr: int)
    requires g.Valid() && 1 <= l < |g.spans|
    ensures 0 < g.word && 0 <= Less(g.word, pfn, addr) < g.word && 0 < g.spans[l - 1]
    ensures forall a :: 0 <= Frame(g.word, pfn, addr, a) < g.word
  {
  }

  lemma EntryRun(g: Geometry, l: int, at: int, end: int)
    requires g.Valid() && g.spans[0] == PAGE_SIZE && 2 <= l < |g.spans| && Run(at, end) && end < g.word
    ensures var next := g.AddrEnd(g.spans[l - 1], at, end); Run(at, next) && next <= end
  {
    EntryBounds(g, l, at, end);
  }
}
