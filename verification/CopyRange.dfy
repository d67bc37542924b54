/** Fork's copy of one VMA's page-table entries: copy_one_pte, the restartable loop of
    copy_pte_range, and the walk over the levels above it. */
module CopyRange {
  import opened Words
  import opened Walk
  import PT = FreePgtables

  /** A swap entry's value; 0 is the swap header, never handed out. */
  type Slot = s: int | 0 < s witness 1

  /** SWAP_MAP_MAX: how often a slot can be counted before a continuation page is needed. */
  const SWAP_MAP_MAX: nat := 0x3e

  datatype Pte =
    | Mapped(frame: nat, page: bool, anon: bool, write: bool, dirty: bool, young: bool)  // page: vm_normal_page finds a struct page
    | Swap(slot: Slot)
    | Migration(ofAnon: bool, writable: bool)
    | OtherNonSwap

  /** cow: is_cow_mapping; shared: VM_SHARED; special: VM_HUGETLB, VM_PFNMAP or VM_MIXEDMAP. */
  datatype Vma = Vma(start: int, end: int, cow: bool, shared: bool, special: bool, anonVma: bool)

  type Entries = map<int, Pte>

  /** The parent's entry afterwards: copy-on-write mappings lose write permission in both. */
  function SrcAfter(e: Pte, v: Vma): Pte {
    match e
    case Mapped(_, _, _, _, _, _) => if v.cow then e.(write := false) else e
    case Migration(_, w) => if w && v.cow then e.(writable := false) else e
    case _ => e
  }

  /** The child's entry: of a shared mapping it starts clean, and it always starts old. */
  function Copied(e: Pte, v: Vma): Pte {
    var s := SrcAfter(e, v);
    if s.Mapped? then s.(dirty := s.dirty && !v.shared, young := false) else s
  }

  /** What the copies add up to: counters of the child by kind, references taken, slots duplicated. */
  datatype Tally = Tally(anon: int, file: int, swap: int, pages: seq<nat>, slots: seq<nat>) {
    function Counts(): (int, int, int) { (anon, file, swap) }

    function Plus(t: Tally): Tally { Tally(anon + t.anon, file + t.file, swap + t.swap, pages + t.pages, slots + t.slots) }
  }

  const NOTHING := Tally(0, 0, 0, [], [])

  function Effect(e: Pte): Tally {
    match e
    case Mapped(f, page, anon, _, _, _) => if !page then NOTHING else if anon then Tally(1, 0, 0, [f], []) else Tally(0, 1, 0, [f], [])
    case Swap(slot) => Tally(0, 0, 1, [], [slot])
    case Migration(anon, _) => if anon then Tally(1, 0, 0, [], []) else Tally(0, 1, 0, [], [])
    case OtherNonSwap => NOTHING
  }

  function At(src: Entries, a: int): Tally { if a in src then Effect(src[a]) else NOTHING }

  /** The flat reading of the walk. */
  function Total(src: Entries, a: int, e: int): Tally
    decreases e - a
  { if e <= a then NOTHING else Total(src, a, e - PAGE_SIZE).Plus(At(src, e - PAGE_SIZE)) }

  function Protect(src: Entries, v: Vma, a: int, e: int): Entries {
    map k | k in src :: if a <= k < e then SrcAfter(src[k], v) else src[k]
  }

  function Fill(dst: Entries, src: Entries, v: Vma, a: int, e: int): Entries {
    dst + map k | k in src && a <= k < e :: Copied(src[k], v)
  }

  predicate Aligned(ptes: Entries) { forall k :: k in ptes ==> k % PAGE_SIZE == 0 && 0 <= k }

  predicate OnPage(a: int) { a % PAGE_SIZE == 0 }

  predicate Run(addr: int, end: int) { 0 <= addr < end && OnPage(addr) && OnPage(end) }

  lemma NextPage(a: int, end: int)
    requires a < end && OnPage(a) && OnPage(end)
    ensures a + PAGE_SIZE <= end && OnPage(a + PAGE_SIZE)
  {
  }

  lemma PlusAssoc(s: Tally, t: Tally, u: Tally)
    ensures s.Plus(t).Plus(u) == s.Plus(t.Plus(u))
  {
    assert (s.pages + t.pages) + u.pages == s.pages + (t.pages + u.pages);
    assert (s.slots + t.slots) + u.slots == s.slots + (t.slots + u.slots);
  }

  lemma PlusNothing(t: Tally)
    ensures t.Plus(NOTHING) == t && NOTHING.Plus(t) == t
  {
    assert t.pages + [] == t.pages && [] + t.pages == t.pages && t.slots + [] == t.slots && [] + t.slots == t.slots;
  }

  lemma {:induction false} TotalSplit(src: Entries, a: int, b: int, e: int)
    requires a <= b <= e && (e - b) % PAGE_SIZE == 0
    ensures Total(src, a, e) == Total(src, a, b).Plus(Total(src, b, e))
    decreases e - b
  {
    hide At, Tally.Plus;
    if b < e {
      TotalSplit(src, a, b, e - PAGE_SIZE);
      PlusAssoc(Total(src, a, b), Total(src, b, e - PAGE_SIZE), At(src, e - PAGE_SIZE));
    } else {
      PlusNothing(Total(src, a, b));
    }
  }

  lemma {:induction false} TotalEmpty(src: Entries, a: int, e: int)
    requires (forall k :: k in src ==> !(a <= k < e)) && (e - a) % PAGE_SIZE == 0
    ensures Total(src, a, e) == NOTHING
    decreases e - a
  {
    hide Effect, Tally.Plus;
    if a < e {
      assert a <= e - PAGE_SIZE < e;
      TotalEmpty(src, a, e - PAGE_SIZE);
      PlusNothing(NOTHING);
    }
  }

  /** Write-protecting the first piece does not change what the second adds up to. */
  lemma {:induction false} TotalFrame(src: Entries, v: Vma, x: int, a: int, e: int)
    requires (e - a) % PAGE_SIZE == 0
    ensures Total(Protect(src, v, x, a), a, e) == Total(src, a, e)
    decreases e - a
  {
    hide At, Protect, Tally.Plus;
    if a < e {
      TotalFrame(src, v, x, a, e - PAGE_SIZE);
      AtFrame(src, v, x, a, e - PAGE_SIZE);
    }
  }

  lemma AtFrame(src: Entries, v: Vma, x: int, a: int, k: int)
    requires a <= k
    ensures At(Protect(src, v, x, a), k) == At(src, k)
  {
  }

  lemma TotalNext(src: Entries, a: int, b: int)
    requires a <= b
    ensures Total(src, a, b + PAGE_SIZE) == Total(src, a, b).Plus(At(src, b))
  {
    hide At, Tally.Plus;
  }

  function AddCounts(a: (int, int, int), b: (int, int, int)): (int, int, int) { (a.0 + b.0, a.1 + b.1, a.2 + b.2) }

  lemma PlusCounts(t: Tally, u: Tally)
    ensures t.Plus(u).Counts() == AddCounts(t.Counts(), u.Counts())
  {
  }

  /** Two adjacent pieces copied one after the other. */
  lemma PiecesJoin(dst: Entries, src: Entries, v: Vma, a: int, b: int, e: int)
    requires a <= b <= e
    ensures Protect(Protect(src, v, a, b), v, b, e) == Protect(src, v, a, e)
    ensures Fill(Fill(dst, src, v, a, b), Protect(src, v, a, b), v, b, e) == Fill(dst, src, v, a, e)
  {
  }

  lemma NoPiece(dst: Entries, src: Entries, v: Vma, a: int, e: int)
    requires forall k :: k in src ==> !(a <= k < e)
    ensures Protect(src, v, a, e) == src && Fill(dst, src, v, a, e) == dst
  {
  }

  lemma OnlyOne(src: Entries, a: int, b: int)
    requires Aligned(src) && a <= b && b % PAGE_SIZE == 0
    ensures forall k :: k in src ==> (a <= k < b + PAGE_SIZE <==> a <= k < b || k == b)
  {
  }

  /** One entry more. */
  lemma EntryJoins(dst: Entries, src: Entries, v: Vma, a: int, b: int)
    requires a <= b && forall k :: k in src ==> (a <= k < b + PAGE_SIZE <==> a <= k < b || k == b)
    ensures var p, f := Protect(src, v, a, b), Fill(dst, src, v, a, b);
      && (b in p <==> b in src)
      && (b in src ==> p[b] == src[b] && Protect(src, v, a, b + PAGE_SIZE) == p[b := SrcAfter(src[b], v)])
      && (b in src ==> Fill(dst, src, v, a, b + PAGE_SIZE) == f[b := Copied(src[b], v)])
      && (b !in src ==> Protect(src, v, a, b + PAGE_SIZE) == p && Fill(dst, src, v, a, b + PAGE_SIZE) == f)
  {
    hide SrcAfter, Copied;
  }

  /** The child's counters, and what the copies hold: page references and mappings, swap counts,
      and whether the child is on swapoff's list. */
  datatype Account = Account(anon: int, file: int, swap: int, refs: seq<nat>, maps: seq<nat>, users: seq<nat>, listed: bool) {
    function Give(t: Tally): Account {
      Account(anon + t.anon, file + t.file, swap + t.swap, refs + t.pages, maps + t.pages,
              users + t.slots, listed || t.slots != [])
    }
  }

  lemma GiveTwice(b: Account, s: Tally, t: Tally)
    ensures b.Give(s).Give(t) == b.Give(s.Plus(t))
  {
    assert (b.refs + s.pages) + t.pages == b.refs + (s.pages + t.pages);
    assert (b.maps + s.pages) + t.pages == b.maps + (s.pages + t.pages);
    assert (b.users + s.slots) + t.slots == b.users + (s.slots + t.slots);
  }

  /** The swap count of a slot: how often it was handed on. */
  function Uses(users: seq<nat>, slot: nat): nat {
    if users == [] then 0 else (if users[0] == slot then 1 else 0) + Uses(users[1..], slot)
  }

  lemma {:induction false} UsesAppend(users: seq<nat>, slot: nat, t: nat)
    ensures Uses(users + [slot], t) == Uses(users, t) + if t == slot then 1 else 0
  {
    if users == [] {
      assert users + [slot] == [slot] && [slot][1..] == [];
    } else {
      assert (users + [slot])[1..] == users[1..] + [slot];
      UsesAppend(users[1..], slot, t);
    }
  }

  lemma GiveNothing(b: Account)
    ensures b.Give(NOTHING) == b
  {
  }

  /** A pass after a pass is one pass over both. */
  lemma PassDone(src: Entries, dst: Entries, v: Vma, addr: int, from: int, a: int, books: Account)
    requires addr <= from <= a && OnPage(from) && OnPage(a)
    ensures var p := Protect(src, v, addr, from);
      && books.Give(Total(src, addr, from)).Give(Total(p, from, a)) == books.Give(Total(src, addr, a))
      && Protect(p, v, from, a) == Protect(src, v, addr, a)
      && Fill(Fill(dst, src, v, addr, from), p, v, from, a) == Fill(dst, src, v, addr, a)
  {
    PiecesJoin(dst, src, v, addr, from, a);
    TotalFrame(src, v, addr, from, a);
    TotalSplit(src, addr, from, a);
    GiveTwice(books, Total(src, addr, from), Total(src, from, a));
  }

  lemma NothingYet(src: Entries, dst: Entries, v: Vma, a: int, books: Account)
    ensures Protect(src, v, a, a) == src && Fill(dst, src, v, a, a) == dst && Total(src, a, a) == NOTHING && books.Give(NOTHING) == books
  {
    GiveNothing(books);
  }

  lemma SameMap(m: Entries, a: int)
    requires a in m
    ensures m[a := m[a]] == m
  {
  }

  lemma CopiedPresent(e: Pte, v: Vma)
    requires e.Mapped?
    ensures SrcAfter(e, v) == if v.cow then e.(write := false) else e
    ensures Copied(e, v) == e.(write := e.write && !v.cow, dirty := e.dirty && !v.shared, young := false)
  {
  }

  /** Everything a copy gives except the counters, which are added when the locks are dropped. */
  function Kept(b: Account, t: Tally): Account { b.Give(t).(anon := b.anon, file := b.file, swap := b.swap) }

  lemma KeptNext(b: Account, src: Entries, a: int, k: int)
    requires a <= k
    ensures Kept(b, Total(src, a, k + PAGE_SIZE)) == Kept(b, Total(src, a, k)).Give(At(src, k)).(anon := b.anon, file := b.file, swap := b.swap)
  {
    TotalNext(src, a, k);
    hide *;
    KeptTwice(b, Total(src, a, k), At(src, k));
  }

  lemma AtIs(src: Entries, k: int)
    ensures k in src ==> At(src, k) == Effect(src[k])
  {
  }

  lemma CountsNext(src: Entries, a: int, k: int)
    requires a <= k
    ensures Total(src, a, k + PAGE_SIZE).Counts() == AddCounts(Total(src, a, k).Counts(), At(src, k).Counts())
  {
    TotalNext(src, a, k);
    hide *;
    PlusCounts(Total(src, a, k), At(src, k));
  }

  lemma AbsentNext(src: Entries, a: int, k: int)
    requires a <= k && k !in src
    ensures Total(src, a, k + PAGE_SIZE) == Total(src, a, k)
  {
    TotalNext(src, a, k);
    assert At(src, k) == NOTHING;
    hide *;
    PlusNothing(Total(src, a, k));
  }

  lemma KeptTwice(b: Account, t: Tally, u: Tally)
    ensures Kept(b, t.Plus(u)) == Kept(b, t).Give(u).(anon := b.anon, file := b.file, swap := b.swap)
  {
    GiveTwice(b, t, u);
  }

  lemma KeptDone(b: Account, t: Tally)
    ensures Kept(b, t).(anon := b.anon + t.Counts().0, file := b.file + t.Counts().1, swap := b.swap + t.Counts().2) == b.Give(t)
  {
  }

  lemma StillAligned(src: Entries, v: Vma, a: int, e: int)
    requires Aligned(src)
    ensures Aligned(Protect(src, v, a, e)) && Protect(src, v, a, e).Keys == src.Keys
  {
  }

  /** The tables of levels l and up that lead to address a are there. */
  ghost predicate Above(g: Geometry, tables: set<PT.Table>, l: int, a: int)
    requires g.Valid() && 1 <= l
  { forall m :: l <= m < g.Root() ==> PT.Table(m, AlignDown(a, g.spans[m])) in tables }

  /** Addresses in one block of level l are in one block of every higher level. */
  lemma SameBlock(g: Geometry, l: int, m: int, a: int, k: int)
    requires g.Valid() && 0 <= l <= m < |g.spans| && AlignDown(a, g.spans[l]) <= k < AlignDown(a, g.spans[l]) + g.spans[l]
    ensures AlignDown(k, g.spans[m]) == AlignDown(a, g.spans[m])
  {
    var s, t := g.spans[l], g.spans[m];
    assert g.Nested(l, m);
    AlignDownFacts(a, t);
    SubBlock(a, s, AlignDown(a, t), t);
    AlignDownUnique(k, AlignDown(a, t), t);
  }

  lemma AboveMoves(g: Geometry, tables: set<PT.Table>, l: int, a: int, k: int)
    requires g.Valid() && 1 <= l < |g.spans| && Above(g, tables, l, a)
    requires AlignDown(a, g.spans[l]) <= k < AlignDown(a, g.spans[l]) + g.spans[l]
    ensures Above(g, tables, l, k) && AlignDown(k, g.spans[l]) == AlignDown(a, g.spans[l])
  {
    SameBlock(g, l, l, a, k);
    forall m | l <= m < g.Root()
      ensures PT.Table(m, AlignDown(k, g.spans[m])) in tables
    {
      SameBlock(g, l, m, a, k);
    }
  }

  lemma AboveGrows(g: Geometry, tables: set<PT.Table>, more: set<PT.Table>, l: int, a: int)
    requires g.Valid() && 1 <= l && Above(g, tables, l, a) && tables <= more
    ensures Above(g, more, l, a)
  {
  }

  lemma EntryTurn(g: Geometry, tables: set<PT.Table>, l: int, addr: int, at: int, end: int)
    requires g.Valid() && g.spans[0] == PAGE_SIZE && 2 <= l < |g.spans| && Run(at, end) && end < g.word
    requires 0 <= addr <= at && end <= AlignDown(addr, g.spans[l]) + g.spans[l] && Above(g, tables, l, addr)
    ensures var next := g.AddrEnd(g.spans[l - 1], at, end);
      Run(at, next) && at < next <= end && next <= AlignDown(at, g.spans[l - 1]) + g.spans[l - 1] && (next - at) % PAGE_SIZE == 0
    ensures Above(g, tables, l, at)
  {
    EntryBounds(g, l, at, end);
    AlignDownFacts(addr, g.spans[l]);
    AboveMoves(g, tables, l, addr, at);
  }

  /** What is filled in below one table of PTEs hangs below the tables that lead there. */
  lemma FillHangs(g: Geometry, tables: set<PT.Table>, dst: Entries, src: Entries, v: Vma, a: int, e: int)
    requires g.Valid() && Hangs(g, tables, dst.Keys) && Above(g, tables, 1, a) && e <= AlignDown(a, g.spans[1]) + g.spans[1]
    ensures Hangs(g, tables, Fill(dst, src, v, a, e).Keys)
  {
    AlignDownFacts(a, g.spans[1]);
    forall k, m | k in Fill(dst, src, v, a, e) && 1 <= m < g.Root()
      ensures PT.Table(m, AlignDown(k, g.spans[m])) in tables
    {
      if k !in dst {
        SameBlock(g, 1, m, a, k);
      }
    }
  }

  // ---- what was copied, entry by entry

  /** The addresses of [a, e) with an entry of this kind. */
  function Those(src: Entries, a: int, e: int, kind: Pte -> bool): set<int> { set k | k in src && a <= k < e && kind(src[k]) }

  predicate CountsAnon(e: Pte) { (e.Mapped? && e.page && e.anon) || (e.Migration? && e.ofAnon) }
  predicate CountsFile(e: Pte) { (e.Mapped? && e.page && !e.anon) || (e.Migration? && !e.ofAnon) }
  predicate SwappedOut(e: Pte) { e.Swap? }
  function MapsFrame(f: nat): Pte -> bool { (e: Pte) => e.Mapped? && e.page && e.frame == f }
  function HoldsSlot(slot: nat): Pte -> bool { (e: Pte) => e.Swap? && e.slot == slot }

  function Bump(rss: (int, int, int), e: Pte): (int, int, int) {
    (rss.0 + if CountsAnon(e) then 1 else 0, rss.1 + if CountsFile(e) then 1 else 0, rss.2 + if SwappedOut(e) then 1 else 0)
  }

  lemma EffectBumps(e: Pte, rss: (int, int, int))
    ensures Bump(rss, e) == (rss.0 + Effect(e).anon, rss.1 + Effect(e).file, rss.2 + Effect(e).swap)
  {
  }

  lemma ThoseGrow(src: Entries, a: int, b: int, kind: Pte -> bool)
    requires Aligned(src) && a <= b && b % PAGE_SIZE == 0
    ensures |Those(src, a, b + PAGE_SIZE, kind)| == |Those(src, a, b, kind)| + if b in src && kind(src[b]) then 1 else 0
  {
    hide Aligned;
    OneOnPage(src, b);
    ThoseJoin(src, a, b, kind);
  }

  lemma OneOnPage(src: Entries, b: int)
    requires Aligned(src) && b % PAGE_SIZE == 0
    ensures forall k :: k in src && b <= k < b + PAGE_SIZE ==> k == b
  {
  }

  lemma ThoseJoin(src: Entries, a: int, b: int, kind: Pte -> bool)
    requires a <= b && forall k :: k in src && b <= k < b + PAGE_SIZE ==> k == b
    ensures |Those(src, a, b + PAGE_SIZE, kind)| == |Those(src, a, b, kind)| + if b in src && kind(src[b]) then 1 else 0
  {
    assert Those(src, a, b + PAGE_SIZE, kind) == Those(src, a, b, kind) + if b in src && kind(src[b]) then {b} else {};
  }

  /** The sums in plain terms: how many entries there are of each kind, and of each frame and slot. */
  ghost predicate Sums(src: Entries, a: int, e: int, t: Tally, x: nat) {
    && t.anon == |Those(src, a, e, CountsAnon)| && t.file == |Those(src, a, e, CountsFile)| && t.swap == |Those(src, a, e, SwappedOut)| == |t.slots|
    && multiset(t.pages)[x] == |Those(src, a, e, MapsFrame(x))| && multiset(t.slots)[x] == |Those(src, a, e, HoldsSlot(x))|
  }

  lemma {:induction false} TotalSums(src: Entries, a: int, e: int, x: nat)
    requires Aligned(src) && a <= e && a % PAGE_SIZE == 0 && e % PAGE_SIZE == 0
    ensures Sums(src, a, e, Total(src, a, e), x)
    decreases e - a
  {
    if a < e {
      var b := e - PAGE_SIZE;
      TotalSums(src, a, b, x);
      TotalNext(src, a, b);
      SumsNext(src, a, b, Total(src, a, b), x);
    } else {
      NoneOfThose(src, a, CountsAnon);
      NoneOfThose(src, a, CountsFile);
      NoneOfThose(src, a, SwappedOut);
      NoneOfThose(src, a, MapsFrame(x));
      NoneOfThose(src, a, HoldsSlot(x));
    }
  }

  lemma NoneOfThose(src: Entries, a: int, kind: Pte -> bool)
    ensures Those(src, a, a, kind) == {}
  {
  }

  lemma SumsNext(src: Entries, a: int, b: int, t: Tally, x: nat)
    requires Aligned(src) && a <= b && b % PAGE_SIZE == 0 && Sums(src, a, b, t, x)
    ensures Sums(src, a, b + PAGE_SIZE, t.Plus(At(src, b)), x)
  {
    hide Those, Aligned;
    ThoseGrow(src, a, b, CountsAnon);
    ThoseGrow(src, a, b, CountsFile);
    ThoseGrow(src, a, b, SwappedOut);
    ThoseGrow(src, a, b, MapsFrame(x));
    ThoseGrow(src, a, b, HoldsSlot(x));
  }

  /** The child's counters grow by the entries of each kind in [a, e); every page gets a reference and a
      mapping, and every slot a use, for each entry that holds it. */
  ghost predicate Counted(src: Entries, a: int, e: int, before: Account, after: Account) {
    && after.anon == before.anon + |Those(src, a, e, CountsAnon)| && after.file == before.file + |Those(src, a, e, CountsFile)|
    && after.swap == before.swap + |Those(src, a, e, SwappedOut)| && (after.listed <==> before.listed || 0 < |Those(src, a, e, SwappedOut)|)
    && (forall f: nat :: CountedUsers(src, a, e, before, after, f))
  }

  ghost predicate CountedUsers(src: Entries, a: int, e: int, before: Account, after: Account, x: nat) {
    && multiset(after.refs)[x] == multiset(before.refs)[x] + |Those(src, a, e, MapsFrame(x))|
    && multiset(after.maps)[x] == multiset(before.maps)[x] + |Those(src, a, e, MapsFrame(x))|
    && multiset(after.users)[x] == multiset(before.users)[x] + |Those(src, a, e, HoldsSlot(x))|
  }

  lemma CountedIsTotal(src: Entries, a: int, e: int, before: Account)
    requires Aligned(src) && a <= e && a % PAGE_SIZE == 0 && e % PAGE_SIZE == 0
    ensures Counted(src, a, e, before, before.Give(Total(src, a, e)))
  {
    hide Total, Those, Aligned, CountedUsers;
    forall x: nat
      ensures CountedUsers(src, a, e, before, before.Give(Total(src, a, e)), x)
    {
      TotalSums(src, a, e, x);
      GiveUsers(src, a, e, before, Total(src, a, e), x);
    }
    TotalSums(src, a, e, 0);
  }

  lemma GiveUsers(src: Entries, a: int, e: int, before: Account, t: Tally, x: nat)
    requires Sums(src, a, e, t, x)
    ensures CountedUsers(src, a, e, before, before.Give(t), x)
  {
    hide Those;
  }

  /** The entries of parent and child after the copy of [a, e), field by field: copy-on-write takes the
      write permission from both, a shared mapping starts clean in the child, and the child starts old. */
  ghost predicate CopiedEntries(was: Entries, wasDst: Entries, v: Vma, a: int, e: int, src: Entries, dst: Entries) {
    && src.Keys == was.Keys && (forall k :: k in dst <==> k in wasDst || (k in was && a <= k < e))
    && (forall k :: k in was && !(a <= k < e) ==> src[k] == was[k])
    && (forall k :: k in wasDst && !(k in was && a <= k < e) ==> dst[k] == wasDst[k])
    && (forall k :: k in was && a <= k < e ==> match was[k]
          case Mapped(f, page, anon, write, dirty, young) =>
            && src[k] == Mapped(f, page, anon, write && !v.cow, dirty, young)
            && dst[k] == Mapped(f, page, anon, write && !v.cow, dirty && !v.shared, false)
          case Migration(ofAnon, writable) => src[k] == dst[k] == Migration(ofAnon, writable && !v.cow)
          case Swap(_) => src[k] == dst[k] == was[k]
          case OtherNonSwap => src[k] == dst[k] == was[k])
  }

  lemma CopiedEntriesAre(was: Entries, wasDst: Entries, v: Vma, a: int, e: int)
    ensures CopiedEntries(was, wasDst, v, a, e, Protect(was, v, a, e), Fill(wasDst, was, v, a, e))
  {
  }

  lemma OnItsPage(a: int)
    requires OnPage(a)
    ensures a % PAGE_SIZE == 0
  {
  }

  /** The walk may start at the root. */
  lemma RootReady(g: Geometry, tables: set<PT.Table>, addr: int, end: int)
    requires g.Valid() && Run(addr, end) && end < g.word
    ensures 2 <= g.Root() < |g.spans| && end <= AlignDown(addr, g.spans[g.Root()]) + g.spans[g.Root()] && Above(g, tables, g.Root(), addr)
  {
    hide Geometry.Nested, Geometry.FillsWord, OnPage;
    SmallMod(addr, g.word);
  }

  class Fork {
    const g: Geometry
    const v: Vma
    const srcTables: set<PT.Table>
    var src: Entries
    var dstTables: set<PT.Table>
    var dst: Entries
    var anon: int
    var file: int
    var swap: int
    var refs: seq<nat>
    var maps: seq<nat>
    var users: seq<nat>
    /** Slots with continuation pages count higher. */
    var limits: map<nat, nat>
    var listed: bool
    /** Whether an allocation that may wait can fail. */
    const scarce: bool
    /** Whether somebody waits for the processor or a lock when the copy stands at this address. */
    const waits: int -> bool

    constructor (g: Geometry, v: Vma, tables: set<PT.Table>, src: Entries, waits: int -> bool, scarce: bool)
      requires g.Valid() && g.spans[0] == PAGE_SIZE && Aligned(src) && Hangs(g, tables, src.Keys)
      ensures Valid() && this.g == g && this.v == v && srcTables == tables && this.src == src && this.waits == waits && this.scarce == scarce
      ensures dst == map[] && dstTables == {} && Books() == Account(0, 0, 0, [], [], [], false) && limits == map[]
    {
      this.g, this.v, srcTables, this.src, this.waits, this.scarce := g, v, tables, src, waits, scarce;
      dst, dstTables, anon, file, swap, refs, maps, users, listed, limits := map[], {}, 0, 0, 0, [], [], [], false, map[];
    }

    ghost function Books(): Account
      reads this`anon, this`file, this`swap, this`refs, this`maps, this`users, this`listed
    { Account(anon, file, swap, refs, maps, users, listed) }

    function Limit(slot: nat): nat
      reads this`limits
    { if slot in limits then limits[slot] else SWAP_MAP_MAX }

    predicate SlotFull(a: int)
      reads this`src, this`users, this`limits
    { a in src && src[a].Swap? && Limit(src[a].slot) <= Uses(users, src[a].slot) }

    /** swap_duplicate: a full slot needs a continuation page, which it asks for atomically. */
    method SwapDuplicate(slot: Slot) returns (failed: bool)
      modifies this`users, this`limits
      ensures failed ==> users == old(users) && limits == old(limits) && Limit(slot) <= Uses(users, slot)
      ensures !failed ==> users == old(users) + [slot] && Uses(users, slot) == old(Uses(users, slot)) + 1 <= Limit(slot)
    {
      UsesAppend(users, slot, slot);
      failed := false;
      if Limit(slot) <= Uses(users, slot) {
        var page: bool := *;
        if !page { return true; }
        limits := limits[slot := Uses(users, slot) + 1];
      }
      users := users + [slot];
    }

    /** add_swap_count_continuation with GFP_KERNEL. */
    method AddSwapCountContinuation(slot: Slot) returns (failed: bool)
      modifies this`limits
      ensures (failed <==> Limit(slot) <= Uses(users, slot)) && (failed ==> scarce)
    {
      failed := false;
      if Uses(users, slot) < Limit(slot) { return; }
      var page: bool := *;
      if !page && scarce { return true; }
      limits := limits[slot := Uses(users, slot) + 1];
    }

    /** get_page and page_dup_rmap. */
    method TakePage(e: Pte, rss: (int, int, int)) returns (sums: (int, int, int))
      requires e.Mapped?
      modifies this`refs, this`maps
      ensures sums == (rss.0 + Effect(e).anon, rss.1 + Effect(e).file, rss.2)
      ensures refs == old(refs) + Effect(e).pages && maps == old(maps) + Effect(e).pages
    {
      sums := rss;
      if e.page {
        refs := refs + [e.frame];
        maps := maps + [e.frame];
        sums := if e.anon then (rss.0 + 1, rss.1, rss.2) else (rss.0, rss.1 + 1, rss.2);
      } else {
        assert refs + [] == refs && maps + [] == maps;
      }
    }

    /** copy_one_pte for a present entry. */
    method CopyPresent(a: int, rss: (int, int, int)) returns (sums: (int, int, int))
      requires a in src && src[a].Mapped?
      modifies this`src, this`dst, this`refs, this`maps
      ensures sums == (rss.0 + old(Effect(src[a])).anon, rss.1 + old(Effect(src[a])).file, rss.2)
      ensures sums == Bump(rss, old(src[a]))
      ensures refs == old(refs) + old(Effect(src[a])).pages && maps == old(maps) + old(Effect(src[a])).pages
      ensures src == old(src)[a := SrcAfter(old(src[a]), v)]
      ensures dst == old(dst)[a := Copied(old(src[a]), v)]
    {
      ghost var was, e := src, src[a];
      SameMap(src, a);
      CopiedPresent(e, v);
      EffectBumps(e, rss);
      var pte := src[a];
      sums := TakePage(pte, rss);
      hide Copied, SrcAfter, Effect;
      if v.cow {
        pte := pte.(write := false);
        src := src[a := pte];
      }
      dst := dst[a := pte.(dirty := pte.dirty && !v.shared, young := false)];
    }

    /** copy_one_pte for an entry that is not present. */
    method CopyAbsent(a: int, rss: (int, int, int)) returns (full: nat, sums: (int, int, int))
      requires a in src && !src[a].Mapped?
      modifies this`src, this`dst, this`users, this`limits, this`listed
      ensures full == 0 ==> sums == (rss.0 + Effect(old(src[a])).anon, rss.1 + Effect(old(src[a])).file, rss.2 + Effect(old(src[a])).swap)
      ensures full == 0 ==> users == old(users) + Effect(old(src[a])).slots && (listed <==> old(listed) || Effect(old(src[a])).slots != [])
      ensures full == 0 ==> src == old(src)[a := SrcAfter(old(src[a]), v)] && dst == old(dst)[a := Copied(old(src[a]), v)]
      ensures full != 0 ==> src == old(src) && dst == old(dst) && users == old(users) && listed == old(listed) && sums == rss
      ensures full != 0 ==> src[a] == Swap(full) && old(SlotFull(a)) && Limit(full) <= Uses(users, full)
    {
      full, sums := 0, rss;
      var pte := src[a];
      SameMap(src, a);
      match pte {
        case Swap(slot) =>
          var failed := SwapDuplicate(slot);
          if failed { return slot, rss; }
          if !listed { listed := true; }
          sums := (rss.0, rss.1, rss.2 + 1);
        case Migration(isAnon, writable) =>
          sums := if isAnon then (rss.0 + 1, rss.1, rss.2) else (rss.0, rss.1 + 1, rss.2);
          if writable && v.cow {
            pte := pte.(writable := false);
            src := src[a := pte];
          }
        case _ =>
      }
      dst := dst[a := pte];
    }

    /** copy_one_pte; the result is 0, or the slot that could not be duplicated. */
    method CopyOnePte(a: int, rss: (int, int, int)) returns (full: nat, sums: (int, int, int))
      requires a in src
      modifies this`src, this`dst, this`refs, this`maps, this`users, this`limits, this`listed
      ensures full == 0 ==> sums == (rss.0 + Effect(old(src[a])).anon, rss.1 + Effect(old(src[a])).file, rss.2 + Effect(old(src[a])).swap)
      ensures full == 0 ==> sums == Bump(rss, old(src[a]))
      ensures full == 0 ==> Books() == old(Books()).Give(Effect(old(src[a]))).(anon := anon, file := file, swap := swap)
      ensures full == 0 ==> src == old(src)[a := SrcAfter(old(src[a]), v)] && dst == old(dst)[a := Copied(old(src[a]), v)]
      ensures full != 0 ==> src == old(src) && dst == old(dst) && Books() == old(Books()) && sums == rss
      ensures full != 0 ==> src[a] == Swap(full) && old(SlotFull(a)) && Limit(full) <= Uses(users, full)
    {
      ghost var e := src[a];
      EffectBumps(e, rss);
      assert !e.Mapped? ==> refs == refs + Effect(e).pages && maps == maps + Effect(e).pages;
      assert e.Mapped? ==> users == users + Effect(e).slots && Effect(e).slots == [] && Effect(e).swap == 0;
      hide Effect, Copied, SrcAfter, Bump;
      full := 0;
      if src[a].Mapped? {
        sums := CopyPresent(a, rss);
      } else {
        full, sums := CopyAbsent(a, rss);
      }
    }

    /** How far a pass has come: entries done, references and swap counts taken, counters still in rss. */
    ghost predicate Reached(was: Entries, wasDst: Entries, books: Account, addr: int, a: int, rss: (int, int, int))
      reads this
    {
      && src == Protect(was, v, addr, a) && dst == Fill(wasDst, was, v, addr, a)
      && Books() == Kept(books, Total(was, addr, a)) && rss == Total(was, addr, a).Counts()
      && anon == books.anon && file == books.file && swap == books.swap
    }

    lemma NothingReached(addr: int)
      ensures Reached(src, dst, Books(), addr, addr, (0, 0, 0))
    {
      NothingYet(src, dst, v, addr, Books());
    }

    /** One turn of the loop in copy_pte_range. */
    method CopyEntry(addr: int, a: int, rss: (int, int, int), progress: int, ghost was: Entries, ghost wasDst: Entries, ghost books: Account)
      returns (full: nat, sums: (int, int, int), more: int)
      requires Aligned(was) && addr <= a && OnPage(a) && Reached(was, wasDst, books, addr, a, rss)
      modifies this`src, this`dst, this`refs, this`maps, this`users, this`limits, this`listed
      ensures full == 0 ==> Reached(was, wasDst, books, addr, a + PAGE_SIZE, sums)
      ensures full == 0 ==> more == progress + if a in was then 8 else 1
      ensures full != 0 ==> Reached(was, wasDst, books, addr, a, sums) && SlotFull(a) && a in src && src[a] == Swap(full) && old(SlotFull(a))
    {
      hide Total, At, Protect, Fill, Copied, SrcAfter, Effect, Tally.Plus, Account.Give, Aligned;
      OnlyOne(was, addr, a);
      EntryJoins(wasDst, was, v, addr, a);
      full, sums, more := 0, rss, progress;
      if a !in src {
        AbsentNext(was, addr, a);
        more := more + 1;
        return;
      }
      KeptNext(books, was, addr, a);
      CountsNext(was, addr, a);
      AtIs(was, a);
      full, sums := CopyOnePte(a, rss);
      if full == 0 {
        more := more + 8;
      }
    }

    /** add_mm_rss_vec */
    method AddRss(rss: (int, int, int), ghost was: Entries, ghost wasDst: Entries, ghost books: Account, addr: int, a: int)
      requires Reached(was, wasDst, books, addr, a, rss)
      modifies this`anon, this`file, this`swap
      ensures src == Protect(was, v, addr, a) && dst == Fill(wasDst, was, v, addr, a)
      ensures Books() == books.Give(Total(was, addr, a))
    {
      anon, file, swap := anon + rss.0, file + rss.1, swap + rss.2;
    }

    /** copy_pte_range under its two locks: it stops at the end, when others wait, or at a slot that
        cannot be counted higher; it goes on if nobody ever waits, and for 32 entries at most if
        somebody always does. */
    method CopyPass(addr: int, end: int) returns (full: nat, a: int)
      requires Run(addr, end) && Aligned(src)
      modifies this`src, this`dst, this`refs, this`maps, this`users, this`limits, this`listed, this`anon, this`file, this`swap
      ensures addr <= a <= end && OnPage(a)
      ensures src == Protect(old(src), v, addr, a) && dst == Fill(old(dst), old(src), v, addr, a)
      ensures Books() == old(Books()).Give(Total(old(src), addr, a))
      ensures full == 0 ==> addr < a
      ensures full == 0 && (forall x :: !waits(x)) ==> a == end
      ensures (forall x :: waits(x)) ==> a <= addr + 32 * PAGE_SIZE
      ensures full != 0 ==> a < end && SlotFull(a) && a in src && src[a] == Swap(full)
      ensures full != 0 && a == addr ==> old(SlotFull(addr))
    {
      hide Total, Protect, Fill, Tally.Plus, Account.Give, Aligned, Fork.SlotFull, OnPage, Fork.Reached;
      ghost var was, wasDst, books := src, dst, Books();
      NothingReached(addr);
      var rss, progress := (0, 0, 0), 0;
      full, a := 0, addr;
      while true
        invariant full == 0 && addr <= a < end && OnPage(a)
        invariant Reached(was, wasDst, books, addr, a, rss)
        invariant 0 <= progress <= 39 && ((forall x :: waits(x)) ==> a - addr <= progress * PAGE_SIZE && a - addr <= 32 * PAGE_SIZE)
        invariant a == addr ==> progress == 0 && SlotFull(addr) == old(SlotFull(addr))
        decreases end - a
      {
        if 32 <= progress {
          progress := 0;
          if waits(a) { break; }
        }
        NextPage(a, end);
        full, rss, progress := CopyEntry(addr, a, rss, progress, was, wasDst, books);
        if full != 0 { break; }
        a := a + PAGE_SIZE;
        if a == end { break; }
      }
      AddRss(rss, was, wasDst, books, addr, a);
    }

    ghost predicate Valid()
      reads this`src, this`dst, this`dstTables
    {
      && g.Valid() && g.spans[0] == PAGE_SIZE && Aligned(src)
      && Hangs(g, srcTables, src.Keys) && Hangs(g, dstTables, dst.Keys)
    }

    /** copy_pte_range: a pass that was cut short is followed by another from where it stopped, after
        making room in the slot it stopped at; without room the copy fails there. */
    method CopyPteRange(addr: int, end: int) returns (failed: bool, ghost a: int)
      requires Run(addr, end) && Aligned(src)
      modifies this`src, this`dst, this`refs, this`maps, this`users, this`limits, this`listed, this`anon, this`file, this`swap
      ensures addr <= a <= end && OnPage(a) && (failed <==> a != end) && (failed ==> scarce)
      ensures src == Protect(old(src), v, addr, a) && dst == Fill(old(dst), old(src), v, addr, a)
      ensures Books() == old(Books()).Give(Total(old(src), addr, a))
    {
      ghost var was, wasDst, books := src, dst, Books();
      NothingYet(src, dst, v, addr, books);
      hide Total, Protect, Fill, Account.Give;
      var at := addr;
      failed, a := false, addr;
      while true
        invariant a == at && addr <= at < end && OnPage(at) && Aligned(src)
        invariant src == Protect(was, v, addr, at) && dst == Fill(wasDst, was, v, addr, at)
        invariant Books() == books.Give(Total(was, addr, at))
        decreases end - at, SlotFull(at)
      {
        ghost var from := at;
        var full;
        full, at := CopyPass(at, end);
        a := at;
        PassDone(was, wasDst, v, addr, from, at, books);
        StillAligned(was, v, addr, at);
        if full != 0 {
          failed := AddSwapCountContinuation(full);
          if failed { return; }
        }
        if at == end { break; }
      }
    }

    /** One entry of a table: nothing to do if the parent has no table below it; otherwise the child
        gets one, if there is memory, and the walk goes down. */
    method CopyChild(l: int, addr: int, end: int) returns (failed: bool, ghost a: int)
      requires Valid() && 1 <= l < g.Root() && Run(addr, end) && end < g.word
      requires end <= AlignDown(addr, g.spans[l]) + g.spans[l] && Above(g, dstTables, l + 1, addr)
      modifies this`src, this`dst, this`dstTables, this`refs, this`maps, this`users, this`limits, this`listed, this`anon, this`file, this`swap
      ensures Valid() && addr <= a <= end && OnPage(a) && (failed <==> a != end) && (failed ==> scarce)
      ensures old(dstTables) <= dstTables <= old(dstTables) + srcTables
      ensures src == Protect(old(src), v, addr, a) && dst == Fill(old(dst), old(src), v, addr, a)
      ensures Books() == old(Books()).Give(Total(old(src), addr, a))
      decreases l, 1
    {
      failed, a := false, end;
      ghost var was, wasDst := src, dst;
      var t := PT.Table(l, AlignDown(addr, g.spans[l]));
      if t !in srcTables {
        AbsentHoldsNothing(g, srcTables, src.Keys, l, addr, end);
        NoPiece(dst, src, v, addr, end);
        TotalEmpty(src, addr, end);
        GiveNothing(Books());
        return;
      }
      if t !in dstTables {
        var memory: bool := *;
        if !memory && scarce {
          NothingYet(src, dst, v, addr, Books());
          return true, addr;
        }
        dstTables := dstTables + {t};
      }
      assert Above(g, dstTables, l, addr);
      hide Above, Hangs, Total, Protect, Fill, Account.Give, AlignDown, Geometry.Valid;
      if l == 1 {
        failed, a := CopyPteRange(addr, end);
        StillAligned(was, v, addr, a);
        FillHangs(g, dstTables, wasDst, was, v, addr, a);
      } else {
        failed, a := CopyLevel(l, addr, end);
      }
    }

    /** copy_page_range (l == root), copy_pud_range, copy_pmd_range. */
    method CopyLevel(l: int, addr: int, end: int) returns (failed: bool, ghost a: int)
      requires Valid() && 2 <= l < |g.spans| && Run(addr, end) && end < g.word
      requires end <= AlignDown(addr, g.spans[l]) + g.spans[l] && Above(g, dstTables, l, addr)
      modifies this`src, this`dst, this`dstTables, this`refs, this`maps, this`users, this`limits, this`listed, this`anon, this`file, this`swap
      ensures Valid() && addr <= a <= end && OnPage(a) && (failed <==> a != end) && (failed ==> scarce)
      ensures old(dstTables) <= dstTables <= old(dstTables) + srcTables
      ensures src == Protect(old(src), v, addr, a) && dst == Fill(old(dst), old(src), v, addr, a)
      ensures Books() == old(Books()).Give(Total(old(src), addr, a))
      decreases l, 0
    {
      ghost var was, wasDst, books := src, dst, Books();
      NothingYet(src, dst, v, addr, books);
      assert 0 < g.spans[l - 1] && 0 < g.word;
      hide Total, Protect, Fill, Account.Give, Hangs, Above, AlignDown, Geometry.Valid, Geometry.AddrEnd, Aligned, OnPage;
      var at := addr;
      failed, a := false, addr;
      while true
        invariant Valid() && a == at && addr <= at < end && OnPage(at)
        invariant old(dstTables) <= dstTables <= old(dstTables) + srcTables && Above(g, dstTables, l, addr)
        invariant src == Protect(was, v, addr, at) && dst == Fill(wasDst, was, v, addr, at)
        invariant Books() == books.Give(Total(was, addr, at))
        decreases end - at
      {
        var next := g.AddrEnd(g.spans[l - 1], at, end);
        EntryTurn(g, dstTables, l, addr, at, end);
        ghost var had := dstTables;
        failed, a := CopyChild(l - 1, at, next);
        PassDone(was, wasDst, v, addr, at, a, books);
        AboveGrows(g, had, dstTables, l, addr);
        if failed { return; }
        at := next;
        if at == end { break; }
      }
    }

    /** copy_page_range, with copy_page_range's test for mappings whose entries a fault will fill. */
    method CopyPageRange() returns (failed: bool, ghost a: int)
      requires Valid() && Run(v.start, v.end) && v.end < g.word
      modifies this`src, this`dst, this`dstTables, this`refs, this`maps, this`users, this`limits, this`listed, this`anon, this`file, this`swap
      ensures Valid() && v.start <= a <= v.end && old(dstTables) <= dstTables <= old(dstTables) + srcTables
      ensures !v.special && !v.anonVma ==> !failed && a == v.start
      ensures v.special || v.anonVma ==> (failed <==> a != v.end) && (failed ==> scarce)
      ensures src == Protect(old(src), v, v.start, a) && dst == Fill(old(dst), old(src), v, v.start, a)
      ensures Books() == old(Books()).Give(Total(old(src), v.start, a)) && OnPage(a)
      ensures Counted(old(src), v.start, a, old(Books()), Books())
      ensures CopiedEntries(old(src), old(dst), v, v.start, a, src, dst)
    {
      ghost var was, wasDst, books := src, dst, Books();
      NothingYet(src, dst, v, v.start, Books());
      RootReady(g, dstTables, v.start, v.end);
      hide Total, Protect, Fill, Account.Give, Hangs, Above, AlignDown, Geometry.Valid, Aligned, OnPage, Counted, CopiedEntries;
      if v.special || v.anonVma {
        failed, a := CopyLevel(g.Root(), v.start, v.end);
      } else {
        failed, a := false, v.start;
      }
      OnItsPage(a);
      CountedIsTotal(was, v.start, a, books);
      CopiedEntriesAre(was, wasDst, v, v.start, a);
    }
  }
}
