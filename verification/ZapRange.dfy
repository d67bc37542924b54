/** Unmapping: zap_pte_range over a run of entries, the walk down to it, and the callers that clip
    the range to a VMA or to a hole in a file. */
module ZapRange {
  import opened MmuGather
  import opened Walk
  import opened Words
  import PT = FreePgtables

  /** page->mapping: a private copy belongs to an anon_vma, and never to a file. */
  datatype Mapping = AnonVma(id: nat) | FileOf(id: nat)

  /** What a page-table entry that is not none can hold. */
  datatype Entry =
    | Present(page: nat, normal: bool, mapping: Mapping, dirty: bool)  // normal: vm_normal_page finds a struct page
    | Swapped(slot: nat)
    | Migrating(anon: bool)
    | Poisoned

  /** zap_details once unmap_page_range has dropped one without a mapping to check. */
  datatype Details = Everything | OnlyOf(file: nat)

  /** Does zap_pte_range clear this entry? */
  predicate Zapped(e: Entry, d: Details) {
    match e
    case Present(_, normal, mapping, _) => d.Everything? || !normal || mapping == FileOf(d.file)
    case _ => d.Everything?
  }

  /** What clearing entries takes away: counts by kind, references, swap slots, and the pages whose
      dirty bit moves from the entry to the page. */
  datatype Tally = Tally(anon: int, file: int, swap: int, refs: seq<Ref>, slots: seq<nat>, dirtied: set<nat>) {
    function Plus(t: Tally): Tally {
      Tally(anon + t.anon, file + t.file, swap + t.swap, refs + t.refs, slots + t.slots, dirtied + t.dirtied)
    }
  }

  const NOTHING := Tally(0, 0, 0, [], [], {})

  function Effect(e: Entry, d: Details, a: int): Tally {
    if !Zapped(e, d) then NOTHING
    else match e
      case Present(p, normal, mapping, dirty) =>
        if !normal then NOTHING
        else if mapping.AnonVma? then Tally(1, 0, 0, [Ref(p, a)], [], {})
        else Tally(0, 1, 0, [Ref(p, a)], [], if dirty then {p} else {})
      case Swapped(slot) => Tally(0, 0, 1, [], [slot], {})
      case Migrating(anon) => Tally(if anon then 1 else 0, if anon then 0 else 1, 0, [], [], {})
      case Poisoned => NOTHING
  }

  type Entries = map<int, Entry>

  function At(ptes: Entries, d: Details, a: int): Tally { if a in ptes then Effect(ptes[a], d, a) else NOTHING }

  /** The flat reading of an unmap: the entries of [a, e), one after the other. */
  function Total(ptes: Entries, d: Details, a: int, e: int): Tally
    decreases e - a
  { if e <= a then NOTHING else Total(ptes, d, a, e - PAGE_SIZE).Plus(At(ptes, d, e - PAGE_SIZE)) }

  /** The entries that are left. */
  function Left(ptes: Entries, d: Details, a: int, e: int): Entries {
    map k | k in ptes && !(a <= k < e && Zapped(ptes[k], d)) :: ptes[k]
  }

  predicate Aligned(ptes: Entries) { forall k :: k in ptes ==> k % PAGE_SIZE == 0 && 0 <= k }

  lemma PlusAssoc(s: Tally, t: Tally, u: Tally)
    ensures s.Plus(t).Plus(u) == s.Plus(t.Plus(u))
  {
    assert (s.refs + t.refs) + u.refs == s.refs + (t.refs + u.refs);
    assert (s.slots + t.slots) + u.slots == s.slots + (t.slots + u.slots);
  }

  lemma PlusNothing(t: Tally)
    ensures t.Plus(NOTHING) == t && NOTHING.Plus(t) == t
  {
    assert t.refs + [] == t.refs && [] + t.refs == t.refs && t.slots + [] == t.slots && [] + t.slots == t.slots;
  }

  /** Walking a range in two pieces is walking it at once. */
  lemma {:induction false} TotalSplit(ptes: Entries, d: Details, a: int, b: int, e: int)
    requires a <= b <= e && (e - b) % PAGE_SIZE == 0
    ensures Total(ptes, d, a, e) == Total(ptes, d, a, b).Plus(Total(ptes, d, b, e))
    decreases e - b
  {
    if b < e {
      TotalSplit(ptes, d, a, b, e - PAGE_SIZE);
      PlusAssoc(Total(ptes, d, a, b), Total(ptes, d, b, e - PAGE_SIZE), At(ptes, d, e - PAGE_SIZE));
    } else {
      PlusNothing(Total(ptes, d, a, b));
    }
  }

  /** A range that holds no entries adds nothing. */
  lemma {:induction false} TotalEmpty(ptes: Entries, d: Details, a: int, e: int)
    requires (forall k :: k in ptes ==> !(a <= k < e)) && (e - a) % PAGE_SIZE == 0
    ensures Total(ptes, d, a, e) == NOTHING
    decreases e - a
  {
    hide Effect, Tally.Plus;
    if a < e {
      assert a <= e - PAGE_SIZE < e;
      TotalEmpty(ptes, d, a, e - PAGE_SIZE);
      PlusNothing(NOTHING);
    }
  }

  lemma LeftEmpty(ptes: Entries, d: Details, a: int, e: int)
    requires forall k :: k in ptes ==> !(a <= k < e)
    ensures Left(ptes, d, a, e) == ptes
  {
  }

  /** What is left of the first piece decides nothing about the second. */
  lemma {:induction false} TotalFrame(ptes: Entries, d: Details, x: int, a: int, e: int)
    requires (e - a) % PAGE_SIZE == 0
    ensures Total(Left(ptes, d, x, a), d, a, e) == Total(ptes, d, a, e)
    decreases e - a
  {
    hide At, Left;
    if a < e {
      TotalFrame(ptes, d, x, a, e - PAGE_SIZE);
      AtFrame(ptes, d, x, a, e - PAGE_SIZE);
    }
  }

  lemma AtFrame(ptes: Entries, d: Details, x: int, a: int, k: int)
    requires a <= k
    ensures At(Left(ptes, d, x, a), d, k) == At(ptes, d, k)
  {
  }

  lemma LeftSplit(ptes: Entries, d: Details, a: int, b: int, e: int)
    requires a <= b <= e
    ensures Left(Left(ptes, d, a, b), d, b, e) == Left(ptes, d, a, e)
  {
  }

  lemma LeftStep(ptes: Entries, d: Details, a: int, b: int)
    requires Aligned(ptes) && a <= b && b % PAGE_SIZE == 0
    ensures Left(ptes, d, a, b + PAGE_SIZE) == if b in ptes && Zapped(ptes[b], d) then Left(ptes, d, a, b) - {b} else Left(ptes, d, a, b)
    ensures b in Left(ptes, d, a, b) <==> b in ptes
    ensures b in ptes ==> Left(ptes, d, a, b)[b] == ptes[b]
  {
  }

  /** The counters and logs of an address space. */
  datatype Account = Account(anon: int, file: int, swap: int, slots: seq<nat>, dirtied: set<nat>) {
    function Take(t: Tally): Account { Account(anon - t.anon, file - t.file, swap - t.swap, slots + t.slots, dirtied + t.dirtied) }
  }

  lemma TakeTwice(b: Account, s: Tally, t: Tally)
    ensures b.Take(s).Take(t) == b.Take(s.Plus(t))
  {
    assert (b.slots + s.slots) + t.slots == b.slots + (s.slots + t.slots);
  }

  class Mm {
    const g: Geometry
    var tables: set<PT.Table>
    var ptes: Entries
    var anon: int
    var file: int
    var swap: int
    /** Swap slots given to free_swap_and_cache. */
    var slots: seq<nat>
    /** Pages marked dirty by set_page_dirty. */
    var dirtied: set<nat>

    ghost function Books(): Account
      reads this
    { Account(anon, file, swap, slots, dirtied) }

    ghost predicate Valid()
      reads this
    { g.Valid() && g.spans[0] == PAGE_SIZE && Aligned(ptes) && Hangs(g, tables, ptes.Keys) }

    constructor (g: Geometry, tables: set<PT.Table>, ptes: Entries)
      requires g.Valid() && g.spans[0] == PAGE_SIZE && Aligned(ptes) && Hangs(g, tables, ptes.Keys)
      ensures Valid() && this.g == g && this.tables == tables && this.ptes == ptes
    {
      this.g, this.tables, this.ptes, anon, file, swap, slots, dirtied := g, tables, ptes, 0, 0, 0, [], {};
    }

    /** The body of zap_pte_range's loop for a present entry that goes. */
    method ZapPresent(tlb: Gather, a: int, e: Entry) returns (anonRss: int, fileRss: int, force: bool, full: bool)
      requires tlb.Valid() && tlb.Room() && 0 <= a && e.Present? && e.normal
      modifies this`dirtied, tlb, tlb.chain
      ensures tlb.Valid() && tlb.cached == old(tlb.cached) && fresh(set b | b in tlb.chain && b !in old(tlb.chain))
      ensures anonRss == (if e.mapping.AnonVma? then -1 else 0) && fileRss == (if e.mapping.AnonVma? then 0 else -1)
      ensures dirtied == old(dirtied) + (if e.mapping.FileOf? && e.dirty then {e.page} else {})
      ensures tlb.Removed() == old(tlb.Removed()) + [Ref(e.page, a)] && tlb.freed == old(tlb.freed)
      ensures force == ((e.mapping.FileOf? && e.dirty) || full) && (!full ==> tlb.Room()) && tlb.end != 0 && tlb.Covers(a)
    {
      assert tlb.active in tlb.chain;
      hide Gather.Chained, Gather.FilledInOrder, Flatten;
      anonRss, fileRss, force, full := 0, 0, false, false;
      tlb.RemoveTlbEntry(a);
      if e.mapping.AnonVma? {
        anonRss := -1;
      } else {
        if e.dirty {
          force := true;
          dirtied := dirtied + {e.page};
        }
        fileRss := -1;
      }
      var mem: bool := *;
      var slotsLeft := tlb.RemovePage(Ref(e.page, a), mem);
      if slotsLeft == 0 {
        force, full := true, true;
      }
    }

    /** One turn of zap_pte_range's loop, at an address that may hold an entry. */
    method ZapEntry(tlb: Gather, a: int, d: Details) returns (rss: (int, int, int), force: bool, full: bool)
      requires tlb.Valid() && tlb.Room() && 0 <= a
      modifies this`ptes, this`slots, this`dirtied, tlb, tlb.chain
      ensures tlb.Valid() && tlb.cached == old(tlb.cached) && fresh(set b | b in tlb.chain && b !in old(tlb.chain))
      ensures var t := At(old(ptes), d, a);
        && rss == (-t.anon, -t.file, -t.swap) && slots == old(slots) + t.slots && dirtied == old(dirtied) + t.dirtied
        && tlb.Removed() == old(tlb.Removed()) + t.refs && tlb.freed == old(tlb.freed)
        && force == (t.dirtied != {} || full)
      ensures ptes == if a in old(ptes) && Zapped(old(ptes)[a], d) then old(ptes) - {a} else old(ptes)
      ensures var gone := a in old(ptes) && Zapped(old(ptes)[a], d);
        && rss == Fall(if gone then [old(ptes)[a]] else [])
        && var written := gone && old(ptes)[a].Present? && old(ptes)[a].normal && old(ptes)[a].mapping.FileOf? && old(ptes)[a].dirty;
           (force <==> full || written) && dirtied == old(dirtied) + (if written then {old(ptes)[a].page} else {})
      ensures a in old(ptes) && old(ptes)[a].Present? && Zapped(old(ptes)[a], d) ==> tlb.end != 0 && tlb.Covers(a)
      ensures !full ==> tlb.Room()
    {
      hide Gather.Chained, Gather.FilledInOrder, Gather.Safe, Flatten, Gather.Removed;
      assert tlb.Removed() + [] == tlb.Removed() && slots + [] == slots && dirtied + {} == dirtied;
      AtIs(ptes, d, a);
      rss, force, full := (0, 0, 0), false, false;
      if a !in ptes { return; }
      var e := ptes[a];
      if e.Present? {
        if d.OnlyOf? && e.normal && FileOf(d.file) != e.mapping { return; }
        ptes := ptes - {a};
        if !e.normal {
          tlb.RemoveTlbEntry(a);
        } else {
          var anonRss, fileRss;
          anonRss, fileRss, force, full := ZapPresent(tlb, a, e);
          rss := (anonRss, fileRss, 0);
        }
        return;
      }
      if d.OnlyOf? { return; }
      match e {
        case Swapped(slot) =>
          rss := (0, 0, -1);
          slots := slots + [slot];
        case Migrating(isAnon) => rss := if isAnon then (-1, 0, 0) else (0, -1, 0);
        case _ =>
      }
      ptes := ptes - {a};
    }

    /** How far a pass has come: entries done, references handed to the gather, counters still in rss. */
    ghost predicate Reached(tlb: Gather, was: Entries, books: Account, taken: seq<Ref>, d: Details, addr: int, a: int, rss: (int, int, int))
      reads this, tlb, tlb.chain
    {
      var t := Total(was, d, addr, a);
      && ptes == Left(was, d, addr, a) && rss == (-t.anon, -t.file, -t.swap)
      && anon == books.anon && file == books.file && swap == books.swap
      && slots == books.slots + t.slots && dirtied == books.dirtied + t.dirtied && tlb.Removed() == taken + t.refs
    }

    lemma NothingReached(tlb: Gather, d: Details, addr: int)
      requires Aligned(ptes)
      ensures Reached(tlb, ptes, Books(), tlb.Removed(), d, addr, addr, (0, 0, 0)) && Total(ptes, d, addr, addr).dirtied == {}
    {
      LeftFacts(ptes, d, addr, addr);
      EmptySums(Books(), tlb.Removed());
    }

    /** One turn of zap_pte_range's loop. */
    method ZapTurn(tlb: Gather, addr: int, a: int, d: Details, rss: (int, int, int), ghost was: Entries, ghost books: Account, ghost taken: seq<Ref>)
      returns (sums: (int, int, int), force: bool, full: bool)
      requires tlb.Valid() && tlb.Room() && 0 <= addr <= a && a % PAGE_SIZE == 0 && addr % PAGE_SIZE == 0
      requires Aligned(was) && Reached(tlb, was, books, taken, d, addr, a, rss)
      modifies this`ptes, this`slots, this`dirtied, tlb, tlb.chain
      ensures tlb.Valid() && tlb.cached == old(tlb.cached) && tlb.freed == old(tlb.freed) && fresh(set b | b in tlb.chain && b !in old(tlb.chain))
      ensures Reached(tlb, was, books, taken, d, addr, a + PAGE_SIZE, sums)
      ensures force <==> full || At(was, d, a).dirtied != {}
      ensures !full ==> tlb.Room()
    {
      hide Gather.Chained, Gather.FilledInOrder, Gather.Safe, Flatten, Gather.Removed, Left, At, Total, Tally.Plus;
      LeftStep(was, d, addr, a);
      var entryRss;
      entryRss, force, full := ZapEntry(tlb, a, d);
      AtFrame(was, d, addr, a, a);
      TotalNext(was, d, addr, a);
      EntryDone(taken, books.slots, books.dirtied, Total(was, d, addr, a), At(was, d, a));
      sums := (rss.0 + entryRss.0, rss.1 + entryRss.1, rss.2 + entryRss.2);
    }

    /** add_mm_rss_vec */
    method AddRss(rss: (int, int, int), tlb: Gather, ghost was: Entries, ghost books: Account, ghost taken: seq<Ref>, d: Details, addr: int, a: int)
      requires Reached(tlb, was, books, taken, d, addr, a, rss)
      modifies this`anon, this`file, this`swap
      ensures ptes == Left(was, d, addr, a) && Books() == books.Take(Total(was, d, addr, a))
      ensures tlb.Removed() == taken + Total(was, d, addr, a).refs
    {
      hide Gather.Removed, Left, Total;
      anon, file, swap := anon + rss.0, file + rss.1, swap + rss.2;
    }

    /** One pass of zap_pte_range, up to the end or to the first full batch. */
    method ZapPass(tlb: Gather, addr: int, end: int, d: Details) returns (a: int, force: bool, full: bool)
      requires tlb.Valid() && tlb.Room() && Run(ptes, addr, end)
      modifies this`ptes, this`anon, this`file, this`swap, this`slots, this`dirtied, tlb, tlb.chain
      ensures tlb.Valid() && tlb.cached == old(tlb.cached) && fresh(set b | b in tlb.chain && b !in old(tlb.chain))
      ensures addr < a <= end && (a - addr) % PAGE_SIZE == 0
      ensures ptes == Left(old(ptes), d, addr, a)
      ensures Books() == old(Books()).Take(Total(old(ptes), d, addr, a))
      ensures tlb.Removed() == old(tlb.Removed()) + Total(old(ptes), d, addr, a).refs && tlb.freed == old(tlb.freed)
      ensures force <==> full || Total(old(ptes), d, addr, a).dirtied != {}
      ensures force <==> full || Gone(old(ptes), d, addr, a, Written) != {}
      ensures !full ==> a == end && tlb.Room()
    {
      hide Gather.Chained, Gather.FilledInOrder, Gather.Safe, Flatten, Gather.Removed, Left, At, Total, Tally.Plus, Mm.Reached, Aligned, Account.Take, Gone;
      ghost var was, books, taken := ptes, Books(), tlb.Removed();
      NothingReached(tlb, d, addr);
      var rss := (0, 0, 0);
      a, force, full := addr, false, false;
      while true
        invariant tlb.Valid() && tlb.Room() && tlb.cached == old(tlb.cached) && tlb.freed == old(tlb.freed)
        invariant fresh(set b | b in tlb.chain && b !in old(tlb.chain))
        invariant addr <= a < end && a % PAGE_SIZE == 0 && (a - addr) % PAGE_SIZE == 0
        invariant Reached(tlb, was, books, taken, d, addr, a, rss)
        invariant force <==> Total(was, d, addr, a).dirtied != {}
        decreases end - a
      {
        var entryForce;
        rss, entryForce, full := ZapTurn(tlb, addr, a, d, rss, was, books, taken);
        TotalNext(was, d, addr, a);
        force := force || entryForce;
        a := a + PAGE_SIZE;
        if full || a == end { break; }
      }
      AddRss(rss, tlb, was, books, taken, d, addr, a);
      WrittenForces(was, d, addr, a);
    }

    /** zap_pte_range: flush before the lock is dropped if a batch is full or a write may be in
        flight, and start again where the pass stopped. */
    method ZapPteRange(tlb: Gather, addr: int, end: int, d: Details) returns (a: int)
      requires tlb.Valid() && tlb.Room() && Run(ptes, addr, end)
      modifies this`ptes, this`anon, this`file, this`swap, this`slots, this`dirtied, tlb, tlb.chain
      ensures tlb.Valid() && tlb.Room() && a == end && tlb.cached <= old(tlb.cached)
      ensures fresh(set b | b in tlb.chain && b !in old(tlb.chain))
      ensures ptes == Left(old(ptes), d, addr, end)
      ensures Books() == old(Books()).Take(Total(old(ptes), d, addr, end))
      ensures tlb.Removed() == old(tlb.Removed()) + Total(old(ptes), d, addr, end).refs
    {
      hide Gather.Chained, Gather.FilledInOrder, Gather.Safe, Flatten, Left, At, Gather.Removed;
      ghost var was, books, taken := ptes, Books(), tlb.Removed();
      LeftFacts(was, d, addr, addr);
      EmptySums(books, taken);
      hide Total;
      a := addr;
      while true
        invariant tlb.Valid() && tlb.Room() && fresh(set b | b in tlb.chain && b !in old(tlb.chain))
        invariant addr <= a < end && (a - addr) % PAGE_SIZE == 0 && Aligned(ptes) && tlb.cached <= old(tlb.cached)
        invariant ptes == Left(was, d, addr, a)
        invariant Books() == books.Take(Total(was, d, addr, a))
        invariant tlb.Removed() == taken + Total(was, d, addr, a).refs
        decreases end - a
      {
        ghost var from := a;
        var force, full;
        a, force, full := ZapPass(tlb, a, end, d);
        PassDone(was, d, addr, from, a, books, taken);
        LeftFacts(was, d, addr, a);
        if force {
          tlb.FlushTlbOnly();
          tlb.FlushFree();
        }
        if !force || a == end { break; }
      }
    }

    /** unmap_page_range (l == root), zap_pud_range, zap_pmd_range: the walk over all levels is the
        flat loop over the entries of [addr, end). */
    method ZapLevel(l: int, tlb: Gather, addr: int, end: int, d: Details)
      requires Valid() && 2 <= l < |g.spans| && tlb.Valid() && tlb.Room() && Run(ptes, addr, end) && end < g.word
      modifies this`ptes, this`anon, this`file, this`swap, this`slots, this`dirtied, tlb, tlb.chain
      ensures Valid() && tlb.Valid() && tlb.Room() && tlb.cached <= old(tlb.cached)
      ensures fresh(set b | b in tlb.chain && b !in old(tlb.chain))
      ensures ptes == Left(old(ptes), d, addr, end)
      ensures Books() == old(Books()).Take(Total(old(ptes), d, addr, end))
      ensures tlb.Removed() == old(tlb.Removed()) + Total(old(ptes), d, addr, end).refs
      ensures TornDown(old(ptes), ptes, d, addr, end, old(Books()), Books()) && RefsOf(old(ptes), d, addr, end, Total(old(ptes), d, addr, end).refs)
      decreases l, 0
    {
      hide Gather.Chained, Gather.FilledInOrder, Gather.Safe, Flatten, Left, At, Gather.Removed, TornDown, RefsOf;
      ghost var was, books, taken := ptes, Books(), tlb.Removed();
      LeftFacts(was, d, addr, addr);
      EmptySums(books, taken);
      hide Total, Hangs, AlignDown, Geometry.AddrEnd, Geometry.Valid, Aligned;
      var a := addr;
      while true
        invariant Valid() && tlb.Valid() && tlb.Room() && fresh(set b | b in tlb.chain && b !in old(tlb.chain))
        invariant addr <= a < end && a % PAGE_SIZE == 0 && tlb.cached <= old(tlb.cached)
        invariant ptes == Left(was, d, addr, a)
        invariant Books() == books.Take(Total(was, d, addr, a))
        invariant tlb.Removed() == taken + Total(was, d, addr, a).refs
        decreases end - a
      {
        var next := g.AddrEnd(g.spans[l - 1], a, end);
        EntryBounds(g, l, a, end);
        ZapChild(l - 1, tlb, a, next, d);
        PassDone(was, d, addr, a, next, books, taken);
        a := next;
        if a == end { break; }
      }
      AlignedRun(was, addr, end);
      TornDownIs(was, d, addr, end, books);
    }

    /** One entry: skipped if there is no table below it. */
    method ZapChild(l: int, tlb: Gather, addr: int, end: int, d: Details)
      requires Valid() && 1 <= l < g.Root() && tlb.Valid() && tlb.Room() && Run(ptes, addr, end) && end < g.word
      requires end <= AlignDown(addr, g.spans[l]) + g.spans[l]
      modifies this`ptes, this`anon, this`file, this`swap, this`slots, this`dirtied, tlb, tlb.chain
      ensures Valid() && tlb.Valid() && tlb.Room() && tlb.cached <= old(tlb.cached)
      ensures fresh(set b | b in tlb.chain && b !in old(tlb.chain))
      ensures ptes == Left(old(ptes), d, addr, end)
      ensures Books() == old(Books()).Take(Total(old(ptes), d, addr, end))
      ensures tlb.Removed() == old(tlb.Removed()) + Total(old(ptes), d, addr, end).refs
      decreases l, 1
    {
      hide Gather.Chained, Gather.FilledInOrder, Gather.Safe, Flatten, At, Gather.Removed;
      if PT.Table(l, AlignDown(addr, g.spans[l])) !in tables {
        AbsentHoldsNothing(g, tables, ptes.Keys, l, addr, end);
        TotalEmpty(ptes, d, addr, end);
        LeftEmpty(ptes, d, addr, end);
        EmptySums(Books(), tlb.Removed());
        return;
      }
      LeftHangs(g, tables, ptes, d, addr, end);
      hide Hangs, Left, Total, AlignDown;
      if l == 1 {
        var a := ZapPteRange(tlb, addr, end, d);
      } else {
        ZapLevel(l, tlb, addr, end, d);
      }
    }
  }

  lemma LeftHangs(g: Geometry, tables: set<PT.Table>, ptes: Entries, d: Details, a: int, e: int)
    requires g.Valid() && Hangs(g, tables, ptes.Keys) && Aligned(ptes)
    ensures Hangs(g, tables, Left(ptes, d, a, e).Keys) && Aligned(Left(ptes, d, a, e))
  {
  }

  lemma TotalNext(ptes: Entries, d: Details, a: int, b: int)
    requires a <= b
    ensures var t, u := Total(ptes, d, a, b), At(ptes, d, b);
      && Total(ptes, d, a, b + PAGE_SIZE) == t.Plus(u)
      && t.Plus(u).anon == t.anon + u.anon && t.Plus(u).file == t.file + u.file && t.Plus(u).swap == t.swap + u.swap
      && t.Plus(u).dirtied == t.dirtied + u.dirtied
  {
  }

  lemma EntryDone(refs: seq<Ref>, slots: seq<nat>, dirtied: set<nat>, t: Tally, u: Tally)
    ensures (refs + t.refs) + u.refs == refs + t.Plus(u).refs
    ensures (slots + t.slots) + u.slots == slots + t.Plus(u).slots
    ensures (dirtied + t.dirtied) + u.dirtied == dirtied + t.Plus(u).dirtied
  {
    Assoc(refs, t.refs, u.refs);
  }

  predicate Run(ptes: Entries, addr: int, end: int) {
    Aligned(ptes) && 0 <= addr < end && addr % PAGE_SIZE == 0 && end % PAGE_SIZE == 0
  }

  /** Taking a second pass after a first is taking both. */
  lemma PassDone(was: Entries, d: Details, addr: int, from: int, a: int, books: Account, taken: seq<Ref>)
    requires addr <= from <= a && (a - from) % PAGE_SIZE == 0
    ensures var t, u := Total(was, d, addr, from), Total(Left(was, d, addr, from), d, from, a);
      && books.Take(t).Take(u) == books.Take(Total(was, d, addr, a))
      && (taken + t.refs) + u.refs == taken + Total(was, d, addr, a).refs
    ensures Left(Left(was, d, addr, from), d, from, a) == Left(was, d, addr, a)
  {
    LeftSplit(was, d, addr, from, a);
    TotalFrame(was, d, addr, from, a);
    TotalSplit(was, d, addr, from, a);
    hide Total, At, Effect, Left;
    var t, u := Total(was, d, addr, from), Total(was, d, from, a);
    TakeTwice(books, t, u);
    Assoc(taken, t.refs, u.refs);
  }

  lemma LeftFacts(ptes: Entries, d: Details, a: int, e: int)
    requires Aligned(ptes)
    ensures Aligned(Left(ptes, d, a, e)) && Left(ptes, d, a, a) == ptes && Total(ptes, d, a, a) == NOTHING
  {
  }

  lemma EmptySums(books: Account, taken: seq<Ref>)
    ensures books.Take(NOTHING) == books && taken + NOTHING.refs == taken
  {
  }

  lemma AlignedRun(ptes: Entries, addr: int, end: int)
    requires Run(ptes, addr, end)
    ensures Aligned(ptes) && addr % PAGE_SIZE == 0 && end % PAGE_SIZE == 0
  {
  }

  // ---- what was unmapped, entry by entry

  /** The addresses of [a, e) whose entries go, of this kind: with a file to check, only pages of this file
      and frames without a page. */
  function Gone(ptes: Entries, d: Details, a: int, e: int, kind: Entry -> bool): set<int> {
    set k | k in ptes && a <= k < e && (d.Everything? || (ptes[k].Present? && (!ptes[k].normal || ptes[k].mapping == FileOf(d.file)))) && kind(ptes[k])
  }

  /** By how much the counters move for an entry that goes, if one does. */
  function Fall(gone: seq<Entry>): (int, int, int) {
    if gone == [] then (0, 0, 0)
    else (if CountsAnon(gone[0]) then -1 else 0, if CountsFile(gone[0]) then -1 else 0, if SwappedOut(gone[0]) then -1 else 0)
  }

  predicate AnyEntry(e: Entry) { true }
  predicate CountsAnon(e: Entry) { (e.Present? && e.normal && e.mapping.AnonVma?) || (e.Migrating? && e.anon) }
  predicate CountsFile(e: Entry) { (e.Present? && e.normal && e.mapping.FileOf?) || (e.Migrating? && !e.anon) }
  predicate SwappedOut(e: Entry) { e.Swapped? }
  predicate HoldsPage(e: Entry) { e.Present? && e.normal }
  /** A write may still be in flight through a TLB of another CPU. */
  predicate Written(e: Entry) { e.Present? && e.normal && e.mapping.FileOf? && e.dirty }
  function HoldsSlot(slot: nat): Entry -> bool { (e: Entry) => e.Swapped? && e.slot == slot }

  /** The pages that these entries map. */
  function PagesAt(ptes: Entries, at: set<int>): set<nat> { set k | k in at && k in ptes && ptes[k].Present? :: ptes[k].page }

  lemma OneOnPage(ptes: Entries, b: int)
    requires Aligned(ptes) && b % PAGE_SIZE == 0
    ensures forall k :: k in ptes && b <= k < b + PAGE_SIZE ==> k == b
  {
  }

  lemma GoneJoin(ptes: Entries, d: Details, a: int, b: int, kind: Entry -> bool)
    requires a <= b && forall k :: k in ptes && b <= k < b + PAGE_SIZE ==> k == b
    ensures var s, s', more := Gone(ptes, d, a, b, kind), Gone(ptes, d, a, b + PAGE_SIZE, kind), b in ptes && Zapped(ptes[b], d) && kind(ptes[b]);
      s' == (if more then s + {b} else s) && b !in s && |s'| == |s| + if more then 1 else 0
  {
    var s, s', more := Gone(ptes, d, a, b, kind), Gone(ptes, d, a, b + PAGE_SIZE, kind), b in ptes && Zapped(ptes[b], d) && kind(ptes[b]);
    assert s' == if more then s + {b} else s;
  }

  /** The counters, in plain terms: how many entries of each kind go, and which slots and dirty pages. */
  ghost predicate Sums(ptes: Entries, d: Details, a: int, e: int, t: Tally) {
    && t.anon == |Gone(ptes, d, a, e, CountsAnon)| && t.file == |Gone(ptes, d, a, e, CountsFile)| && t.swap == |Gone(ptes, d, a, e, SwappedOut)|
    && t.dirtied == PagesAt(ptes, Gone(ptes, d, a, e, Written))
  }

  /** The references: one for each entry that goes and holds a page, in the order of the addresses. */
  ghost predicate RefsOf(ptes: Entries, d: Details, a: int, e: int, refs: seq<Ref>) {
    && (forall i, j :: 0 <= i < j < |refs| ==> refs[i].addr < refs[j].addr)
    && (forall r :: r in refs <==> r.addr in Gone(ptes, d, a, e, HoldsPage) && ptes[r.addr].page == r.page)
  }

  lemma AtIs(ptes: Entries, d: Details, b: int)
    ensures var t, gone := At(ptes, d, b), b in ptes && Zapped(ptes[b], d);
      && t.anon == (if gone && CountsAnon(ptes[b]) then 1 else 0) && t.file == (if gone && CountsFile(ptes[b]) then 1 else 0)
      && t.swap == (if gone && SwappedOut(ptes[b]) then 1 else 0) && t.dirtied == (if gone && Written(ptes[b]) then {ptes[b].page} else {})
  {
  }

  lemma PagesNext(ptes: Entries, s: set<int>, b: int)
    requires b in ptes && ptes[b].Present?
    ensures PagesAt(ptes, s + {b}) == PagesAt(ptes, s) + {ptes[b].page}
  {
  }

  lemma SumsNext(ptes: Entries, d: Details, a: int, b: int, t: Tally)
    requires a <= b && Sums(ptes, d, a, b, t) && forall k :: k in ptes && b <= k < b + PAGE_SIZE ==> k == b
    ensures Sums(ptes, d, a, b + PAGE_SIZE, t.Plus(At(ptes, d, b)))
  {
    hide Gone, PagesAt, At, CountsAnon, CountsFile, SwappedOut, Zapped;
    GoneJoin(ptes, d, a, b, CountsAnon);
    GoneJoin(ptes, d, a, b, CountsFile);
    GoneJoin(ptes, d, a, b, SwappedOut);
    GoneJoin(ptes, d, a, b, Written);
    AtIs(ptes, d, b);
    if b in ptes && Zapped(ptes[b], d) && Written(ptes[b]) { PagesNext(ptes, Gone(ptes, d, a, b, Written), b); }
  }

  lemma RefsNext(ptes: Entries, d: Details, a: int, b: int, refs: seq<Ref>)
    requires a <= b && RefsOf(ptes, d, a, b, refs) && forall k :: k in ptes && b <= k < b + PAGE_SIZE ==> k == b
    ensures RefsOf(ptes, d, a, b + PAGE_SIZE, refs + At(ptes, d, b).refs)
  {
    var more := At(ptes, d, b).refs;
    GoneJoin(ptes, d, a, b, HoldsPage);
    forall i | 0 <= i < |refs|
      ensures refs[i].addr < b
    {
      assert refs[i] in refs;
    }
    assert more == if b in ptes && Zapped(ptes[b], d) && HoldsPage(ptes[b]) then [Ref(ptes[b].page, b)] else [];
    hide Gone, At;
  }

  lemma SlotsNext(ptes: Entries, d: Details, a: int, b: int, slots: seq<nat>, x: nat)
    requires a <= b && multiset(slots)[x] == |Gone(ptes, d, a, b, HoldsSlot(x))| && forall k :: k in ptes && b <= k < b + PAGE_SIZE ==> k == b
    ensures multiset(slots + At(ptes, d, b).slots)[x] == |Gone(ptes, d, a, b + PAGE_SIZE, HoldsSlot(x))|
  {
    hide Gone;
    GoneJoin(ptes, d, a, b, HoldsSlot(x));
  }

  lemma NoneGone(ptes: Entries, d: Details, a: int, e: int, kind: Entry -> bool)
    requires e <= a
    ensures Gone(ptes, d, a, e, kind) == {}
  {
  }

  lemma {:induction false} TotalSums(ptes: Entries, d: Details, a: int, e: int, x: nat)
    requires Aligned(ptes) && a % PAGE_SIZE == 0 && e % PAGE_SIZE == 0
    ensures var t := Total(ptes, d, a, e);
      Sums(ptes, d, a, e, t) && RefsOf(ptes, d, a, e, t.refs) && multiset(t.slots)[x] == |Gone(ptes, d, a, e, HoldsSlot(x))|
    decreases e - a
  {
    hide At, Gone, Sums, RefsOf;
    if e <= a {
      NothingGone(ptes, d, a, e, x);
    } else {
      var b := e - PAGE_SIZE;
      NextPageDown(a, e);
      TotalSums(ptes, d, a, b, x);
      OneOnPage(ptes, b);
      SumsNext(ptes, d, a, b, Total(ptes, d, a, b));
      RefsNext(ptes, d, a, b, Total(ptes, d, a, b).refs);
      SlotsNext(ptes, d, a, b, Total(ptes, d, a, b).slots, x);
    }
  }

  lemma NextPageDown(a: int, e: int)
    requires a < e && a % PAGE_SIZE == 0 && e % PAGE_SIZE == 0
    ensures a <= e - PAGE_SIZE && (e - PAGE_SIZE) % PAGE_SIZE == 0
  {
  }

  lemma NothingGone(ptes: Entries, d: Details, a: int, e: int, x: nat)
    requires e <= a
    ensures Sums(ptes, d, a, e, NOTHING) && RefsOf(ptes, d, a, e, []) && multiset(NOTHING.slots)[x] == |Gone(ptes, d, a, e, HoldsSlot(x))|
  {
  }

  lemma WrittenForces(ptes: Entries, d: Details, a: int, e: int)
    requires Aligned(ptes) && a % PAGE_SIZE == 0 && e % PAGE_SIZE == 0
    ensures Total(ptes, d, a, e).dirtied != {} <==> Gone(ptes, d, a, e, Written) != {}
  {
    hide Total, Aligned, RefsOf;
    TotalSums(ptes, d, a, e, 0);
    var s := Gone(ptes, d, a, e, Written);
    if s != {} {
      var k :| k in s;
      assert ptes[k].page in PagesAt(ptes, s);
    }
  }

  /** An unmap of [a, e), in plain terms: which entries are left; by how much the counters fall; that each
      slot is given up once for each of its entries; and that exactly the pages of files that were written
      through an entry that goes are marked dirty. */
  ghost predicate TornDown(was: Entries, now: Entries, d: Details, a: int, e: int, before: Account, after: Account) {
    && (forall k :: k in now <==> k in was && k !in Gone(was, d, a, e, AnyEntry)) && (forall k :: k in now ==> now[k] == was[k])
    && after.anon == before.anon - |Gone(was, d, a, e, CountsAnon)| && after.file == before.file - |Gone(was, d, a, e, CountsFile)|
    && after.swap == before.swap - |Gone(was, d, a, e, SwappedOut)|
    && after.dirtied == before.dirtied + PagesAt(was, Gone(was, d, a, e, Written))
    && (forall slot: nat :: multiset(after.slots)[slot] == multiset(before.slots)[slot] + |Gone(was, d, a, e, HoldsSlot(slot))|)
  }

  lemma TornDownIs(was: Entries, d: Details, a: int, e: int, before: Account)
    requires Aligned(was) && a % PAGE_SIZE == 0 && e % PAGE_SIZE == 0
    ensures TornDown(was, Left(was, d, a, e), d, a, e, before, before.Take(Total(was, d, a, e)))
    ensures RefsOf(was, d, a, e, Total(was, d, a, e).refs)
  {
    hide Total, RefsOf, Aligned;
    LeftIs(was, d, a, e);
    TotalSums(was, d, a, e, 0);
    forall slot: nat
      ensures multiset(Total(was, d, a, e).slots)[slot] == |Gone(was, d, a, e, HoldsSlot(slot))|
    {
      TotalSums(was, d, a, e, slot);
    }
    hide Gone, Left;
  }

  lemma LeftIs(was: Entries, d: Details, a: int, e: int)
    ensures forall k :: k in Left(was, d, a, e) <==> k in was && k !in Gone(was, d, a, e, AnyEntry)
    ensures forall k :: k in Left(was, d, a, e) ==> Left(was, d, a, e)[k] == was[k]
  {
  }
}
