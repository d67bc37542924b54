/** The mmu_gather: references to unmapped pages wait in a chain of batches until a TLB flush has
    covered their addresses, and are then dropped. */
module MmuGather {
  import opened Words

  /** The reference that a cleared entry at `addr` held on `page`; as a member of `cached`, the
      translation of that entry in some TLB. */
  datatype Ref = Ref(page: nat, addr: int)

  class Batch {
    var next: Batch?
    var pages: seq<Ref>
    const max: nat
    /** The batch's position in its chain, which keeps the batches apart. */
    ghost const index: nat

    constructor (max: nat, ghost index: nat)
      ensures next == null && pages == [] && this.max == max && this.index == index
    {
      this.next, this.pages, this.max, this.index := null, [], max, index;
    }
  }

  ghost function Flatten(ss: seq<seq<Ref>>): seq<Ref> { if ss == [] then [] else ss[0] + Flatten(ss[1..]) }

  lemma {:induction false} FlattenConcat(a: seq<seq<Ref>>, b: seq<seq<Ref>>)
    ensures Flatten(a + b) == Flatten(a) + Flatten(b)
  {
    if a == [] {
      assert a + b == b;
    } else {
      FlattenConcat(a[1..], b);
      assert (a + b)[1..] == a[1..] + b;
      assert a[0] + (Flatten(a[1..]) + Flatten(b)) == (a[0] + Flatten(a[1..])) + Flatten(b);
    }
  }

  lemma {:induction false} FlattenEmpties(ss: seq<seq<Ref>>)
    requires forall i {:trigger ss[i]} :: 0 <= i < |ss| ==> ss[i] == []
    ensures Flatten(ss) == []
  {
    if ss != [] { FlattenEmpties(ss[1..]); }
  }

  lemma FlattenSnocEmpty(ss: seq<seq<Ref>>)
    ensures Flatten(ss + [[]]) == Flatten(ss)
  {
    FlattenConcat(ss, [[]]);
    FlattenEmpties([[]]);
    assert Flatten(ss) + [] == Flatten(ss);
  }

  /** Appending to the last batch in use appends to the whole. */
  lemma FlattenAppend(ss: seq<seq<Ref>>, k: nat, r: Ref)
    requires k < |ss| && forall i {:trigger ss[i]} :: k < i < |ss| ==> ss[i] == []
    ensures Flatten(ss[k := ss[k] + [r]]) == Flatten(ss) + [r]
  {
    FlattenAt(ss, k);
    FlattenAt(ss[k := ss[k] + [r]], k);
    assert ss[..k] == ss[k := ss[k] + [r]][..k];
    Assoc(Flatten(ss[..k]), ss[k], [r]);
    hide Flatten;
  }

  lemma FlattenAt(ss: seq<seq<Ref>>, k: nat)
    requires k < |ss| && forall i {:trigger ss[i]} :: k < i < |ss| ==> ss[i] == []
    ensures Flatten(ss) == Flatten(ss[..k]) + ss[k]
  {
    FlattenEmpties(ss[k + 1..]);
    FlattenConcat(ss[..k], ss[k..]);
    assert ss == ss[..k] + ss[k..] && ss[k..][1..] == ss[k + 1..];
    assert Flatten(ss[k..]) == ss[k] + [];
  }

  lemma Assoc(a: seq<Ref>, b: seq<Ref>, c: seq<Ref>)
    ensures (a + b) + c == a + (b + c)
  {
  }

  /** Nothing is queued in any batch when nothing is queued at all. */
  lemma {:induction false} FlattenPending(ss: seq<seq<Ref>>)
    requires Flatten(ss) == []
    ensures forall i {:trigger ss[i]} :: 0 <= i < |ss| ==> ss[i] == []
  {
    if ss != [] { FlattenPending(ss[1..]); }
  }

  lemma FlattenOne(s: seq<Ref>)
    ensures Flatten([s]) == s
  {
    assert Flatten([s]) == s + Flatten([]);
  }

  class Gather {
    const fullmm: bool
    const taskSize: nat
    const batchSlots: nat
    const maxBatches: nat
    const local: Batch
    var active: Batch
    var batchCount: nat
    /** The range to flush; end == 0 says that nothing is. */
    var start: int
    var end: int
    /** Translations that some CPU may still use. */
    var cached: set<Ref>
    /** References handed to free_pages_and_swap_cache. */
    var freed: seq<Ref>

    /** The batches from `local` on, the index of the active one, and what each one holds. */
    ghost var chain: seq<Batch>
    ghost var at: nat
    ghost var held: seq<seq<Ref>>

    ghost predicate Chained()
      reads this`chain, this`at, this`active, this`batchCount, this`held, chain
    {
      && at < |chain| && chain[0] == local && chain[at] == active
      && (forall i {:trigger chain[i].next} :: 0 <= i < |chain| ==> chain[i].next == (if i + 1 < |chain| then chain[i + 1] else null))
      && (forall i {:trigger chain[i]} :: 0 <= i < |chain| ==> chain[i].index == i)
      && batchCount == |chain| - 1
      && |held| == |chain| && (forall i {:trigger chain[i]} {:trigger held[i]} :: 0 <= i < |chain| ==> chain[i].pages == held[i])
    }

    /** Batches before the active one are full and batches after it are empty. */
    ghost predicate FilledInOrder()
      reads this`chain, this`at, this`held
    {
      && 0 < batchSlots && |held| == |chain| && at < |chain|
      && (forall i {:trigger chain[i]} {:trigger held[i]} :: 0 <= i < |chain| ==> 0 < chain[i].max && |held[i]| <= chain[i].max)
      && (forall i {:trigger chain[i]} {:trigger held[i]} :: 0 <= i < at ==> |held[i]| == chain[i].max)
      && (forall i {:trigger held[i]} :: at < i < |chain| ==> held[i] == [])
    }

    predicate Covers(addr: int)
      reads this`start, this`end
    { fullmm || start <= addr < end }

    /** Whatever waits to be freed and may still be cached will be covered by the next flush, and
        nothing freed is cached. */
    ghost predicate Safe()
      reads this`start, this`end, this`held, this`cached, this`freed
    {
      && 0 < taskSize && 0 <= start && 0 <= end && (fullmm ==> end != 0)
      && (forall r :: r in Pending() && r in cached ==> Covers(r.addr))
      && (forall r :: r in freed ==> r !in cached)
    }

    ghost predicate Valid()
      reads this, chain
    { Chained() && FilledInOrder() && Safe() }

    /** The references that wait, oldest first. */
    ghost function Pending(): seq<Ref>
      reads this`held
    { Flatten(held) }

    /** Every reference ever taken in, whether it still waits or not. */
    ghost function Removed(): seq<Ref>
      reads this`held, this`freed
    { freed + Pending() }

    /** The active batch has a free slot. */
    predicate Room()
      reads this`active, active`pages
    { |active.pages| < active.max }

    /** tlb_gather_mmu. */
    constructor (fullmm: bool, taskSize: nat, localSlots: nat, batchSlots: nat, maxBatches: nat, cached: set<Ref>)
      requires 0 < localSlots && 0 < batchSlots && 0 < taskSize
      ensures Valid() && Room() && Pending() == [] && freed == [] && this.cached == cached && this.fullmm == fullmm
      ensures fresh(chain) && start == taskSize && end == if fullmm then taskSize else 0
    {
      var first := new Batch(localSlots, 0);
      this.fullmm, this.taskSize, this.batchSlots, this.maxBatches := fullmm, taskSize, batchSlots, maxBatches;
      this.local, this.active, this.batchCount := first, first, 0;
      this.start, this.end := taskSize, if fullmm then taskSize else 0;
      this.cached, this.freed := cached, [];
      this.chain, this.at, this.held := [first], 0, [[]];
      new;
      FlattenEmpties(held);
    }

    /** Move on to a batch left over from before the last flush. */
    method Advance()
      requires Chained() && FilledInOrder() && !Room() && active.next != null
      modifies this`active, this`at
      ensures Chained() && FilledInOrder() && Pending() == old(Pending()) && active == old(active.next) && active.pages == [] && Room()
    {
      active := active.next;
      at := at + 1;
    }

    /** Link a new, empty batch behind the last one and make it the active one. */
    method Link()
      requires Chained() && FilledInOrder() && !Room() && active.next == null
      modifies this`active, this`at, this`chain, this`held, this`batchCount, active`next
      ensures Chained() && FilledInOrder() && Pending() == old(Pending()) && active.pages == [] && Room()
      ensures fresh(active) && chain == old(chain) + [active] && batchCount == old(batchCount) + 1
    {
      var batch := new Batch(batchSlots, |chain|);
      batchCount := batchCount + 1;
      active.next := batch;
      active := batch;
      chain := chain + [batch];
      at := at + 1;
      FlattenSnocEmpty(held);
      held := held + [[]];
      hide Flatten;
    }

    /** tlb_next_batch; `mem` tells whether a page for a new batch can be had. */
    method NextBatch(mem: bool) returns (ok: bool)
      requires Valid() && !Room()
      modifies this`active, this`at, this`chain, this`held, this`batchCount, active`next
      ensures Valid() && Pending() == old(Pending())
      ensures ok == (old(active.next) != null || (old(batchCount) != maxBatches && mem))
      ensures if ok then active.pages == [] && Room() else !Room() && active == old(active) && active.pages == old(active.pages)
      ensures fresh(set b | b in chain && b !in old(chain))
    {
      hide Chained, FilledInOrder, Flatten;
      if active.next != null {
        Advance();
        return true;
      }
      if batchCount == maxBatches { return false; }
      if !mem { return false; }
      Link();
      return true;
    }

    /** tlb_remove_tlb_entry: widen the range so that the next flush covers the entry at addr. */
    method RemoveTlbEntry(addr: int)
      requires Valid() && 0 <= addr
      modifies this`start, this`end
      ensures Valid() && end != 0 && Covers(addr)
      ensures !fullmm ==> start == (if addr < old(start) then addr else old(start))
      ensures !fullmm ==> end == (if addr + PAGE_SIZE > old(end) then addr + PAGE_SIZE else old(end))
    {
      hide Chained, FilledInOrder, Flatten;
      if addr < start { start := addr; }
      if addr + PAGE_SIZE > end { end := addr + PAGE_SIZE; }
    }

    /** __tlb_remove_page: queue one reference; 0 says that the caller must flush before the next. */
    method RemovePage(r: Ref, mem: bool) returns (left: nat)
      requires Valid() && Room() && end != 0 && (r in cached ==> Covers(r.addr))
      modifies this`active, this`at, this`chain, this`held, this`batchCount, active`next, active`pages
      ensures Valid() && Pending() == old(Pending()) + [r]
      ensures left == active.max - |active.pages| && (left > 0 ==> Room())
      ensures fresh(set b | b in chain && b !in old(chain))
    {
      hide Chained, FilledInOrder, Flatten;
      Put(r);
      if |active.pages| == active.max {
        var more := NextBatch(mem);
        if !more { return 0; }
      }
      return active.max - |active.pages|;
    }

    /** batch->pages[batch->nr++] = page. */
    method Put(r: Ref)
      requires Chained() && FilledInOrder() && Room()
      modifies this`held, active`pages
      ensures Chained() && FilledInOrder() && Pending() == old(Pending()) + [r] && |active.pages| == old(|active.pages|) + 1
    {
      ghost var was := held;
      active.pages := active.pages + [r];
      held := held[at := held[at] + [r]];
      FlattenAppend(was, at, r);
      hide Flatten;
    }

    /** tlb_flush_mmu_tlbonly: after it nothing that waits is cached any more. */
    method FlushTlbOnly()
      requires Valid()
      modifies this`start, this`end, this`cached
      ensures Valid() && (forall r :: r in Pending() ==> r !in cached)
      ensures forall r :: r in cached <==> r in old(cached) && (old(end) == 0 || !old(Covers(r.addr)))
      ensures old(end) != 0 ==> start == taskSize && end == if fullmm then taskSize else 0
    {
      hide Chained, FilledInOrder, Flatten;
      if end == 0 { return; }
      cached := set r | r in cached && !Covers(r.addr);
      start, end := taskSize, if fullmm then taskSize else 0;
    }

    /** A walk along the chain stands at its i-th batch, or past the last one. */
    ghost predicate StandsAt(batch: Batch?, i: nat)
      reads this`chain, this`held, chain
    {
      if batch == null then i == |chain| == |held| else i < |chain| == |held| && batch == chain[i] && batch.pages == held[i]
    }

    /** free_pages_and_swap_cache(batch->pages, batch->nr); batch->nr = 0; batch = batch->next. */
    method Drop(batch: Batch, ghost i: nat) returns (next: Batch?)
      requires Chained() && StandsAt(batch, i)
      modifies this`held, this`freed, batch`pages
      ensures Chained() && held == old(held[i := []]) && freed == old(freed + held[i]) && StandsAt(next, i + 1)
    {
      freed := freed + batch.pages;
      batch.pages := [];
      held := held[i := []];
      next := batch.next;
    }

    /** The loop of tlb_flush_mmu_free, which stops at the first empty batch. */
    method DropUntilEmpty() returns (ghost i: nat)
      requires Chained()
      modifies this`held, this`freed, chain
      ensures Chained() && i <= |old(held)| && held == Emptied(old(held), i) && freed == FreedUpTo(old(freed), old(held), i)
      ensures i < |old(held)| ==> old(held)[i] == []
    {
      ghost var was := held;
      i := 0;
      var batch: Batch? := local;
      ghost var prior := freed;
      assert StandsAt(batch, 0) && Emptied(was, 0) == was && FreedUpTo(prior, was, 0) == prior;
      hide Flatten, Emptied, Chained, FreedUpTo;
      while batch != null && |batch.pages| != 0
        invariant Chained() && StandsAt(batch, i) && |chain| == |was|
        invariant held == Emptied(was, i) && freed == FreedUpTo(prior, was, i)
        decreases |chain| - i
      {
        EmptiedStep(was, i);
        FreedStep(prior, was, i);
        batch := Drop(batch, i);
        i := i + 1;
      }
      if i < |was| { EmptiedStep(was, i); }
    }

    /** tlb->active = &tlb->local. */
    method Restart(ghost i: nat, ghost was: seq<seq<Ref>>)
      requires Chained() && |was| == |chain| && i <= |was| && held == Emptied(was, i)
      requires 0 < batchSlots && forall j {:trigger chain[j]} :: 0 <= j < |chain| ==> 0 < chain[j].max
      requires forall j {:trigger Emptied(was, i)[j]} :: 0 <= j < |was| ==> Emptied(was, i)[j] == []
      modifies this`active, this`at
      ensures Chained() && FilledInOrder() && Room() && Pending() == []
    {
      FlattenEmpties(held);
      hide Emptied;
      active, at := local, 0;
    }

    /** Everything that waits is dropped, because full batches come first. */
    method DropAll()
      requires Chained() && FilledInOrder()
      modifies this`active, this`at, this`held, this`freed, chain
      ensures Chained() && FilledInOrder() && Room() && Pending() == [] && freed == old(freed + Pending())
    {
      FullIsNotEmpty();
      hide Flatten, Emptied, Chained, FilledInOrder, FreedUpTo;
      ghost var was, k := held, at;
      ghost var i := DropUntilEmpty();
      NothingMissed(old(freed), was, k, i);
      Restart(i, was);
    }

    /** tlb_flush_mmu_free: nothing that is dropped may still be cached. */
    method FlushFree()
      requires Valid() && forall r :: r in Pending() ==> r !in cached
      modifies this`active, this`at, this`held, this`freed, chain
      ensures Valid() && Room() && Pending() == [] && freed == old(freed + Pending()) && Removed() == old(Removed())
    {
      hide Flatten, Chained, FilledInOrder;
      DropAll();
    }

    lemma FullIsNotEmpty()
      requires Chained() && FilledInOrder()
      ensures forall j {:trigger held[j]} :: 0 <= j < at ==> |held[j]| > 0
      ensures forall j {:trigger held[j]} :: at < j < |held| ==> held[j] == []
      ensures 0 < batchSlots && |held| == |chain| && at < |chain| && forall j {:trigger chain[j]} :: 0 <= j < |chain| ==> 0 < chain[j].max
    {
    }

    /** tlb_flush_mmu. */
    method Flush()
      requires Valid()
      modifies this`start, this`end, this`cached, this`active, this`at, this`held, this`freed, chain
      ensures Valid() && Room() && Pending() == [] && freed == old(freed + Pending()) && Removed() == old(Removed())
      ensures forall r :: r in cached <==> r in old(cached) && (old(end) == 0 || !old(Covers(r.addr)))
    {
      FlushTlbOnly();
      FlushFree();
    }

    /** The loop of tlb_finish_mmu over the linked batch pages; counts the pages it frees. */
    method FreeBatchPages() returns (n: nat)
      requires Chained()
      modifies local`next, this`chain, this`held, this`batchCount, this`active, this`at
      ensures n == old(batchCount) && Chained() && chain == [local] && held == old(held[..1]) && at == 0
    {
      n := 0;
      var batch := local.next;
      while batch != null
        invariant n < |chain| && batch == if n + 1 < |chain| then chain[n + 1] else null
        decreases |chain| - n
      {
        batch := batch.next;
        n := n + 1;
      }
      local.next := null;
      chain, held, batchCount, active, at := [local], held[..1], 0, local, 0;
    }

    /** tlb_finish_mmu: flush, then free every batch page that was ever linked. */
    method Finish() returns (n: nat)
      requires Valid()
      modifies this`start, this`end, this`cached, this`active, this`at, this`held, this`freed, this`chain, this`batchCount, chain
      ensures Valid() && Room() && Pending() == [] && freed == old(freed + Pending())
      ensures n == old(batchCount) && chain == [local]
      ensures forall r :: r in cached <==> r in old(cached) && (old(end) == 0 || !old(Covers(r.addr)))
    {
      Flush();
      FlattenPending(held);
      n := FreeBatchPages();
      assert held == [[]];
      FlattenOne([]);
    }
  }

  lemma NothingMissed(prior: seq<Ref>, was: seq<seq<Ref>>, at: nat, i: nat)
    requires at < |was| && i <= |was| && (i < |was| ==> was[i] == [])
    requires forall j {:trigger was[j]} :: 0 <= j < at ==> |was[j]| > 0
    requires forall j {:trigger was[j]} :: at < j < |was| ==> was[j] == []
    ensures FreedUpTo(prior, was, i) == prior + Flatten(was)
    ensures forall j {:trigger Emptied(was, i)[j]} :: 0 <= j < |was| ==> Emptied(was, i)[j] == []
  {
    FlattenEmpties(was[i..]);
    FlattenConcat(was[..i], was[i..]);
    assert was == was[..i] + was[i..];
    assert Flatten(was[..i]) + [] == Flatten(was[..i]);
  }

  ghost function Emptied(ss: seq<seq<Ref>>, i: nat): seq<seq<Ref>>
    requires i <= |ss|
  { seq(i, _ => []) + ss[i..] }

  lemma EmptiedStep(ss: seq<seq<Ref>>, i: nat)
    requires i < |ss|
    ensures Emptied(ss, i)[i := []] == Emptied(ss, i + 1) && Emptied(ss, i)[i] == ss[i]
  {
  }

  ghost function FreedUpTo(prior: seq<Ref>, ss: seq<seq<Ref>>, i: nat): seq<Ref>
    requires i <= |ss|
  { prior + Flatten(ss[..i]) }

  lemma FreedStep(prior: seq<Ref>, ss: seq<seq<Ref>>, i: nat)
    requires i < |ss|
    ensures FreedUpTo(prior, ss, i + 1) == FreedUpTo(prior, ss, i) + ss[i]
  {
    assert ss[..i + 1] == ss[..i] + [ss[i]];
    FlattenConcat(ss[..i], [ss[i]]);
    FlattenOne(ss[i]);
    Assoc(prior, Flatten(ss[..i]), ss[i]);
  }
}
