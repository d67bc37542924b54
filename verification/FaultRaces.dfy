/** Page faults of one address space beside each other: do_anonymous_page, do_wp_page with
    wp_page_copy and wp_page_shared, do_swap_page, and do_fault with its read, copy-on-write and
    shared forms.  A fault is cut wherever it does not hold the page-table lock; what it does under
    that lock is one step, which starts by comparing the entry with the one it acted on.

    Reclaim, other address spaces and madvise take steps in between. */
module FaultRaces {

  /** The value that pte_same compares; `bits` are the young and dirty bits. */
  datatype Entry =
    | NoEntry
    | Zero                                                        // the zero page: special, not counted
    | Page(frame: nat, anon: bool, write: bool, bits: nat)
    | Swap(slot: nat)
  {
    predicate Maps(f: nat) { Page? && frame == f }
    predicate IsAnon() { Page? && anon }
    predicate IsFile() { Page? && !anon }
    function Frame(): Opt { if Page? then Yes(frame) else No }
  }

  datatype Vma = Anonymous | PrivateFile(index: nat) | SharedFile(index: nat, mkwrite: bool)

  datatype Opt = No | Yes(frame: nat)

  /** Where a fault is while it does not hold the page-table lock. */
  datatype Fault =
    | Idle
    | Entered(a: nat, orig: Entry, write: bool)                    // handle_pte_fault has read the entry
    | AnonReady(a: nat, own: nat)                                  // page allocated and charged
    | WpWait(a: nat, page: nat, bits: nat, locked: bool)           // do_wp_page, after trylock_page failed
    | NeedCopy(a: nat, orig: Entry)                                // wp_page_copy entered, old page referenced
    | CopyReady(a: nat, orig: Entry, own: nat)                     // copied and charged
    | SwapIn(a: nat, slot: nat, page: nat, locked: bool, write: bool)
    | SwapReady(a: nat, slot: nat, page: nat, pending: bool, write: bool)  // page locked; pending: this fault charged it
    | CowWanted(a: nat, own: nat)                                  // do_cow_fault, page allocated and charged
    | FilePage(a: nat, page: nat, locked: bool, copy: Opt, write: bool)    // __do_fault found the page
    | Mkwrite(a: nat, orig: Entry, page: nat, locked: bool)        // in page_mkwrite
    | Dirtying(page: nat, locked: bool, ref: bool)                 // writable entry is set, set_page_dirty to come
    | Exiting(page: nat, locked: bool)
  {
    /** A page that only this fault knows. */
    function Own(): Opt {
      match this
      case AnonReady(_, own) => Yes(own)
      case CopyReady(_, _, own) => Yes(own)
      case CowWanted(_, own) => Yes(own)
      case FilePage(_, _, _, copy, _) => copy
      case _ => No
    }

    /** A page that this fault holds a reference on. */
    function Ref(): Opt {
      match this
      case WpWait(_, p, _, _) => Yes(p)
      case NeedCopy(_, orig) => orig.Frame()
      case CopyReady(_, orig, _) => orig.Frame()
      case SwapIn(_, _, p, _, _) => Yes(p)
      case SwapReady(_, _, p, _, _) => Yes(p)
      case FilePage(_, p, _, _, _) => Yes(p)
      case Mkwrite(_, _, p, _) => Yes(p)
      case Dirtying(p, _, r) => if r then Yes(p) else No
      case Exiting(p, _) => Yes(p)
      case _ => No
    }

    /** The page lock that this fault holds. */
    function Lock(): Opt {
      match this
      case WpWait(_, p, _, l) => if l then Yes(p) else No
      case SwapIn(_, _, p, l, _) => if l then Yes(p) else No
      case SwapReady(_, _, p, _, _) => Yes(p)
      case FilePage(_, p, l, _, _) => if l then Yes(p) else No
      case Mkwrite(_, _, p, l) => if l then Yes(p) else No
      case Dirtying(p, l, _) => if l then Yes(p) else No
      case Exiting(p, l) => if l then Yes(p) else No
      case _ => No
    }

    /** A charge that is neither committed nor cancelled. */
    predicate Pending() { Own().Yes? || (SwapReady? && pending) }

    /** The fault waits for this page's lock. */
    function Wants(): Opt {
      match this
      case WpWait(_, p, _, false) => Yes(p)
      case SwapIn(_, _, p, false, _) => Yes(p)
      case FilePage(_, p, false, _, _) => Yes(p)
      case Mkwrite(_, _, p, false) => Yes(p)
      case Dirtying(p, false, _) => Yes(p)
      case _ => No
    }

    function GotLock(): Fault
      requires Wants().Yes?
    {
      match this
      case WpWait(a, p, b, _) => WpWait(a, p, b, true)
      case SwapIn(a, o, p, _, w) => SwapIn(a, o, p, true, w)
      case FilePage(a, p, _, c, w) => FilePage(a, p, true, c, w)
      case Mkwrite(a, o, p, _) => Mkwrite(a, o, p, true)
      case Dirtying(p, _, r) => Dirtying(p, true, r)
    }

    /** What the entry was when the fault decided what to do: the value of its recheck. */
    function Orig(): Entry {
      match this
      case Entered(_, orig, _) => orig
      case WpWait(_, p, b, _) => Page(p, true, false, b)
      case NeedCopy(_, orig) => orig
      case CopyReady(_, orig, _) => orig
      case SwapIn(_, slot, _, _, _) => Swap(slot)
      case SwapReady(_, slot, _, _, _) => Swap(slot)
      case Mkwrite(_, orig, _, _) => orig
      case _ => NoEntry
    }

    predicate WellFormed() {
      && ((NeedCopy? || CopyReady?) ==> orig.Zero? || orig.Page?)
      && (Mkwrite? ==> orig.NoEntry? || (orig.IsFile() && orig.frame == page))
    }
  }

  /** The swap cache and the page cache. */
  datatype Key = Slot(slot: nat) | File(index: nat)

  datatype Owner = Outside | ByFault(thread: nat)

  datatype State = State(
    vmas: map<nat, Vma>,
    ptes: map<nat, Entry>,
    faults: map<nat, Fault>,
    cache: map<Key, nat>,
    locks: map<nat, Owner>,
    count: map<nat, int>,        // page references
    others: map<nat, nat>,       // the part of them that reclaim, other address spaces and other kernel users hold
    anon: int, file: int, swap: int,  // MM_ANONPAGES, MM_FILEPAGES, MM_SWAPENTS
    charges: int,
    committed: set<nat>)         // pages with a committed charge
  {
    function At(a: nat): Entry { if a in ptes then ptes[a] else NoEntry }
    function Of(t: nat): Fault { if t in faults then faults[t] else Idle }
    function Area(a: nat): Vma { if a in vmas then vmas[a] else Anonymous }
    function Count(f: nat): int { if f in count then count[f] else 0 }
    function Others(f: nat): nat { if f in others then others[f] else 0 }
  }

  function B(b: bool): int { if b then 1 else 0 }

  // ---- what a step does

  datatype LockOp = SameLocks | Takes(page: nat) | Drops(page: nat) | OutsideTakes(page: nat) | OutsideDrops(page: nat)
  datatype CacheOp = SameCache | Adds(key: Key, page: nat) | Removes(key: Key)
  datatype OtherOp = SameOthers | More(page: nat) | Fewer(page: nat)

  /** The doings of one step at entry a by one fault: the entry and the fault it leaves, at most one
      reference taken and one dropped, counters, charges, and at most one lock taken or dropped. */
  datatype Turn = Turn(
    e: Entry, p: Fault,
    got: Opt, gave: Opt,
    anon: int, file: int, swap: int,
    charge: int, committed: Opt,
    lock: LockOp, cache: CacheOp, other: OtherOp)
  {
    function Set(e: Entry): Turn { this.(e := e) }
    function To(p: Fault): Turn { this.(p := p) }
    function Exit(): Turn { this.(p := Idle) }
    function Get(f: nat): Turn { this.(got := Yes(f)) }
    function Put(f: nat): Turn { this.(gave := Yes(f)) }
    function Rss(a: int, f: int, s: int): Turn { this.(anon := a, file := f, swap := s) }
    function Charge(): Turn { this.(charge := 1) }
    function Cancel(): Turn { this.(charge := -1) }
    function Commit(f: nat): Turn { this.(committed := Yes(f)) }
    function LockPage(f: nat): Turn { this.(lock := Takes(f)) }
    function Unlock(f: nat): Turn { this.(lock := Drops(f)) }
  }

  /** A step begins with the entry and the fault as they are. */
  function Begin(s: State, t: nat, a: nat): Turn {
    Turn(s.At(a), s.Of(t), No, No, 0, 0, 0, 0, No, SameLocks, SameCache, SameOthers)
  }

  function CountAfter(s: State, w: Turn, f: nat): int { s.Count(f) + B(w.got == Yes(f)) - B(w.gave == Yes(f)) }

  /** page_cache_release of the last reference frees the page and uncharges it. */
  predicate Frees(s: State, w: Turn) { w.gave.Yes? && CountAfter(s, w, w.gave.frame) == 0 }

  function Recount(s: State, w: Turn): map<nat, int> {
    var c := if w.got.Yes? then s.count[w.got.frame := CountAfter(s, w, w.got.frame)] else s.count;
    if w.gave.Yes? then c[w.gave.frame := CountAfter(s, w, w.gave.frame)] else c
  }

  function Do(s: State, t: nat, a: nat, w: Turn): State {
    var charged := if w.committed.Yes? then s.committed + {w.committed.frame} else s.committed;
    s.(ptes := if w.e.NoEntry? then s.ptes - {a} else s.ptes[a := w.e],
       faults := if w.p.Idle? then s.faults - {t} else s.faults[t := w.p],
       cache := match w.cache case SameCache => s.cache case Adds(k, f) => s.cache[k := f] case Removes(k) => s.cache - {k},
       locks := match w.lock case SameLocks => s.locks case Takes(f) => s.locks[f := ByFault(t)] case OutsideTakes(f) => s.locks[f := Outside] case _ => s.locks - {w.lock.page},
       count := Recount(s, w),
       others := match w.other case SameOthers => s.others case More(f) => s.others[f := s.Others(f) + 1]
                 case Fewer(f) => s.others[f := if s.Others(f) == 0 then 0 else s.Others(f) - 1],
       anon := s.anon + w.anon, file := s.file + w.file, swap := s.swap + w.swap,
       charges := s.charges + w.charge - (if Frees(s, w) && w.gave.frame in charged then 1 else 0),
       committed := if Frees(s, w) then charged - {w.gave.frame} else charged)
  }

  // ---- the steps

  /** What a step leaves open: whether reuse_swap_page says yes, the VMA's write permission, the young
      and dirty bits, whether the swapped-in data is good, whether it may be written to at once,
      whether the page leaves the swap cache, and whether somebody else gets the page lock first. */
  datatype Choice = Choice(reuse: bool, writable: bool, bits: nat, uptodate: bool, exclusive: bool, uncache: bool, beaten: bool)

  predicate Fresh(s: State, f: nat) { s.Count(f) == 0 }

  /** do_anonymous_page for a read: the zero page. */
  function AnonRead(w: Turn): Turn { (if w.e.NoEntry? then w.Set(Zero) else w).Exit() }

  function AnonAlloc(w: Turn, f: nat): Turn
    requires w.p.Entered?
  { w.Get(f).Charge().To(AnonReady(w.p.a, f)) }

  /** do_anonymous_page under the lock. */
  function AnonInstall(w: Turn, c: Choice): Turn
    requires w.p.AnonReady?
  {
    if !w.e.NoEntry? then w.Cancel().Put(w.p.own).Exit()
    else w.Rss(1, 0, 0).Commit(w.p.own).Set(Page(w.p.own, true, c.writable, c.bits)).Exit()
  }

  /** handle_pte_fault for a present entry that allows the access: only young and dirty are set. */
  function Touch(w: Turn, c: Choice): Turn
    requires w.p.Entered? && w.p.orig.Page?
  { (if w.e == w.p.orig then w.Set(w.e.(bits := c.bits)) else w).Exit() }

  /** do_wp_page, entered with the lock held and the entry equal to orig. */
  function WpHeld(w: Turn, a: nat, orig: Entry, v: Vma, locked: bool, c: Choice): Turn
    requires orig.Zero? || orig.Page?
  {
    if orig.Zero? then w.To(NeedCopy(a, orig))
    else
      var f := orig.frame;
      if orig.anon then
        if locked then w.Get(f).To(WpWait(a, f, orig.bits, false))
        else if c.reuse then w.Set(orig.(write := true, bits := c.bits)).Exit()
        else w.Get(f).To(NeedCopy(a, orig))
      else if v.SharedFile? then
        if v.mkwrite then w.Get(f).To(Mkwrite(a, orig, f, false))
        else w.Get(f).Set(orig.(write := true, bits := c.bits)).To(Dirtying(f, false, true))
      else w.Get(f).To(NeedCopy(a, orig))
  }

  function WpStart(w: Turn, v: Vma, locked: bool, c: Choice): Turn
    requires w.p.Entered? && (w.p.orig.Zero? || w.p.orig.Page?)
  { if w.e != w.p.orig then w.Exit() else WpHeld(w, w.p.a, w.p.orig, v, locked, c) }

  function Acquire(w: Turn): Turn
    requires w.p.Wants().Yes?
  { w.LockPage(w.p.Wants().frame).To(w.p.GotLock()) }

  /** do_wp_page after it has slept on the page lock: the reference it slept with is dropped, and
      taken again if there is something to copy. */
  function WpLocked(w: Turn, c: Choice): Turn
    requires w.p.WpWait?
  {
    var f := w.p.page;
    if w.e != w.p.Orig() then w.To(Exiting(f, true))
    else if c.reuse then w.Put(f).Unlock(f).Set(Page(f, true, true, c.bits)).Exit()
    else w.Put(f).Unlock(f).Get(f).To(NeedCopy(w.p.a, w.p.Orig()))
  }

  function CopyAlloc(w: Turn, f: nat): Turn
    requires w.p.NeedCopy?
  { w.Get(f).Charge().To(CopyReady(w.p.a, w.p.orig, f)) }

  /** The way out of wp_page_copy: the old page, if there is one, is still referenced. */
  function LeaveCopy(w: Turn, orig: Entry): Turn { if orig.Page? then w.To(Exiting(orig.frame, false)) else w.Exit() }

  /** wp_page_copy under the lock. */
  function CopyInstall(w: Turn, c: Choice): Turn
    requires w.p.CopyReady?
  {
    var orig, own := w.p.orig, w.p.own;
    if w.e != orig then LeaveCopy(w.Cancel().Put(own), orig)
    else
      var counted := if orig.Page? then (if orig.anon then w else w.Rss(1, -1, 0)) else w.Rss(1, 0, 0);
      var done := counted.Commit(own).Set(Page(own, true, c.writable, c.bits));
      LeaveCopy(if orig.Page? then done.Put(orig.frame) else done, orig)
  }

  /** lookup_swap_cache, or what swapin_readahead put there. */
  function SwapLookup(w: Turn, f: nat): Turn
    requires w.p.Entered? && w.p.orig.Swap?
  { w.Get(f).To(SwapIn(w.p.a, w.p.orig.slot, f, false, w.p.write)) }

  /** do_swap_page with the page lock: still this slot's page?  If it has no charge yet, charge it. */
  function SwapCheck(w: Turn, cached: bool, charged: bool): Turn
    requires w.p.SwapIn?
  {
    var p := w.p;
    if !cached then w.To(Exiting(p.page, true))
    else if charged then w.To(SwapReady(p.a, p.slot, p.page, false, p.write))
    else w.Charge().To(SwapReady(p.a, p.slot, p.page, true, p.write))
  }

  /** do_swap_page under the lock; a write that may not reuse the page goes on to do_wp_page. */
  function SwapInstall(w: Turn, cached: bool, v: Vma, c: Choice): Turn
    requires w.p.SwapReady?
  {
    var p := w.p;
    if w.e != Swap(p.slot) || !c.uptodate then (if p.pending then w.Cancel() else w).To(Exiting(p.page, true))
    else
      var e := Page(p.page, true, p.write && c.exclusive, c.bits);
      var done := w.Rss(1, 0, -1).Set(e).Commit(p.page);
      var open := (if c.uncache && cached then done.(cache := Removes(Slot(p.slot)), gave := Yes(p.page)) else done).Unlock(p.page);
      if p.write && !c.exclusive then WpHeld(open, p.a, e, v, c.beaten, c) else open.Exit()
  }

  function CowAlloc(w: Turn, f: nat): Turn
    requires w.p.Entered?
  { w.Get(f).Charge().To(CowWanted(w.p.a, f)) }

  function CowFail(w: Turn): Turn
    requires w.p.CowWanted?
  { w.Cancel().Put(w.p.own).Exit() }

  /** vm_ops->fault found the page in the page cache. */
  function FileFetch(w: Turn, f: nat): Turn
    requires w.p.Entered? || w.p.CowWanted?
  { w.Get(f).To(FilePage(w.p.a, f, false, w.p.Own(), w.p.Entered? && w.p.write)) }

  function DropCopy(w: Turn, copy: Opt): Turn { if copy.Yes? then w.Cancel().Put(copy.frame) else w }

  function FileFail(w: Turn): Turn
    requires w.p.FilePage?
  { DropCopy(w, w.p.copy).To(Exiting(w.p.page, w.p.locked)) }

  /** do_cow_fault, do_read_fault and do_shared_fault, once the page is locked. */
  function FileInstall(w: Turn, v: Vma, c: Choice): Turn
    requires w.p.FilePage? && w.p.locked
  {
    var p := w.p;
    if p.copy.No? && p.write && v.SharedFile? && v.mkwrite then w.Unlock(p.page).To(Mkwrite(p.a, NoEntry, p.page, false))
    else if !w.e.NoEntry? then DropCopy(w, p.copy).To(Exiting(p.page, true))
    else if p.copy.Yes? then
      w.Rss(1, 0, 0).Commit(p.copy.frame).Set(Page(p.copy.frame, true, c.writable, c.bits)).To(Exiting(p.page, true))
    else
      var done := w.Rss(0, 1, 0).Set(Page(p.page, false, p.write && c.writable, c.bits));
      if p.write then done.To(Dirtying(p.page, true, false)) else done.Unlock(p.page).Exit()
  }

  /** do_shared_fault and wp_page_shared after page_mkwrite. */
  function MkwriteInstall(w: Turn, c: Choice): Turn
    requires w.p.Mkwrite?
  {
    var p := w.p;
    if w.e != p.orig then w.To(Exiting(p.page, true))
    else if p.orig.NoEntry? then w.Rss(0, 1, 0).Set(Page(p.page, false, true, c.bits)).To(Dirtying(p.page, true, false))
    else w.Set(Page(p.page, false, true, c.bits)).To(Dirtying(p.page, true, true))
  }

  function SetDirty(w: Turn): Turn
    requires w.p.Dirtying?
  { if w.p.ref then w.To(Exiting(w.p.page, true)) else w.Unlock(w.p.page).Exit() }

  /** The tail of every fault that still has a page: unlock_page, then page_cache_release. */
  function Release(w: Turn): Turn
    requires w.p.Exiting?
  { if w.p.locked then w.Unlock(w.p.page).To(Exiting(w.p.page, false)) else w.Put(w.p.page).Exit() }

  // what others do in between

  /** zap_pte_range under a shared mmap_sem. */
  function Zap(w: Turn): Turn {
    match w.e
    case Page(f, anon, _, _) => (if anon then w.Rss(-1, 0, 0) else w.Rss(0, -1, 0)).Set(NoEntry).Put(f)
    case Swap(_) => w.Rss(0, 0, -1).Set(NoEntry)
    case _ => w.Set(NoEntry)
  }

  /** try_to_unmap of an anonymous page in the swap cache. */
  function SwapOut(w: Turn, slot: nat): Turn
    requires w.e.Page?
  { w.Rss(-1, 0, 1).Set(Swap(slot)).Put(w.e.frame) }

  /** t names the thread of a fault, or a CPU that has none. */
  datatype Action =
    | Start(t: nat, a: nat, write: bool)
    | Leave(t: nat)
    | MapZero(t: nat)
    | NewAnon(t: nat, f: nat)
    | PlaceAnon(t: nat, c: Choice)
    | Refresh(t: nat, c: Choice)
    | Protection(t: nat, c: Choice)
    | TakeLock(t: nat)
    | WpAwake(t: nat, c: Choice)
    | NewCopy(t: nat, f: nat)
    | GiveUpCopy(t: nat)
    | PlaceCopy(t: nat, c: Choice)
    | FindSwap(t: nat)
    | GiveUpSwap(t: nat)
    | CheckSwap(t: nat)
    | PlaceSwap(t: nat, c: Choice)
    | NewCow(t: nat, f: nat)
    | GiveUpCow(t: nat)
    | FindFile(t: nat)
    | GiveUpFile(t: nat)
    | PlaceFile(t: nat, c: Choice)
    | GiveUpMkwrite(t: nat)
    | PlaceMkwrite(t: nat, c: Choice)
    | MarkDirty(t: nat)
    | Finish(t: nat)
    | Hardware(t: nat, a: nat, bits: nat)
    | Clean(t: nat, a: nat, bits: nat)                             // page_mkclean: writeback starts
    | ZapEntry(t: nat, a: nat)
    | Unmap(t: nat, a: nat, slot: nat)
    | Insert(t: nat, k: Key, f: nat)
    | Evict(t: nat, k: Key)
    | Hold(t: nat, f: nat)
    | LetGo(t: nat, f: nat)
    | OutsideLock(t: nat, f: nat)
    | OutsideUnlock(t: nat, f: nat)

  /** The cache slot that a fault looks at. */
  function Wanted(s: State, p: Fault): Key {
    match p
    case Entered(a, orig, _) =>
      if orig.Swap? then Slot(orig.slot) else (match s.Area(a) case Anonymous => Slot(0) case PrivateFile(i) => File(i) case SharedFile(i, _) => File(i))
    case CowWanted(a, _) => (match s.Area(a) case Anonymous => Slot(0) case PrivateFile(i) => File(i) case SharedFile(i, _) => File(i))
    case SwapReady(_, slot, _, _, _) => Slot(slot)
    case SwapIn(_, slot, _, _, _) => Slot(slot)
    case _ => Slot(0)
  }

  predicate Has(s: State, k: Key, f: nat) { k in s.cache && s.cache[k] == f }

  /** The guards of handle_pte_fault, do_fault and the rest, and what others are free to do. */
  predicate Enabled(s: State, act: Action) {
    match act
    case Start(t, _, _) => t !in s.faults
    case Leave(t) => s.Of(t).Entered?
    case MapZero(t) => var p := s.Of(t); p.Entered? && p.orig.NoEntry? && s.Area(p.a).Anonymous? && !p.write
    case NewAnon(t, f) => var p := s.Of(t); p.Entered? && p.orig.NoEntry? && s.Area(p.a).Anonymous? && Fresh(s, f)
    case PlaceAnon(t, _) => s.Of(t).AnonReady?
    case Refresh(t, _) => var p := s.Of(t); p.Entered? && p.orig.Page? && (p.write ==> p.orig.write)
    case Protection(t, _) => var p := s.Of(t); p.Entered? && p.write && (p.orig.Zero? || (p.orig.Page? && !p.orig.write))
    case TakeLock(t) => s.Of(t).Wants().Yes? && s.Of(t).Wants().frame !in s.locks
    case WpAwake(t, _) => s.Of(t).WpWait? && s.Of(t).locked
    case NewCopy(t, f) => s.Of(t).NeedCopy? && Fresh(s, f)
    case GiveUpCopy(t) => s.Of(t).NeedCopy?
    case PlaceCopy(t, _) => s.Of(t).CopyReady?
    case FindSwap(t) => var p := s.Of(t); p.Entered? && p.orig.Swap? && Slot(p.orig.slot) in s.cache
    case GiveUpSwap(t) => s.Of(t).SwapIn?
    case CheckSwap(t) => s.Of(t).SwapIn? && s.Of(t).locked
    case PlaceSwap(t, _) => s.Of(t).SwapReady?
    case NewCow(t, f) => var p := s.Of(t); p.Entered? && p.orig.NoEntry? && s.Area(p.a).PrivateFile? && p.write && Fresh(s, f)
    case GiveUpCow(t) => s.Of(t).CowWanted?
    case FindFile(t) => var p := s.Of(t);
      && (p.CowWanted? || (p.Entered? && p.orig.NoEntry? && !s.Area(p.a).Anonymous? && (p.write ==> s.Area(p.a).SharedFile?)))
      && Wanted(s, p) in s.cache
    case GiveUpFile(t) => s.Of(t).FilePage?
    case PlaceFile(t, _) => s.Of(t).FilePage? && s.Of(t).locked
    case GiveUpMkwrite(t) => s.Of(t).Mkwrite?
    case PlaceMkwrite(t, _) => s.Of(t).Mkwrite? && s.Of(t).locked
    case MarkDirty(t) => s.Of(t).Dirtying? && s.Of(t).locked
    case Finish(t) => s.Of(t).Exiting?
    case Hardware(t, a, _) => t !in s.faults && s.At(a).Page?
    case Clean(t, a, _) => t !in s.faults && s.At(a).IsFile()
    case ZapEntry(t, _) => t !in s.faults
    case Unmap(t, a, slot) => t !in s.faults && s.At(a).IsAnon() && Has(s, Slot(slot), s.At(a).frame)
    case Insert(t, k, f) => t !in s.faults && k !in s.cache && (Fresh(s, f) || f in s.committed)
    case Evict(t, k) => t !in s.faults && k in s.cache
    case Hold(t, f) => t !in s.faults && 0 < s.Count(f)
    case LetGo(t, f) => t !in s.faults && 0 < s.Others(f)
    case OutsideLock(t, f) => t !in s.faults && f !in s.locks
    case OutsideUnlock(t, f) => t !in s.faults && f in s.locks && s.locks[f].Outside?
  }

  /** The entry a step works on. */
  function Place(s: State, act: Action): nat {
    match act
    case Start(_, a, _) => a
    case Hardware(_, a, _) => a
    case Clean(_, a, _) => a
    case ZapEntry(_, a) => a
    case Unmap(_, a, _) => a
    case _ => Address(s.Of(act.t))
  }

  function Address(p: Fault): nat {
    match p
    case Idle => 0
    case Dirtying(_, _, _) => 0
    case Exiting(_, _) => 0
    case _ => p.a
  }

  /** The cache slot a step works on. */
  function SlotOf(s: State, act: Action): Key {
    match act
    case Insert(_, k, _) => k
    case Evict(_, k) => k
    case _ => Wanted(s, s.Of(act.t))
  }

  function Turned(s: State, act: Action): Turn
    requires Enabled(s, act)
  {
    var w := Begin(s, act.t, Place(s, act));
    var p := w.p;
    match act
    case Start(t, a, write) => w.To(Entered(a, w.e, write))
    case Leave(t) => w.Exit()
    case MapZero(t) => AnonRead(w)
    case NewAnon(t, f) => AnonAlloc(w, f)
    case PlaceAnon(t, c) => AnonInstall(w, c)
    case Refresh(t, c) => Touch(w, c)
    case Protection(t, c) => WpStart(w, s.Area(p.a), p.orig.Page? && p.orig.frame in s.locks, c)
    case TakeLock(t) => Acquire(w)
    case WpAwake(t, c) => WpLocked(w, c)
    case NewCopy(t, f) => CopyAlloc(w, f)
    case GiveUpCopy(t) => LeaveCopy(w, p.orig)
    case PlaceCopy(t, c) => CopyInstall(w, c)
    case FindSwap(t) => SwapLookup(w, s.cache[Slot(p.orig.slot)])
    case GiveUpSwap(t) => w.To(Exiting(p.page, p.locked))
    case CheckSwap(t) => SwapCheck(w, Has(s, Slot(p.slot), p.page), p.page in s.committed)
    case PlaceSwap(t, c) => SwapInstall(w, Has(s, Slot(p.slot), p.page), s.Area(p.a), c)
    case NewCow(t, f) => CowAlloc(w, f)
    case GiveUpCow(t) => CowFail(w)
    case FindFile(t) => FileFetch(w, s.cache[Wanted(s, p)])
    case GiveUpFile(t) => FileFail(w)
    case PlaceFile(t, c) => FileInstall(w, s.Area(p.a), c)
    case GiveUpMkwrite(t) => w.To(Exiting(p.page, p.locked))
    case PlaceMkwrite(t, c) => MkwriteInstall(w, c)
    case MarkDirty(t) => SetDirty(w)
    case Finish(t) => Release(w)
    case Hardware(t, a, bits) => w.Set(w.e.(bits := bits))
    case Clean(t, a, bits) => w.Set(w.e.(write := false, bits := bits))
    case ZapEntry(t, a) => Zap(w)
    case Unmap(t, a, slot) => SwapOut(w, slot)
    case Insert(t, k, f) => w.Get(f).(cache := Adds(k, f))
    case Evict(t, k) => w.Put(s.cache[k]).(cache := Removes(k))
    case Hold(t, f) => w.Get(f).(other := More(f))
    case LetGo(t, f) => w.Put(f).(other := Fewer(f))
    case OutsideLock(t, f) => w.(lock := OutsideTakes(f))
    case OutsideUnlock(t, f) => w.(lock := OutsideDrops(f))
  }

  function Next(s: State, act: Action): State
    requires Enabled(s, act)
  { Do(s, act.t, Place(s, act), Turned(s, act)) }

  // ---- what a counter should be

  ghost function Mappers(s: State, f: nat): set<nat> { set a | a in s.ptes && s.ptes[a].Maps(f) }
  ghost function Owners(s: State, f: nat): set<nat> { set t | t in s.faults && s.faults[t].Own() == Yes(f) }
  ghost function Holders(s: State, f: nat): set<nat> { set t | t in s.faults && s.faults[t].Ref() == Yes(f) }
  ghost function Caches(s: State, f: nat): set<Key> { set k | k in s.cache && s.cache[k] == f }
  ghost function Anons(s: State): set<nat> { set a | a in s.ptes && s.ptes[a].IsAnon() }
  ghost function Files(s: State): set<nat> { set a | a in s.ptes && s.ptes[a].IsFile() }
  ghost function Swaps(s: State): set<nat> { set a | a in s.ptes && s.ptes[a].Swap? }
  ghost function Chargers(s: State): set<nat> { set t | t in s.faults && s.faults[t].Pending() }

  ghost function Due(s: State, f: nat): int {
    |Mappers(s, f)| + |Owners(s, f)| + |Holders(s, f)| + |Caches(s, f)| + s.Others(f)
  }

  /** References, counters by kind, and charges. */
  ghost predicate Books(s: State) {
    && (forall f {:trigger s.Count(f)} :: s.Count(f) == Due(s, f))
    && s.anon == |Anons(s)| && s.file == |Files(s)| && s.swap == |Swaps(s)|
    && s.charges == |Chargers(s)| + |s.committed|
  }

  ghost predicate Shapes(s: State) {
    && (forall a {:trigger s.At(a)} :: a in s.ptes ==> !s.ptes[a].NoEntry?)
    && (forall t {:trigger s.Of(t)} :: t in s.faults ==> !s.faults[t].Idle? && s.faults[t].WellFormed())
  }

  ghost predicate ChargedLive(s: State) { forall f :: f in s.committed ==> 0 < s.Count(f) }

  /** A page is locked by a fault if and only if the fault holds its lock. */
  ghost predicate LocksAgree(s: State) {
    && (forall t {:trigger s.Of(t)} :: s.Of(t).Lock().Yes? ==> var f := s.Of(t).Lock().frame; f in s.locks && s.locks[f] == ByFault(t))
    && (forall f :: f in s.locks && s.locks[f].ByFault? ==> s.Of(s.locks[f].thread).Lock() == Yes(f))
  }

  ghost predicate OwnAlone(s: State) {
    forall t {:trigger s.Of(t)} :: s.Of(t).Own().Yes? ==> var f := s.Of(t).Own().frame; s.Count(f) == 1 + s.Others(f) && f !in s.committed
  }

  ghost predicate SwapAgree(s: State) {
    forall t {:trigger s.Of(t)} :: s.Of(t).SwapReady? ==> (s.Of(t).pending <==> s.Of(t).page !in s.committed)
  }

  /** Every mapped anonymous page has been charged. */
  ghost predicate AnonCharged(s: State) { forall a {:trigger s.At(a)} :: s.At(a).IsAnon() ==> s.At(a).frame in s.committed }

  /** Page locks have the owners that the faults believe in, and charges are not doubled. */
  ghost predicate Sound(s: State) {
    Shapes(s) && ChargedLive(s) && LocksAgree(s) && OwnAlone(s) && SwapAgree(s) && AnonCharged(s)
  }

  ghost predicate Inv(s: State) { Books(s) && Sound(s) }

  // ---- the uniform argument: one entry, one fault and one cache slot change at a time

  /** What an entry and a fault contribute to the count of a page. */
  function Share(e: Entry, p: Fault, f: nat): int { B(e.Maps(f)) + B(p.Own() == Yes(f)) + B(p.Ref() == Yes(f)) }

  /** What one entry, one fault and one cache slot contribute to the count of a page. */
  function Part(s: State, t: nat, a: nat, k: Key, f: nat): int {
    Share(s.At(a), s.Of(t), f) + B(k in s.cache && s.cache[k] == f) + s.Others(f)
  }

  ghost predicate Elsewhere(s: State, s': State, t: nat, a: nat, k: Key) {
    && s'.ptes - {a} == s.ptes - {a} && s'.faults - {t} == s.faults - {t} && s'.cache - {k} == s.cache - {k}
  }

  /** The counters moved by exactly what the entry, the fault and the cache slot changed. */
  ghost predicate Moved(s: State, s': State, t: nat, a: nat, k: Key) {
    && Elsewhere(s, s', t, a, k)
    && (forall f {:trigger s'.Count(f)} :: s'.Count(f) - s.Count(f) == Part(s', t, a, k, f) - Part(s, t, a, k, f))
    && s'.anon - s.anon == B(s'.At(a).IsAnon()) - B(s.At(a).IsAnon())
    && s'.file - s.file == B(s'.At(a).IsFile()) - B(s.At(a).IsFile())
    && s'.swap - s.swap == B(s'.At(a).Swap?) - B(s.At(a).Swap?)
    && s'.charges - s.charges == B(s'.Of(t).Pending()) - B(s.Of(t).Pending()) + |s'.committed| - |s.committed|
  }

  lemma SetDelta<T>(x: set<T>, y: set<T>, e: T)
    requires x - {e} == y - {e}
    ensures |y| - |x| == B(e in y) - B(e in x)
  {
    if e in x { assert x == (x - {e}) + {e}; }
    if e in y { assert y == (y - {e}) + {e}; }
    if e !in x { assert x == x - {e}; }
    if e !in y { assert y == y - {e}; }
  }

  lemma SameElsewhere(s: State, s': State, t: nat, a: nat, k: Key)
    requires Elsewhere(s, s', t, a, k)
    ensures forall b :: b != a ==> (b in s.ptes <==> b in s'.ptes) && s.At(b) == s'.At(b)
    ensures forall u :: u != t ==> (u in s.faults <==> u in s'.faults) && s.Of(u) == s'.Of(u)
    ensures forall c :: c != k ==> (c in s.cache <==> c in s'.cache) && (c in s.cache ==> s.cache[c] == s'.cache[c])
  {
    forall b | b != a
      ensures (b in s.ptes <==> b in s'.ptes) && s.At(b) == s'.At(b)
    {
      assert b in s.ptes - {a} <==> b in s.ptes;
      assert b in s'.ptes - {a} <==> b in s'.ptes;
      if b in s.ptes { assert (s.ptes - {a})[b] == (s'.ptes - {a})[b]; }
    }
    forall u | u != t
      ensures (u in s.faults <==> u in s'.faults) && s.Of(u) == s'.Of(u)
    {
      assert u in s.faults - {t} <==> u in s.faults;
      assert u in s'.faults - {t} <==> u in s'.faults;
      if u in s.faults { assert (s.faults - {t})[u] == (s'.faults - {t})[u]; }
    }
    forall c | c != k
      ensures (c in s.cache <==> c in s'.cache) && (c in s.cache ==> s.cache[c] == s'.cache[c])
    {
      assert c in s.cache - {k} <==> c in s.cache;
      assert c in s'.cache - {k} <==> c in s'.cache;
      if c in s.cache { assert (s.cache - {k})[c] == (s'.cache - {k})[c]; }
    }
  }

  lemma DueMoves(s: State, s': State, t: nat, a: nat, k: Key, f: nat)
    requires Elsewhere(s, s', t, a, k)
    ensures Due(s', f) - Due(s, f) == Part(s', t, a, k, f) - Part(s, t, a, k, f)
  {
    SameElsewhere(s, s', t, a, k);
    MapperMoves(s, s', a, f);
    FaultMoves(s, s', t, f);
    SetDelta(Caches(s, f), Caches(s', f), k);
  }

  lemma MapperMoves(s: State, s': State, a: nat, f: nat)
    requires forall b :: b != a ==> (b in s.ptes <==> b in s'.ptes) && s.At(b) == s'.At(b)
    ensures |Mappers(s', f)| - |Mappers(s, f)| == B(s'.At(a).Maps(f)) - B(s.At(a).Maps(f))
  {
    forall b | b != a
      ensures b in Mappers(s, f) <==> b in Mappers(s', f)
    {
      assert s.At(b) == s'.At(b);
    }
    SetDelta(Mappers(s, f), Mappers(s', f), a);
  }

  lemma FaultMoves(s: State, s': State, t: nat, f: nat)
    requires forall u :: u != t ==> (u in s.faults <==> u in s'.faults) && s.Of(u) == s'.Of(u)
    ensures |Owners(s', f)| - |Owners(s, f)| == B(s'.Of(t).Own() == Yes(f)) - B(s.Of(t).Own() == Yes(f))
    ensures |Holders(s', f)| - |Holders(s, f)| == B(s'.Of(t).Ref() == Yes(f)) - B(s.Of(t).Ref() == Yes(f))
  {
    hide Fault.Own, Fault.Ref;
    assert Idle.Own() == No && Idle.Ref() == No by { IdleHoldsNothing(); }
    forall u | u != t
      ensures u in Owners(s, f) <==> u in Owners(s', f)
      ensures u in Holders(s, f) <==> u in Holders(s', f)
    {
      assert s.Of(u) == s'.Of(u);
    }
    SetDelta(Owners(s, f), Owners(s', f), t);
    SetDelta(Holders(s, f), Holders(s', f), t);
  }

  lemma IdleHoldsNothing()
    ensures Idle.Own() == No && Idle.Ref() == No && Idle.Lock() == No && !Idle.Pending()
  {
  }

  lemma KindsMove(s: State, s': State, a: nat)
    requires forall b :: b != a ==> (b in s.ptes <==> b in s'.ptes) && s.At(b) == s'.At(b)
    ensures |Anons(s')| - |Anons(s)| == B(s'.At(a).IsAnon()) - B(s.At(a).IsAnon())
    ensures |Files(s')| - |Files(s)| == B(s'.At(a).IsFile()) - B(s.At(a).IsFile())
    ensures |Swaps(s')| - |Swaps(s)| == B(s'.At(a).Swap?) - B(s.At(a).Swap?)
  {
    forall b | b != a
      ensures b in Anons(s) <==> b in Anons(s')
      ensures b in Files(s) <==> b in Files(s')
      ensures b in Swaps(s) <==> b in Swaps(s')
    {
      assert s.At(b) == s'.At(b);
    }
    SetDelta(Anons(s), Anons(s'), a);
    SetDelta(Files(s), Files(s'), a);
    SetDelta(Swaps(s), Swaps(s'), a);
  }

  lemma ChargersMove(s: State, s': State, t: nat)
    requires forall u :: u != t ==> (u in s.faults <==> u in s'.faults) && s.Of(u) == s'.Of(u)
    ensures |Chargers(s')| - |Chargers(s)| == B(s'.Of(t).Pending()) - B(s.Of(t).Pending())
  {
    hide Fault.Pending;
    assert !Idle.Pending() by { IdleHoldsNothing(); }
    forall u | u != t
      ensures u in Chargers(s) <==> u in Chargers(s')
    {
      assert s.Of(u) == s'.Of(u);
    }
    SetDelta(Chargers(s), Chargers(s'), t);
  }

  /** Local moves keep the global books. */
  lemma BooksKept(s: State, s': State, t: nat, a: nat, k: Key)
    requires Books(s) && Moved(s, s', t, a, k)
    ensures Books(s')
  {
    SameElsewhere(s, s', t, a, k);
    KindsMove(s, s', a);
    ChargersMove(s, s', t);
    forall f
      ensures s'.Count(f) == Due(s', f)
    {
      DueMoves(s, s', t, a, k, f);
      assert s.Count(f) == Due(s, f);
      hide Due, Part, Mappers;
    }
  }

  /** What a step may do to charges, locks and private pages. */
  ghost predicate Lawful(s: State, s': State, t: nat, a: nat, k: Key) {
    && (a in s'.ptes ==> !s'.ptes[a].NoEntry?) && (t in s'.faults ==> !s'.faults[t].Idle? && s'.faults[t].WellFormed())
    && (forall f :: f in s'.committed ==> 0 < s'.Count(f) && (f in s.committed || s.Of(t).Own() == Yes(f) || (s.Of(t).SwapReady? && s.Of(t).page == f)))
    && (forall f :: f in s.committed && f !in s'.committed ==> s'.Count(f) == 0)
    && LocksMove(s, s', t)
    && (forall f {:trigger s'.Others(f)} :: s'.Others(f) < Part(s', t, a, k, f) ==> s.Others(f) < Part(s, t, a, k, f) || s.Count(f) == 0 || f in s.committed)
    && (s'.Of(t).Own().Yes? ==> var f := s'.Of(t).Own().frame; s'.Count(f) == 1 + s'.Others(f) && f !in s'.committed)
    && (s'.Of(t).SwapReady? ==> (s'.Of(t).pending <==> s'.Of(t).page !in s'.committed))
    && (s'.At(a).IsAnon() ==> s'.At(a).frame in s'.committed)
  }

  ghost predicate LocksMove(s: State, s': State, t: nat) {
    var was, now := s.Of(t).Lock(), s'.Of(t).Lock();
    || (s'.locks == s.locks && now == was)
    || (was.Yes? && now == No && s'.locks == s.locks - {was.frame})
    || (was == No && now.Yes? && now.frame !in s.locks && s'.locks == s.locks[now.frame := ByFault(t)])
    || (now == was && exists f :: (f in s.locks ==> s.locks[f] == Outside) && (s'.locks == s.locks - {f} || s'.locks == s.locks[f := Outside]))
  }

  /** A page that a fault owns is known to nothing else. */
  lemma OwnedAlone(s: State, u: nat, f: nat)
    requires Inv(s) && s.Of(u).Own() == Yes(f)
    ensures Mappers(s, f) == {} && Owners(s, f) == {u} && Holders(s, f) == {} && Caches(s, f) == {}
  {
    assert s.Count(f) == Due(s, f);
    assert u in Owners(s, f);
    assert Owners(s, f) == {u} by {
      SetDelta(Owners(s, f), Owners(s, f) - {u}, u);
    }
    hide Mappers, Owners, Holders, Caches;
  }

  lemma LocksKept(s: State, s': State, t: nat)
    requires (forall u :: u != t ==> s.Of(u) == s'.Of(u)) && LocksMove(s, s', t) && LocksAgree(s)
    ensures LocksAgree(s')
  {
    hide Fault.Lock;
    forall u | s'.Of(u).Lock().Yes?
      ensures var f := s'.Of(u).Lock().frame; f in s'.locks && s'.locks[f] == ByFault(u)
    {
      var before := s.Of(u).Lock();
      if u != t { assert before == s'.Of(u).Lock(); }
    }
  }

  /** A private page of another fault stays private. */
  lemma OwnKept(s: State, s': State, t: nat, a: nat, k: Key, u: nat, f: nat)
    requires Inv(s) && Moved(s, s', t, a, k) && Lawful(s, s', t, a, k) && u != t && s.Of(u).Own() == Yes(f) && s.Of(u) == s'.Of(u)
    ensures s'.Count(f) == 1 + s'.Others(f) && f !in s'.committed
  {
    OwnedAlone(s, u, f);
    assert s.Count(f) == 1 + s.Others(f) && f !in s.committed;
    assert Part(s, t, a, k, f) == s.Others(f) by {
      assert a !in Mappers(s, f) && t !in Owners(s, f) && t !in Holders(s, f) && k !in Caches(s, f);
    }
    assert s.Of(t).SwapReady? && s.Of(t).page == f ==> t in Holders(s, f);
    hide Books, Sound, Mappers, Owners, Holders, Caches, LocksMove, Elsewhere;
    assert s.Of(t).Own() != Yes(f);
    assert !(s'.Others(f) < Part(s', t, a, k, f));
    assert s'.Others(f) <= Part(s', t, a, k, f);
  }

  lemma HeldNotOwned(s: State, u: nat, t: nat, f: nat)
    requires Inv(s) && s.Of(u).Ref() == Yes(f)
    ensures s.Of(t).Own() != Yes(f)
  {
    assert u in Holders(s, f);
    if s.Of(t).Own() == Yes(f) {
      OwnedAlone(s, t, f);
      assert false;
    }
  }

  lemma HeldCounts(s: State, u: nat, f: nat)
    requires Books(s) && s.Of(u).Ref() == Yes(f)
    ensures 0 < s.Count(f)
  {
    assert u in Holders(s, f) && 0 < |Holders(s, f)|;
    assert s.Count(f) == Due(s, f);
  }

  lemma MappedCounts(s: State, b: nat, f: nat)
    requires Books(s) && s.At(b).Maps(f)
    ensures 0 < s.Count(f)
  {
    assert b in Mappers(s, f) && 0 < |Mappers(s, f)|;
    assert s.Count(f) == Due(s, f);
  }

  /** The charge of a page that another fault has locked for swap-in stays as it is. */
  lemma SwapKept(s: State, s': State, t: nat, a: nat, k: Key, u: nat)
    requires Inv(s) && Books(s') && Lawful(s, s', t, a, k) && u != t && s.Of(u).SwapReady? && s.Of(u) == s'.Of(u)
    ensures s.Of(u).pending <==> s.Of(u).page !in s'.committed
  {
    var f := s.Of(u).page;
    HeldNotOwned(s, u, t, f);
    HeldCounts(s', u, f);
    assert s.Of(u).Lock() == Yes(f) && (s.Of(t).SwapReady? && s.Of(t).page == f ==> s.Of(t).Lock() == Yes(f));
    hide Books, Part, LocksMove, Fault.Own, Fault.Lock, Fault.WellFormed;
  }

  /** An anonymous page that another entry maps stays charged. */
  lemma AnonKept(s: State, s': State, t: nat, a: nat, k: Key, b: nat)
    requires Inv(s) && Books(s') && Lawful(s, s', t, a, k) && b != a && s.At(b) == s'.At(b) && s.At(b).IsAnon()
    ensures s.At(b).frame in s'.committed
  {
    var f := s.At(b).frame;
    MappedCounts(s', b, f);
    hide Books, Part, LocksMove;
    assert f in s.committed;
  }

  lemma AllOwnKept(s: State, s': State, t: nat, a: nat, k: Key)
    requires Inv(s) && Moved(s, s', t, a, k) && Lawful(s, s', t, a, k)
    ensures OwnAlone(s')
  {
    SameElsewhere(s, s', t, a, k);
    hide Inv, Moved, LocksMove, Part, Fault.Own;
    forall u | s'.Of(u).Own().Yes?
      ensures var f := s'.Of(u).Own().frame; s'.Count(f) == 1 + s'.Others(f) && f !in s'.committed
    {
      if u != t { OwnKept(s, s', t, a, k, u, s'.Of(u).Own().frame); }
    }
  }

  lemma AllSwapKept(s: State, s': State, t: nat, a: nat, k: Key)
    requires Inv(s) && Books(s') && Moved(s, s', t, a, k) && Lawful(s, s', t, a, k)
    ensures SwapAgree(s') && AnonCharged(s')
  {
    SameElsewhere(s, s', t, a, k);
    hide Inv, Books, Moved, LocksMove, Part, Fault.Own;
    forall u | s'.Of(u).SwapReady?
      ensures s'.Of(u).pending <==> s'.Of(u).page !in s'.committed
    {
      if u != t { SwapKept(s, s', t, a, k, u); }
    }
    forall b | s'.At(b).IsAnon()
      ensures s'.At(b).frame in s'.committed
    {
      if b != a { AnonKept(s, s', t, a, k, b); }
    }
  }

  lemma ShapesKept(s: State, s': State, t: nat, a: nat, k: Key)
    requires Shapes(s) && Elsewhere(s, s', t, a, k) && Lawful(s, s', t, a, k)
    ensures Shapes(s')
  {
    SameElsewhere(s, s', t, a, k);
    hide Fault.WellFormed, LocksMove, Part;
    forall b | b in s'.ptes
      ensures !s'.ptes[b].NoEntry?
    {
      if b != a { assert s.At(b) == s'.At(b); }
    }
    forall u | u in s'.faults
      ensures !s'.faults[u].Idle? && s'.faults[u].WellFormed()
    {
      if u != t { assert s.Of(u) == s'.Of(u); }
    }
  }

  /** A lawful move by one fault keeps everything. */
  lemma InvKept(s: State, s': State, t: nat, a: nat, k: Key)
    requires Inv(s) && Moved(s, s', t, a, k) && Lawful(s, s', t, a, k)
    ensures Inv(s')
  {
    BooksKept(s, s', t, a, k);
    SameElsewhere(s, s', t, a, k);
    assert LocksMove(s, s', t) && ChargedLive(s');
    LocksKept(s, s', t);
    AllOwnKept(s, s', t, a, k);
    AllSwapKept(s, s', t, a, k);
    ShapesKept(s, s', t, a, k);
  }

  // ---- a turn that fits

  /** What a cache change and others' changes add to the count of a page. */
  function Shift(s: State, w: Turn, f: nat): int {
    (match w.cache case SameCache => 0 case Adds(k, g) => B(g == f) case Removes(k) => -B(k in s.cache && s.cache[k] == f))
    + (match w.other case SameOthers => 0 case More(g) => B(g == f) case Fewer(g) => -B(g == f))
  }

  /** References given and taken match what the entry, the fault, the cache and the others hold. */
  ghost predicate RefsFit(s: State, t: nat, a: nat, w: Turn) {
    forall f {:trigger Shift(s, w, f)} ::
      B(w.got == Yes(f)) - B(w.gave == Yes(f)) == Share(w.e, w.p, f) - Share(s.At(a), s.Of(t), f) + Shift(s, w, f)
  }

  ghost predicate CountersFit(s: State, t: nat, a: nat, w: Turn) {
    && w.anon == B(w.e.IsAnon()) - B(s.At(a).IsAnon())
    && w.file == B(w.e.IsFile()) - B(s.At(a).IsFile())
    && w.swap == B(w.e.Swap?) - B(s.At(a).Swap?)
    && w.charge == B(w.p.Pending()) - B(s.Of(t).Pending()) + B(w.committed.Yes? && w.committed.frame !in s.committed)
  }

  /** A page may be referenced if it is already known here, new, charged, or in the cache slot k. */
  predicate Known(s: State, t: nat, a: nat, k: Key, f: nat) {
    0 < Share(s.At(a), s.Of(t), f) || s.Count(f) == 0 || f in s.committed || (k in s.cache && s.cache[k] == f)
  }

  predicate LocksFit(s: State, t: nat, w: Turn) {
    var was, now := s.Of(t).Lock(), w.p.Lock();
    match w.lock
    case SameLocks => now == was
    case Takes(f) => was == No && now == Yes(f) && f !in s.locks
    case Drops(f) => was == Yes(f) && now == No
    case OutsideTakes(f) => now == was && f !in s.locks
    case OutsideDrops(f) => now == was && f in s.locks && s.locks[f].Outside?
  }

  ghost predicate ChargesFit(s: State, t: nat, a: nat, k: Key, w: Turn) {
    && (w.got.Yes? && !w.other.More? ==> Known(s, t, a, k, w.got.frame))
    && (w.committed.Yes? ==> w.e.Maps(w.committed.frame) && (s.Of(t).Own() == w.committed || (s.Of(t).SwapReady? && s.Of(t).page == w.committed.frame)))
    && (w.p.Own().Yes? ==> w.gave != w.p.Own() && w.committed != w.p.Own())
    && (w.p.Own().Yes? ==>
         (s.Of(t).Own() == w.p.Own() && (w.got == w.p.Own() ==> w.other == More(w.got.frame)))
         || (w.got == w.p.Own() && s.Count(w.got.frame) == 0 && w.other == SameOthers))
    && (w.p.SwapReady? ==> w.gave == No && w.committed == No && (w.p.pending <==> w.p.page !in s.committed))
    && (w.e.IsAnon() ==> w.e.frame in s.committed || w.committed == Yes(w.e.frame))
  }

  ghost predicate OpsFit(s: State, k: Key, w: Turn) {
    && (w.cache.Adds? ==> w.cache.key == k && k !in s.cache && w.got == Yes(w.cache.page))
    && (w.cache.Removes? ==> w.cache.key == k)
    && (w.other.More? ==> w.got == Yes(w.other.page))
    && (w.other.Fewer? ==> 0 < s.Others(w.other.page) && w.gave == Yes(w.other.page))
  }

  ghost predicate Fits(s: State, t: nat, a: nat, k: Key, w: Turn) {
    && RefsFit(s, t, a, w) && CountersFit(s, t, a, w) && LocksFit(s, t, w) && ChargesFit(s, t, a, k, w) && OpsFit(s, k, w)
    && w.p.WellFormed()
  }

  lemma DoElsewhere(s: State, t: nat, a: nat, k: Key, w: Turn)
    requires OpsFit(s, k, w)
    ensures Elsewhere(s, Do(s, t, a, w), t, a, k) && Do(s, t, a, w).At(a) == w.e && Do(s, t, a, w).Of(t) == w.p
    ensures var s' := Do(s, t, a, w); (a in s'.ptes ==> !s'.ptes[a].NoEntry?) && (t in s'.faults ==> !s'.faults[t].Idle?)
  {
    hide Recount, Frees;
  }

  lemma DoCounts(s: State, t: nat, a: nat, w: Turn)
    ensures forall f {:trigger Do(s, t, a, w).Count(f)} :: Do(s, t, a, w).Count(f) == CountAfter(s, w, f)
  {
    hide Frees;
  }

  lemma DoShifts(s: State, t: nat, a: nat, k: Key, w: Turn, f: nat)
    requires OpsFit(s, k, w)
    ensures Part(Do(s, t, a, w), t, a, k, f) - Part(s, t, a, k, f) == Share(w.e, w.p, f) - Share(s.At(a), s.Of(t), f) + Shift(s, w, f)
  {
    DoElsewhere(s, t, a, k, w);
    hide Share, Recount, Frees;
  }

  lemma DoCharges(s: State, t: nat, a: nat, w: Turn)
    ensures var s' := Do(s, t, a, w);
      s'.charges - s.charges == w.charge - B(w.committed.Yes? && w.committed.frame !in s.committed) + |s'.committed| - |s.committed|
  {
    var charged := if w.committed.Yes? then s.committed + {w.committed.frame} else s.committed;
    if w.committed.Yes? { SetDelta(s.committed, charged, w.committed.frame); }
    if w.gave.Yes? { SetDelta(charged, charged - {w.gave.frame}, w.gave.frame); }
    hide Frees, Recount;
  }

  lemma DoMoved(s: State, t: nat, a: nat, k: Key, w: Turn)
    requires RefsFit(s, t, a, w) && CountersFit(s, t, a, w) && OpsFit(s, k, w)
    ensures Moved(s, Do(s, t, a, w), t, a, k)
  {
    var s' := Do(s, t, a, w);
    DoElsewhere(s, t, a, k, w);
    DoCounts(s, t, a, w);
    DoCharges(s, t, a, w);
    forall f
      ensures s'.Count(f) - s.Count(f) == Part(s', t, a, k, f) - Part(s, t, a, k, f)
    {
      DoShifts(s, t, a, k, w, f);
      assert B(w.got == Yes(f)) - B(w.gave == Yes(f)) == Share(w.e, w.p, f) - Share(s.At(a), s.Of(t), f) + Shift(s, w, f);
      hide Do, Part, Share, Shift, State.Count;
    }
    hide Elsewhere, Part, OpsFit, RefsFit, State.Count, Recount, Frees;
  }

  lemma DoCommitted(s: State, t: nat, a: nat, k: Key, w: Turn)
    requires ChargedLive(s) && ChargesFit(s, t, a, k, w) && OpsFit(s, k, w) && Books(Do(s, t, a, w))
    ensures var s' := Do(s, t, a, w);
      && (forall f :: f in s'.committed ==> 0 < s'.Count(f) && (f in s.committed || s.Of(t).Own() == Yes(f) || (s.Of(t).SwapReady? && s.Of(t).page == f)))
      && (forall f :: f in s.committed && f !in s'.committed ==> s'.Count(f) == 0)
      && (w.e.IsAnon() ==> w.e.frame in s'.committed)
  {
    var s' := Do(s, t, a, w);
    DoElsewhere(s, t, a, k, w);
    if w.e.IsAnon() { MappedCounts(s', a, w.e.frame); }
    if w.committed.Yes? { MappedCounts(s', a, w.committed.frame); }
    hide Books, Elsewhere, OpsFit;
    DoLive(s, t, a, w);
    DoFreed(s, t, a, w);
    hide Do;
  }

  /** A charged page has references, and one that loses its charge has lost them. */
  lemma DoLive(s: State, t: nat, a: nat, w: Turn)
    requires ChargedLive(s) && Books(Do(s, t, a, w)) && (w.committed.Yes? ==> 0 < Do(s, t, a, w).Count(w.committed.frame))
    ensures forall f :: f in Do(s, t, a, w).committed ==> 0 < Do(s, t, a, w).Count(f)
  {
    DoCounts(s, t, a, w);
    if w.gave.Yes? { CountNatural(Do(s, t, a, w), w.gave.frame); }
    hide Books, Recount, State.Count;
  }

  lemma DoFreed(s: State, t: nat, a: nat, w: Turn)
    ensures forall f :: f in s.committed && f !in Do(s, t, a, w).committed ==> Do(s, t, a, w).Count(f) == 0
    ensures forall f :: f in Do(s, t, a, w).committed ==> f in s.committed || w.committed == Yes(f)
    ensures forall f :: (f in s.committed || w.committed == Yes(f)) && 0 < Do(s, t, a, w).Count(f) ==> f in Do(s, t, a, w).committed
  {
    DoCounts(s, t, a, w);
    hide Recount, State.Count;
  }

  lemma CountNatural(s: State, f: nat)
    requires Books(s)
    ensures s.Others(f) <= s.Count(f)
  {
    assert s.Count(f) == Due(s, f);
  }

  lemma DoLocks(s: State, t: nat, a: nat, k: Key, w: Turn)
    requires LocksFit(s, t, w) && OpsFit(s, k, w)
    ensures LocksMove(s, Do(s, t, a, w), t)
  {
    DoElsewhere(s, t, a, k, w);
    hide Elsewhere, OpsFit, Recount, Frees, Fault.Lock;
  }

  lemma DoKnown(s: State, t: nat, a: nat, k: Key, w: Turn, f: nat)
    requires Fits(s, t, a, k, w)
    ensures var s' := Do(s, t, a, w); s'.Others(f) < Part(s', t, a, k, f) ==> s.Others(f) < Part(s, t, a, k, f) || s.Count(f) == 0 || f in s.committed
  {
    DoElsewhere(s, t, a, k, w);
    DoShifts(s, t, a, k, w, f);
    assert B(w.got == Yes(f)) - B(w.gave == Yes(f)) == Share(w.e, w.p, f) - Share(s.At(a), s.Of(t), f) + Shift(s, w, f);
    hide RefsFit, CountersFit, LocksFit, Elsewhere, Recount, Frees, Fault.Own, Fault.Ref;
  }

  lemma DoOwn(s: State, t: nat, a: nat, k: Key, w: Turn)
    requires Inv(s) && Fits(s, t, a, k, w) && w.p.Own().Yes?
    ensures var s' := Do(s, t, a, w); var f := w.p.Own().frame; s'.Count(f) == 1 + s'.Others(f) && f !in s'.committed
  {
    var f := w.p.Own().frame;
    CountNatural(s, f);
    assert s.Of(t).Own() == Yes(f) ==> s.Count(f) == 1 + s.Others(f) && f !in s.committed;
    assert ChargedLive(s);
    DoCounts(s, t, a, w);
    hide Inv, RefsFit, CountersFit, LocksFit, Recount, Frees, Fault.Own, Fault.Ref, Known;
  }

  /** A turn that fits keeps the invariant. */
  lemma DoKeeps(s: State, t: nat, a: nat, k: Key, w: Turn)
    requires Inv(s) && Fits(s, t, a, k, w)
    ensures Inv(Do(s, t, a, w))
  {
    var s' := Do(s, t, a, w);
    DoMoved(s, t, a, k, w);
    BooksKept(s, s', t, a, k);
    DoElsewhere(s, t, a, k, w);
    DoLawful(s, t, a, k, w);
    InvKept(s, s', t, a, k);
  }

  lemma DoReady(s: State, t: nat, a: nat, k: Key, w: Turn)
    requires ChargesFit(s, t, a, k, w) && w.p.SwapReady?
    ensures w.p.pending <==> w.p.page !in Do(s, t, a, w).committed
  {
    hide Known, Recount, Fault.Own;
  }

  lemma FitsParts(s: State, t: nat, a: nat, k: Key, w: Turn)
    requires Inv(s) && Fits(s, t, a, k, w)
    ensures OpsFit(s, k, w) && ChargesFit(s, t, a, k, w) && LocksFit(s, t, w) && w.p.WellFormed() && ChargedLive(s)
  {
    hide OpsFit, ChargesFit, LocksFit, RefsFit, CountersFit, Fault.WellFormed, Books, ChargedLive;
  }

  lemma DoLawful(s: State, t: nat, a: nat, k: Key, w: Turn)
    requires Inv(s) && Fits(s, t, a, k, w) && Books(Do(s, t, a, w))
    ensures Lawful(s, Do(s, t, a, w), t, a, k)
  {
    hide Inv, Books, Fits, OpsFit, ChargesFit, LocksFit, LocksMove, Part, Do, Elsewhere, Fault.WellFormed, Fault.Own, State.Count, State.Others, Frees, ChargedLive;
    FitsParts(s, t, a, k, w);
    var s' := Do(s, t, a, w);
    DoElsewhere(s, t, a, k, w);
    DoCommitted(s, t, a, k, w);
    DoLocks(s, t, a, k, w);
    forall f
      ensures s'.Others(f) < Part(s', t, a, k, f) ==> s.Others(f) < Part(s, t, a, k, f) || s.Count(f) == 0 || f in s.committed
    {
      DoKnown(s, t, a, k, w, f);
    }
    if w.p.Own().Yes? { DoOwn(s, t, a, k, w); }
    if w.p.SwapReady? { DoReady(s, t, a, k, w); }
  }

  /** What a step may use about its own entry, fault and cache slot. */
  lemma Facts(s: State, t: nat, a: nat, k: Key)
    requires Inv(s)
    ensures ChargedLive(s) && s.Of(t).WellFormed()
    ensures s.Of(t).Own().Yes? ==> var f := s.Of(t).Own().frame; s.Count(f) == 1 + s.Others(f) && f !in s.committed && !s.At(a).Maps(f) && s.Of(t).Ref() != Yes(f) && !Has(s, k, f)
    ensures s.At(a).IsAnon() ==> s.At(a).frame in s.committed
    ensures s.Of(t).SwapReady? ==> (s.Of(t).pending <==> s.Of(t).page !in s.committed)
  {
    if s.Of(t).Own().Yes? {
      var f := s.Of(t).Own().frame;
      OwnedAlone(s, t, f);
      assert a !in Mappers(s, f) && t !in Holders(s, f) && k !in Caches(s, f);
    }
    hide Books, Mappers, Holders, Caches;
  }

  // ---- every step fits

  ghost predicate StepFits(s: State, act: Action)
    requires Enabled(s, act)
  { Fits(s, act.t, Place(s, act), SlotOf(s, act), Turned(s, act)) }

  lemma PlaceAnonFits(s: State, act: Action)
    requires Inv(s) && act.PlaceAnon? && Enabled(s, act)
    ensures StepFits(s, act)
  {
    hide Inv;
    Facts(s, act.t, Place(s, act), SlotOf(s, act));
  }

  lemma WpHeldFits(s: State, t: nat, c: Choice)
    requires Inv(s) && s.Of(t).Entered? && s.At(s.Of(t).a) == s.Of(t).orig && (s.Of(t).orig.Zero? || s.Of(t).orig.Page?)
    ensures var p := s.Of(t);
      Fits(s, t, p.a, Wanted(s, p), WpHeld(Begin(s, t, p.a), p.a, p.orig, s.Area(p.a), p.orig.Page? && p.orig.frame in s.locks, c))
  {
    hide Inv, Wanted;
    Facts(s, t, s.Of(t).a, Wanted(s, s.Of(t)));
  }

  lemma WpStartFits(s: State, t: nat, c: Choice)
    requires Inv(s) && s.Of(t).Entered? && (s.Of(t).orig.Zero? || s.Of(t).orig.Page?)
    ensures Fits(s, t, s.Of(t).a, Wanted(s, s.Of(t)), WpStart(Begin(s, t, s.Of(t).a), s.Area(s.Of(t).a), s.Of(t).orig.Page? && s.Of(t).orig.frame in s.locks, c))
  {
    if s.At(s.Of(t).a) == s.Of(t).orig {
      WpHeldFits(s, t, c);
      hide Fits, Inv, WpHeld, Wanted;
    } else {
      Facts(s, t, s.Of(t).a, Wanted(s, s.Of(t)));
      hide Inv, WpHeld, Wanted;
    }
  }

  lemma ProtectionFits(s: State, act: Action)
    requires Inv(s) && act.Protection? && Enabled(s, act)
    ensures StepFits(s, act)
  {
    hide Inv, Fits, Wanted;
    WpStartFits(s, act.t, act.c);
  }

  lemma WpAwakeFits(s: State, act: Action)
    requires Inv(s) && act.WpAwake? && Enabled(s, act)
    ensures StepFits(s, act)
  {
    hide Inv;
    Facts(s, act.t, Place(s, act), SlotOf(s, act));
  }

  lemma PlaceCopyFits(s: State, act: Action)
    requires Inv(s) && act.PlaceCopy? && Enabled(s, act)
    ensures StepFits(s, act)
  {
    hide Inv;
    Facts(s, act.t, Place(s, act), SlotOf(s, act));
  }

  lemma CheckSwapFits(s: State, act: Action)
    requires Inv(s) && act.CheckSwap? && Enabled(s, act)
    ensures StepFits(s, act)
  {
    hide Inv;
    Facts(s, act.t, Place(s, act), SlotOf(s, act));
  }

  lemma SwapInstallFits(s: State, t: nat, c: Choice)
    requires Inv(s) && s.Of(t).SwapReady?
    ensures Fits(s, t, s.Of(t).a, Wanted(s, s.Of(t)), SwapInstall(Begin(s, t, s.Of(t).a), Has(s, Slot(s.Of(t).slot), s.Of(t).page), s.Area(s.Of(t).a), c))
  {
    hide Inv;
    Facts(s, t, s.Of(t).a, Wanted(s, s.Of(t)));
  }

  lemma PlaceSwapFits(s: State, act: Action)
    requires Inv(s) && act.PlaceSwap? && Enabled(s, act)
    ensures StepFits(s, act)
  {
    hide Inv, Fits, Wanted;
    SwapInstallFits(s, act.t, act.c);
  }

  lemma GiveUpFileFits(s: State, act: Action)
    requires Inv(s) && act.GiveUpFile? && Enabled(s, act)
    ensures StepFits(s, act)
  {
    hide Inv;
    Facts(s, act.t, Place(s, act), SlotOf(s, act));
  }

  lemma PlaceFileFits(s: State, act: Action)
    requires Inv(s) && act.PlaceFile? && Enabled(s, act)
    ensures StepFits(s, act)
  {
    hide Inv;
    Facts(s, act.t, Place(s, act), SlotOf(s, act));
  }

  lemma PlaceMkwriteFits(s: State, act: Action)
    requires Inv(s) && act.PlaceMkwrite? && Enabled(s, act)
    ensures StepFits(s, act)
  {
    hide Inv;
    Facts(s, act.t, Place(s, act), SlotOf(s, act));
  }

  lemma FinishFits(s: State, act: Action)
    requires Inv(s) && act.Finish? && Enabled(s, act)
    ensures StepFits(s, act)
  {
    hide Inv;
    Facts(s, act.t, Place(s, act), SlotOf(s, act));
  }

  /** A fault begins, leaves early, or needs only the zero page or the young and dirty bits. */
  lemma BeginFits(s: State, act: Action)
    requires Inv(s) && Enabled(s, act) && (act.Start? || act.Leave? || act.MapZero? || act.Refresh?)
    ensures StepFits(s, act)
  {
    hide Inv;
    Facts(s, act.t, Place(s, act), SlotOf(s, act));
  }

  /** A fault gives up with what it has. */
  lemma GiveUpFits(s: State, act: Action)
    requires Inv(s) && Enabled(s, act) && (act.GiveUpSwap? || act.GiveUpMkwrite? || act.GiveUpCopy? || act.GiveUpCow?)
    ensures StepFits(s, act)
  {
    hide Inv;
    Facts(s, act.t, Place(s, act), SlotOf(s, act));
  }

  /** A page is allocated and charged. */
  lemma AllocFits(s: State, act: Action)
    requires Inv(s) && Enabled(s, act) && (act.NewAnon? || act.NewCopy? || act.NewCow?)
    ensures StepFits(s, act)
  {
    hide Inv;
    Facts(s, act.t, Place(s, act), SlotOf(s, act));
  }

  /** A page is found in a cache. */
  lemma FindFits(s: State, act: Action)
    requires Inv(s) && Enabled(s, act) && (act.FindSwap? || act.FindFile?)
    ensures StepFits(s, act)
  {
    hide Inv;
    Facts(s, act.t, Place(s, act), SlotOf(s, act));
  }

  /** A page lock is taken, or dropped after set_page_dirty. */
  lemma LockFits(s: State, act: Action)
    requires Inv(s) && Enabled(s, act) && (act.TakeLock? || act.MarkDirty?)
    ensures StepFits(s, act)
  {
    hide Inv;
    Facts(s, act.t, Place(s, act), SlotOf(s, act));
  }

  /** Others change an entry. */
  lemma EntryFits(s: State, act: Action)
    requires Inv(s) && Enabled(s, act) && (act.Hardware? || act.Clean? || act.ZapEntry? || act.Unmap?)
    ensures StepFits(s, act)
  {
    hide Inv;
    Facts(s, act.t, Place(s, act), SlotOf(s, act));
  }

  /** Others change a cache slot, a reference or a page lock. */
  lemma OutsideFits(s: State, act: Action)
    requires Inv(s) && Enabled(s, act) && (act.Insert? || act.Evict? || act.Hold? || act.LetGo? || act.OutsideLock? || act.OutsideUnlock?)
    ensures StepFits(s, act)
  {
    hide Inv;
    Facts(s, act.t, Place(s, act), SlotOf(s, act));
  }

  lemma AllFit(s: State, act: Action)
    requires Inv(s) && Enabled(s, act)
    ensures StepFits(s, act)
  {
    hide *;
    match act
    case PlaceAnon(_, _) => PlaceAnonFits(s, act);
    case Protection(_, _) => ProtectionFits(s, act);
    case WpAwake(_, _) => WpAwakeFits(s, act);
    case PlaceCopy(_, _) => PlaceCopyFits(s, act);
    case CheckSwap(_) => CheckSwapFits(s, act);
    case PlaceSwap(_, _) => PlaceSwapFits(s, act);
    case GiveUpFile(_) => GiveUpFileFits(s, act);
    case PlaceFile(_, _) => PlaceFileFits(s, act);
    case PlaceMkwrite(_, _) => PlaceMkwriteFits(s, act);
    case Finish(_) => FinishFits(s, act);
    case _ =>
      if act.Start? || act.Leave? || act.MapZero? || act.Refresh? { BeginFits(s, act); }
      else if act.GiveUpSwap? || act.GiveUpMkwrite? || act.GiveUpCopy? || act.GiveUpCow? { GiveUpFits(s, act); }
      else if act.NewAnon? || act.NewCopy? || act.NewCow? { AllocFits(s, act); }
      else if act.FindSwap? || act.FindFile? { FindFits(s, act); }
      else if act.TakeLock? || act.MarkDirty? { LockFits(s, act); }
      else if act.Hardware? || act.Clean? || act.ZapEntry? || act.Unmap? { EntryFits(s, act); }
      else { OutsideFits(s, act); }
  }

  /** Main result, in every interleaving: after each step each page's reference count is its entries,
      the faults that hold or own it, its cache slots and the references of others; the counters by
      kind are the numbers of entries; charges are the pending and the committed ones; and page locks
      are held by who believes so. */
  lemma InvNext(s: State, act: Action)
    requires Inv(s) && Enabled(s, act)
    ensures Inv(Next(s, act))
  {
    hide Inv, Fits, Enabled, Do, Turned;
    AllFit(s, act);
    DoKeeps(s, act.t, Place(s, act), SlotOf(s, act), Turned(s, act));
  }

  // ---- whole runs

  ghost predicate IsRun(states: seq<State>, acts: seq<Action>) {
    && |states| == |acts| + 1
    && forall i :: 0 <= i < |acts| ==> Enabled(states[i], acts[i]) && states[i + 1] == Next(states[i], acts[i])
  }

  lemma {:induction false} InvAlways(states: seq<State>, acts: seq<Action>, n: nat)
    requires IsRun(states, acts) && n <= |acts| && Inv(states[0])
    ensures Inv(states[n])
  {
    hide Inv, Enabled, Next;
    if n > 0 {
      InvAlways(states, acts, n - 1);
      InvNext(states[n - 1], acts[n - 1]);
    }
  }

  /** Before anything is mapped, referenced or charged the books are in order. */
  lemma InitiallyInOrder(vmas: map<nat, Vma>)
    ensures Inv(State(vmas, map[], map[], map[], map[], map[], map[], 0, 0, 0, 0, {}))
    ensures StoresStay(State(vmas, map[], map[], map[], map[], map[], map[], 0, 0, 0, 0, {}))
  {
    var s := State(vmas, map[], map[], map[], map[], map[], map[], 0, 0, 0, 0, {});
    assert Anons(s) == {} && Files(s) == {} && Swaps(s) == {} && Chargers(s) == {};
    forall f
      ensures s.Count(f) == Due(s, f)
    {
      assert Mappers(s, f) == {} && Owners(s, f) == {} && Holders(s, f) == {} && Caches(s, f) == {};
    }
  }

  /** When no fault is left, nothing that the faults took is left: winners and losers alike gave back
      every reference, lock and charge that is not accounted for by an entry. */
  lemma NothingLeaks(states: seq<State>, acts: seq<Action>, n: nat)
    requires IsRun(states, acts) && n <= |acts| && Inv(states[0]) && states[n].faults == map[]
    ensures forall f {:trigger states[n].Count(f)} :: states[n].Count(f) == |Mappers(states[n], f)| + |Caches(states[n], f)| + states[n].Others(f)
    ensures states[n].charges == |states[n].committed|
    ensures forall f :: f in states[n].locks ==> states[n].locks[f] == Outside
  {
    InvAlways(states, acts, n);
    var s := states[n];
    assert Chargers(s) == {};
    forall f
      ensures s.Count(f) == |Mappers(s, f)| + |Caches(s, f)| + s.Others(f)
    {
      assert s.Count(f) == Due(s, f);
      assert Owners(s, f) == {} && Holders(s, f) == {};
    }
    forall f | f in s.locks
      ensures s.locks[f] == Outside
    {
      assert s.locks[f].ByFault? ==> s.Of(s.locks[f].thread).Lock() == Yes(f);
    }
  }

  predicate ByAFault(act: Action) {
    !(act.Hardware? || act.Clean? || act.ZapEntry? || act.Unmap? || act.Insert? || act.Evict? || act.Hold? || act.LetGo? || act.OutsideLock? || act.OutsideUnlock?)
  }

  /** The fault changes the entry at a. */
  predicate Installs(s: State, act: Action, a: nat)
    requires Enabled(s, act)
  { ByAFault(act) && Next(s, act).At(a) != s.At(a) }

  /** A fault changes only its own entry, and only while that is still what the fault has seen. */
  lemma RecheckGuards(s: State, act: Action, a: nat)
    requires Inv(s) && Enabled(s, act) && Installs(s, act, a)
    ensures a == Place(s, act) && s.At(a) == s.Of(act.t).Orig()
  {
    AllFit(s, act);
    var w := Turned(s, act);
    DoElsewhere(s, act.t, Place(s, act), SlotOf(s, act), w);
    if a != Place(s, act) { SameElsewhere(s, Next(s, act), act.t, Place(s, act), SlotOf(s, act)); }
    assert w.e != s.At(a);
    hide Inv, Fits, Do, Elsewhere;
    if act.Protection? || act.WpAwake? || act.PlaceCopy? || act.PlaceSwap? { CopyGuards(s, act); } else { OtherGuards(s, act); }
  }

  lemma CopyGuards(s: State, act: Action)
    requires Enabled(s, act) && (act.Protection? || act.WpAwake? || act.PlaceCopy? || act.PlaceSwap?) && Turned(s, act).e != s.At(Place(s, act))
    ensures s.At(Place(s, act)) == s.Of(act.t).Orig()
  {
    hide Fault.Own, Fault.Lock, Fault.Ref, State.Count;
  }

  lemma OtherGuards(s: State, act: Action)
    requires Enabled(s, act) && ByAFault(act) && !(act.Protection? || act.WpAwake? || act.PlaceCopy? || act.PlaceSwap?) && Turned(s, act).e != s.At(Place(s, act))
    ensures s.At(Place(s, act)) == s.Of(act.t).Orig()
  {
    hide Fault.Own, Fault.Lock, Fault.Ref, State.Count, WpHeld;
  }

  /** A write-protection fault that replaces the entry itself makes the page it has found writable, and
      does nothing else to it; so does a fault after page_mkwrite, which may also map the page. */
  lemma UpgradesOnly(s: State, act: Action)
    requires Inv(s) && Enabled(s, act) && (act.Protection? || act.WpAwake? || act.PlaceMkwrite?)
    ensures var a := Place(s, act); var e, e' := s.At(a), Next(s, act).At(a);
      e' != e ==> e'.Page? && e'.write && ((e.NoEntry? && act.PlaceMkwrite? && !e'.anon) || (e.Page? && e' == e.(write := true, bits := e'.bits)))
  {
    hide Books, ChargedLive, LocksAgree, OwnAlone, SwapAgree, AnonCharged;
    Facts(s, act.t, Place(s, act), SlotOf(s, act));
    assert s.Of(act.t).WellFormed();
  }

  // ---- where stores may go

  /** A page of a file may be stored to in place only where the mapping is shared. */
  predicate MayHold(v: Vma, e: Entry) { e.IsFile() && e.write ==> v.SharedFile? }

  /** What a fault must know before it maps a page of a file writable. */
  predicate MayMap(s: State, p: Fault) { ((p.FilePage? && p.write) || p.Mkwrite?) ==> s.Area(p.a).SharedFile? }

  ghost predicate StoresStay(s: State) {
    (forall a {:trigger s.At(a)} :: MayHold(s.Area(a), s.At(a))) && (forall t {:trigger s.Of(t)} :: MayMap(s, s.Of(t)))
  }

  /** The entry and the fault that a step leaves, and that it leaves all others alone. */
  lemma DoAt(s: State, t: nat, a: nat, w: Turn, b: nat, u: nat)
    ensures Do(s, t, a, w).At(b) == if b == a then w.e else s.At(b)
    ensures Do(s, t, a, w).Of(u) == if u == t then w.p else s.Of(u)
    ensures Do(s, t, a, w).vmas == s.vmas
  {
    hide Recount, Frees;
  }

  /** The steps that may go through do_wp_page or wp_page_copy. */
  predicate MayCopy(act: Action) { act.Protection? || act.WpAwake? || act.PlaceCopy? || act.PlaceSwap? }

  lemma CopyStays(s: State, act: Action)
    requires Enabled(s, act) && MayCopy(act) && MayHold(s.Area(Place(s, act)), s.At(Place(s, act))) && MayMap(s, s.Of(act.t))
    ensures MayHold(s.Area(Place(s, act)), Turned(s, act).e) && MayMap(s, Turned(s, act).p)
  {
    hide Fault.Own, Fault.Lock, Fault.Ref, Fault.Pending, State.Count, Fresh;
  }

  lemma EntryStays(s: State, act: Action)
    requires Enabled(s, act) && (act.Hardware? || act.Clean? || act.ZapEntry? || act.Unmap?)
    requires MayHold(s.Area(Place(s, act)), s.At(Place(s, act))) && MayMap(s, s.Of(act.t))
    ensures MayHold(s.Area(Place(s, act)), Turned(s, act).e) && MayMap(s, Turned(s, act).p)
  {
    hide Fault.Own, Fault.Lock, Fault.Ref, Fault.Pending, State.Count, Fresh, WpHeld, WpLocked, CopyInstall, SwapInstall, FileInstall;
  }

  lemma OutsideStays(s: State, act: Action)
    requires Enabled(s, act) && (act.Insert? || act.Evict? || act.Hold? || act.LetGo? || act.OutsideLock? || act.OutsideUnlock?)
    ensures Turned(s, act).e == s.At(Place(s, act)) && Turned(s, act).p == s.Of(act.t)
  {
    hide Fault.Own, Fault.Lock, Fault.Ref, Fault.Pending, State.Count, Fresh, WpHeld, WpLocked, CopyInstall, SwapInstall, FileInstall;
  }

  lemma OtherStays(s: State, act: Action)
    requires Enabled(s, act) && !MayCopy(act) && ByAFault(act) && MayHold(s.Area(Place(s, act)), s.At(Place(s, act))) && MayMap(s, s.Of(act.t))
    ensures MayHold(s.Area(Place(s, act)), Turned(s, act).e) && MayMap(s, Turned(s, act).p)
  {
    hide Fault.Lock, Fault.Ref, Fault.Pending, State.Count, Fresh, WpHeld, WpLocked, CopyInstall, SwapInstall;
  }

  lemma TurnStays(s: State, act: Action)
    requires Enabled(s, act) && StoresStay(s)
    ensures MayHold(s.Area(Place(s, act)), Turned(s, act).e) && MayMap(s, Turned(s, act).p)
  {
    hide StoresStay, Place, Enabled, Turned, MayHold, MayMap;
    StaysNow(s, Place(s, act), act.t);
    if MayCopy(act) { CopyStays(s, act); } else if ByAFault(act) { OtherStays(s, act); }
    else if act.Hardware? || act.Clean? || act.ZapEntry? || act.Unmap? { EntryStays(s, act); }
    else { OutsideStays(s, act); }
  }

  lemma StaysNow(s: State, a: nat, t: nat)
    requires StoresStay(s)
    ensures MayHold(s.Area(a), s.At(a)) && MayMap(s, s.Of(t))
  {
  }

  /** No step lets a store to a private mapping of a file go into the file's page: such an entry is made
      writable only after its page has been copied. */
  lemma StoresStayNext(s: State, act: Action)
    requires Enabled(s, act) && StoresStay(s)
    ensures StoresStay(Next(s, act))
  {
    hide StoresStay, Do, Turned, Place, Enabled, MayHold, MayMap;
    TurnStays(s, act);
    var a, t, w := Place(s, act), act.t, Turned(s, act);
    assert Next(s, act) == Do(s, t, a, w);
    DoAt(s, t, a, w, a, t);
    SameMaps(s, Next(s, act));
    forall b
      ensures MayHold(Next(s, act).Area(b), Next(s, act).At(b))
    {
      DoAt(s, t, a, w, b, t);
      StaysNow(s, b, t);
    }
    forall u
      ensures MayMap(Next(s, act), Next(s, act).Of(u))
    {
      DoAt(s, t, a, w, a, u);
      StaysNow(s, a, u);
    }
    StaysAll(Next(s, act));
  }

  lemma SameMaps(s: State, s': State)
    requires s'.vmas == s.vmas
    ensures forall a :: s'.Area(a) == s.Area(a)
    ensures forall p :: MayMap(s', p) <==> MayMap(s, p)
  {
  }

  lemma StaysAll(s: State)
    requires forall b :: MayHold(s.Area(b), s.At(b))
    requires forall u :: MayMap(s, s.Of(u))
    ensures StoresStay(s)
  {
  }

  lemma {:induction false} StoresStayAlways(states: seq<State>, acts: seq<Action>, n: nat)
    requires IsRun(states, acts) && n <= |acts| && StoresStay(states[0])
    ensures StoresStay(states[n])
  {
    hide StoresStay, Enabled, Next;
    if n > 0 {
      StoresStayAlways(states, acts, n - 1);
      StoresStayNext(states[n - 1], acts[n - 1]);
    }
  }

  /** do_wp_page, if the entry still is what the fault has seen: the zero page and pages of a private
      mapping are copied; a page of a shared one is made writable, after page_mkwrite if it has that;
      and an anonymous page is made writable only if it may be reused, and otherwise copied, or slept on
      while somebody else has its lock. */
  lemma ProtectionMeaning(s: State, t: nat, c: Choice)
    requires Enabled(s, Protection(t, c)) && s.At(s.Of(t).a) == s.Of(t).orig
    ensures var p, s' := s.Of(t), Next(s, Protection(t, c)); var e := p.orig;
      && (e.Zero? || (e.IsFile() && !s.Area(p.a).SharedFile?) || (e.IsAnon() && e.frame !in s.locks && !c.reuse) ==>
           s'.At(p.a) == e && s'.Of(t) == NeedCopy(p.a, e))
      && (e.IsAnon() && e.frame in s.locks ==> s'.At(p.a) == e && s'.Of(t) == WpWait(p.a, e.frame, e.bits, false))
      && (e.IsAnon() && e.frame !in s.locks && c.reuse ==> s'.At(p.a) == e.(write := true, bits := c.bits) && s'.Of(t) == Idle)
      && (e.IsFile() && s.Area(p.a).SharedFile? && s.Area(p.a).mkwrite ==> s'.At(p.a) == e && s'.Of(t) == Mkwrite(p.a, e, e.frame, false))
      && (e.IsFile() && s.Area(p.a).SharedFile? && !s.Area(p.a).mkwrite ==>
           s'.At(p.a) == e.(write := true, bits := c.bits) && s'.Of(t) == Dirtying(e.frame, false, true))
  {
    DoAt(s, t, s.Of(t).a, Turned(s, Protection(t, c)), s.Of(t).a, t);
    hide Do, Fault.Own, Fault.Lock, Fault.Ref, Fault.Pending;
  }

  /** do_wp_page after it has slept on the page lock. */
  lemma AwakeMeaning(s: State, t: nat, c: Choice)
    requires Enabled(s, WpAwake(t, c))
    ensures var p, s' := s.Of(t), Next(s, WpAwake(t, c)); var e := s.At(p.a);
      && (e != p.Orig() ==> s'.At(p.a) == e && s'.Of(t) == Exiting(p.page, true))
      && (e == p.Orig() && c.reuse ==> s'.At(p.a) == e.(write := true, bits := c.bits) && s'.Of(t) == Idle)
      && (e == p.Orig() && !c.reuse ==> s'.At(p.a) == e && s'.Of(t) == NeedCopy(p.a, e))
  {
    DoAt(s, t, s.Of(t).a, Turned(s, WpAwake(t, c)), s.Of(t).a, t);
    hide Do, Fault.Own, Fault.Lock, Fault.Ref, Fault.Pending;
  }

  /** The last step of a fault under the lock: if the entry is what it has seen, its page is there
      afterwards, and only then; a private copy and a fresh page as the mapping allows, a page of a file
      writable only for a write. */
  lemma PlaceMeaning(s: State, act: Action)
    requires Enabled(s, act) && (act.PlaceAnon? || act.PlaceCopy? || act.PlaceMkwrite? || act.PlaceFile? || act.PlaceSwap?)
    ensures var a, p, c := Place(s, act), s.Of(act.t), act.c; var e, e' := s.At(a), Next(s, act).At(a);
      if e != p.Orig() then e' == e
      else match act
        case PlaceAnon(_, _) => e' == Page(p.own, true, c.writable, c.bits)
        case PlaceCopy(_, _) => e' == Page(p.own, true, c.writable, c.bits)
        case PlaceMkwrite(_, _) => e' == Page(p.page, false, true, c.bits)
        case PlaceSwap(_, _) => if !c.uptodate then e' == e
          else e' == Page(p.page, true, p.write && (c.exclusive || (c.reuse && !c.beaten)), c.bits)
        case PlaceFile(_, _) =>
          if p.copy.Yes? then e' == Page(p.copy.frame, true, c.writable, c.bits)
          else if p.write && s.Area(a).SharedFile? && s.Area(a).mkwrite then e' == e && Next(s, act).Of(act.t) == Mkwrite(a, NoEntry, p.page, false)
          else e' == Page(p.page, false, p.write && c.writable, c.bits)
  {
    DoAt(s, act.t, Place(s, act), Turned(s, act), Place(s, act), act.t);
    hide Do, Fault.Own, Fault.Lock, Fault.Ref, Fault.Pending, State.Count;
  }

  /** How many steps of its own a fault can still take. */
  function StepsLeft(p: Fault): nat {
    match p
    case Idle => 0
    case Exiting(_, locked) => if locked then 2 else 1
    case Dirtying(_, locked, _) => if locked then 3 else 4
    case AnonReady(_, _) => 1
    case CopyReady(_, _, _) => 3
    case NeedCopy(_, _) => 4
    case WpWait(_, _, _, locked) => if locked then 5 else 6
    case Mkwrite(_, _, _, locked) => if locked then 5 else 6
    case FilePage(_, _, locked, _, _) => if locked then 7 else 8
    case CowWanted(_, _) => 9
    case SwapReady(_, _, _, _, _) => 7
    case SwapIn(_, _, _, locked, _) => if locked then 8 else 9
    case Entered(_, _, _) => 10
  }

  lemma CopyFalls(s: State, act: Action)
    requires Enabled(s, act) && MayCopy(act)
    ensures StepsLeft(Turned(s, act).p) < StepsLeft(s.Of(act.t))
  {
    hide Fault.Own, Fault.Lock, Fault.Ref, Fault.Pending, State.Count, Fresh;
  }

  lemma OtherFalls(s: State, act: Action)
    requires Enabled(s, act) && !MayCopy(act) && act.t in s.faults && s.Of(act.t) != Idle
    ensures StepsLeft(Turned(s, act).p) < StepsLeft(s.Of(act.t))
  {
    hide Fault.Own, Fault.Lock, Fault.Ref, Fault.Pending, State.Count, Fresh, WpHeld, WpLocked, CopyInstall, SwapInstall;
  }

  /** A fault ends after ten steps of its own at most ... */
  lemma StepsFall(s: State, act: Action)
    requires Enabled(s, act) && act.t in s.faults && s.Of(act.t) != Idle
    ensures StepsLeft(Next(s, act).Of(act.t)) < StepsLeft(s.Of(act.t))
  {
    hide Do, Turned, Enabled, StepsLeft;
    DoAt(s, act.t, Place(s, act), Turned(s, act), Place(s, act), act.t);
    if MayCopy(act) { CopyFalls(s, act); } else { OtherFalls(s, act); }
  }

  /** ... and can take one unless it waits for a page lock that somebody else holds. */
  lemma NotStuck(s: State, t: nat) returns (act: Action)
    requires s.Of(t) != Idle && (s.Of(t).Wants().Yes? ==> s.Of(t).Wants().frame !in s.locks)
    ensures Enabled(s, act) && act.t == t
  {
    var c := Choice(false, false, 0, false, false, false, false);
    match s.Of(t)
    case Entered(_, _, _) => act := Leave(t);
    case AnonReady(_, _) => act := PlaceAnon(t, c);
    case WpWait(_, _, _, locked) => act := if locked then WpAwake(t, c) else TakeLock(t);
    case NeedCopy(_, _) => act := GiveUpCopy(t);
    case CopyReady(_, _, _) => act := PlaceCopy(t, c);
    case SwapIn(_, _, _, locked, _) => act := if locked then CheckSwap(t) else TakeLock(t);
    case SwapReady(_, _, _, _, _) => act := PlaceSwap(t, c);
    case CowWanted(_, _) => act := GiveUpCow(t);
    case FilePage(_, _, locked, _, _) => act := if locked then PlaceFile(t, c) else TakeLock(t);
    case Mkwrite(_, _, _, locked) => act := if locked then PlaceMkwrite(t, c) else TakeLock(t);
    case Dirtying(_, locked, _) => act := if locked then MarkDirty(t) else TakeLock(t);
    case Exiting(_, _) => act := Finish(t);
  }

  /** Of several faults that have seen the same value, at most one gets to replace it: between two
      that do, somebody has put the value back. */
  lemma OneWinner(states: seq<State>, acts: seq<Action>, i: nat, j: nat, a: nat)
    requires IsRun(states, acts) && Inv(states[0]) && i < j < |acts|
    requires Installs(states[i], acts[i], a) && Installs(states[j], acts[j], a)
    requires states[i].Of(acts[i].t).Orig() == states[j].Of(acts[j].t).Orig()
    ensures exists k :: i < k < j && states[k].At(a) != states[i].At(a) && states[k + 1].At(a) == states[i].At(a)
  {
    InvAlways(states, acts, i);
    InvAlways(states, acts, j);
    RecheckGuards(states[i], acts[i], a);
    RecheckGuards(states[j], acts[j], a);
    var e := states[i].At(a);
    assert states[i + 1].At(a) != e && states[j].At(a) == e;
    hide *;
    var k := PutBack(states, a, e, i + 1, j);
  }

  lemma {:induction false} PutBack(states: seq<State>, a: nat, e: Entry, i: nat, j: nat) returns (k: nat)
    requires i <= j < |states| && states[i].At(a) != e && states[j].At(a) == e
    ensures i <= k < j && states[k].At(a) != e && states[k + 1].At(a) == e
    decreases j - i
  {
    hide State.At;
    if states[i + 1].At(a) == e { return i; }
    k := PutBack(states, a, e, i + 1, j);
  }
}
