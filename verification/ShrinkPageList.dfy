/** shrink_page_list on base pages.  What the code reads of a page that others may change at any
    time (referenced, mapped, dirty, evictable, ...) is left open; who holds the page lock, the
    isolation's reference and which pages are under writeback is kept exactly. */
module ShrinkPageList {

  /** The labels that a page can end at. */
  datatype Fate = Keep | KeepLocked | ActivateLocked | CullMlocked | Again | FreeIt | LeaveIt

  predicate EndsLocked(f: Fate) { f.KeepLocked? || f.ActivateLocked? || f.CullMlocked? }

  datatype References = Reclaim | ReclaimClean | KeepRef | Activate

  datatype Unmapped = SwapFail | SwapAgain | SwapMlock | SwapSuccess

  datatype Pageout = PageKeep | PageActivate | PageSuccess | PageClean

  /** struct scan_control and the caller's circumstances. */
  datatype Scan = Scan(force: bool, mayUnmap: bool, mayWritepage: bool, gfpFs: bool, gfpIo: bool, kswapd: bool, saneReclaim: bool,
                       zoneWriteback: bool, zoneDirty: bool)

  datatype Stats = Stats(dirty: nat, unqueuedDirty: nat, congested: nat, writeback: nat, immediate: nat) {
    predicate Ordered() { unqueuedDirty <= dirty && congested <= dirty }

    function Plus(s: Stats): Stats {
      Stats(dirty + s.dirty, unqueuedDirty + s.unqueuedDirty, congested + s.congested, writeback + s.writeback, immediate + s.immediate)
    }
  }

  const NO_STATS := Stats(0, 0, 0, 0, 0)

  function Range(s: seq<nat>): set<nat> { set p | p in s }

  ghost predicate Distinct(s: seq<nat>) { forall i, j :: 0 <= i < j < |s| ==> s[i] != s[j] }

  /** Every page of `was` is in exactly one of the four lists, and they hold nothing else. */
  ghost predicate Split(was: seq<nat>, list: seq<nat>, ret: seq<nat>, freed: seq<nat>, left: seq<nat>) {
    multiset(was) == multiset(list) + multiset(ret) + multiset(freed) + multiset(left)
  }

  lemma DistinctOnce(s: seq<nat>, p: nat)
    requires Distinct(s)
    ensures multiset(s)[p] <= 1 && (p in s <==> multiset(s)[p] == 1)
  {
    if p in s {
      var i :| 0 <= i < |s| && s[i] == p;
      assert s == s[..i] + [p] + s[i + 1..];
    }
  }

  lemma OnceDistinct(s: seq<nat>)
    requires forall p :: multiset(s)[p] <= 1
    ensures Distinct(s)
  {
    forall i, j | 0 <= i < j < |s|
      ensures s[i] != s[j]
    {
      assert s == s[..i] + [s[i]] + s[i + 1..j] + [s[j]] + s[j + 1..];
      assert multiset(s)[s[i]] <= 1;
    }
  }

  /** The meaning of Split for a list without repetition. */
  lemma SplitMeaning(was: seq<nat>, ret: seq<nat>, freed: seq<nat>, left: seq<nat>)
    requires Distinct(was) && Split(was, [], ret, freed, left)
    ensures Range(was) == Range(ret) + Range(freed) + Range(left)
    ensures Range(ret) !! Range(freed) !! Range(left) && Distinct(ret)
    ensures |was| == |ret| + |freed| + |left|
  {
    forall p
      ensures p in was <==> p in ret || p in freed || p in left
      ensures multiset(ret)[p] <= 1
      ensures !(p in ret && p in freed) && !(p in ret && p in left) && !(p in freed && p in left)
    {
      DistinctOnce(was, p);
      assert multiset(was)[p] == multiset(ret)[p] + multiset(freed)[p] + multiset(left)[p];
    }
    OnceDistinct(ret);
    assert |multiset(was)| == |multiset(ret)| + |multiset(freed)| + |multiset(left)|;
  }

  lemma TakeLast(was: seq<nat>, list: seq<nat>, ret: seq<nat>, freed: seq<nat>, left: seq<nat>)
    requires 0 < |list| && Split(was, list, ret, freed, left)
    ensures var p, rest := list[|list| - 1], list[..|list| - 1];
      && Split(was, rest + [p], ret, freed, left) && Split(was, rest, [p] + ret, freed, left)
      && Split(was, rest, ret, [p] + freed, left) && Split(was, rest, ret, freed, left + [p])
  {
    assert list == list[..|list| - 1] + [list[|list| - 1]];
  }

  /** How far the loop has come: where the pages are, whose references are held, what is active. */
  datatype Account = Account(list: seq<nat>, ret: seq<nat>, freed: seq<nat>, left: seq<nat>, held: set<nat>, active: set<nat>, activated: nat)

  ghost predicate Kept(was: seq<nat>, wasHeld: set<nat>, wasActive: set<nat>, b: Account) {
    && |b.list| <= |was| && b.list == was[..|b.list|] && Split(was, b.list, b.ret, b.freed, b.left)
    && b.held == wasHeld - Range(b.freed) - Range(b.left)
    && wasActive <= b.active && |b.active - wasActive| == b.activated && b.active - wasActive <= Range(b.ret)
    && (forall p :: p in b.list ==> p in b.held && p !in b.active)
  }

  /** The account after page p, the last of the list, has ended at this label. */
  function Settled(b: Account, p: nat, f: Fate): Account
    requires b.list != []
  {
    var rest := b.list[..|b.list| - 1];
    match f
    case Again => b
    case FreeIt => b.(list := rest, freed := [p] + b.freed, held := b.held - {p})
    case LeaveIt => b.(list := rest, left := b.left + [p], held := b.held - {p})
    case ActivateLocked => b.(list := rest, ret := [p] + b.ret, active := b.active + {p}, activated := b.activated + 1)
    case _ => b.(list := rest, ret := [p] + b.ret)
  }

  lemma SettledKept(was: seq<nat>, h: set<nat>, a: set<nat>, b: Account, f: Fate)
    requires Distinct(was) && Kept(was, h, a, b) && b.list != []
    ensures Kept(was, h, a, Settled(b, b.list[|b.list| - 1], f))
  {
    hide Split, Range, Distinct;
    SettledSplit(was, b, f);
    SettledSets(was, h, a, b, f);
  }

  lemma SettledSplit(was: seq<nat>, b: Account, f: Fate)
    requires b.list != [] && |b.list| <= |was| && b.list == was[..|b.list|] && Split(was, b.list, b.ret, b.freed, b.left)
    ensures var s := Settled(b, b.list[|b.list| - 1], f);
      |s.list| <= |was| && s.list == was[..|s.list|] && Split(was, s.list, s.ret, s.freed, s.left)
  {
    hide Split;
    TakeLast(was, b.list, b.ret, b.freed, b.left);
    assert b.list[..|b.list| - 1] + [b.list[|b.list| - 1]] == b.list;
  }

  lemma SettledSets(was: seq<nat>, h: set<nat>, a: set<nat>, b: Account, f: Fate)
    requires Distinct(was) && Kept(was, h, a, b) && b.list != []
    ensures var s := Settled(b, b.list[|b.list| - 1], f);
      && s.held == h - Range(s.freed) - Range(s.left)
      && a <= s.active && |s.active - a| == s.activated && s.active - a <= Range(s.ret)
      && (forall p :: p in s.list ==> p in s.held && p !in s.active)
  {
    hide Split;
    LastIsAlone(was, b.list);
    if f.ActivateLocked? { assert (b.active + {b.list[|b.list| - 1]}) - a == (b.active - a) + {b.list[|b.list| - 1]}; }
  }

  /** Why a page is not freed. */
  datatype Reason =
    | Busy                              // its lock is held by somebody else
    | NotEvictable
    | MappedKept                        // mapped, and not to be unmapped
    | UnderWriteback(marked: bool)      // marked: PageReclaim was set already
    | InUse | RecentlyUsed              // page_check_references
    | NoIo | NoSwapSpace                // anonymous, and no room for it in swap
    | UnmapFailed | UnmapLater | Mlocked
    | Dirty                             // found dirty, not decided yet
    | OnlyKswapd | OnlyIfClean | NoFs | NoWrite   // dirty, and not to be written here
    | PageoutKept | PageoutActive
    | WriteGoesOn | DirtiedAgain        // written, but not clean
    | Buffers | NoMapping | StillUsed

  /** Where such a page goes. */
  function Label(r: Reason): Fate {
    match r
    case Busy => Keep
    case WriteGoesOn => Keep
    case NotEvictable => CullMlocked
    case Mlocked => CullMlocked
    case InUse => ActivateLocked
    case NoSwapSpace => ActivateLocked
    case UnmapFailed => ActivateLocked
    case PageoutActive => ActivateLocked
    case Buffers => ActivateLocked
    case Dirty => Again
    case _ => KeepLocked
  }

  /** The look that a reason comes from: why a dirty page is not written is asked of dirty pages only. */
  function Question(r: Reason): Reason { if r.OnlyKswapd? || r.OnlyIfClean? || r.NoFs? || r.NoWrite? then Dirty else r }

  /** What this run has done to pages: unmapped or tried to, put into swap, begun to write, waited for;
      which pages may be freed only if they are clean; why pages are not freed; whose last reference it
      has taken away; and which pages it has taken out of their mapping. */
  datatype Log = Log(unmapped: set<nat>, swapped: set<nat>, written: set<nat>, waited: set<nat>, cleanOnly: set<nat>,
                     why: map<nat, Reason>, ours: set<nat>, detached: set<nat>)
  {
    function Refuse(p: nat, r: Reason): Log { this.(why := why[p := r]) }
    function Ours(p: nat): Log { this.(ours := ours + {p}) }
  }

  const NOTHING_DONE := Log({}, {}, {}, {}, {}, map[], {}, {})

  /** What the log says of page p once it has got its label. */
  ghost predicate Decided(log: Log, p: nat, f: Fate) {
    if f.FreeIt? || f.LeaveIt? || f.Again? then p !in log.why else p in log.why && f == Label(log.why[p])
  }

  predicate Untouched(p: nat, log: Log) {
    p !in log.why && p !in log.ours && p !in log.swapped && p !in log.unmapped && p !in log.written && p !in log.cleanOnly
  }

  /** Pages on the list are undecided; those that come back were refused for a reason, which also says
      whether they are active now; those that go were refused for none, are not under writeback, and are
      freed here exactly if this run took the last reference. */
  ghost predicate Tested(list: set<nat>, ret: set<nat>, freed: set<nat>, left: set<nat>, active: set<nat>, log: Log, writeback: set<nat>) {
    && (forall q :: q in list ==> Untouched(q, log))
    && (forall q :: q in ret ==> q in log.why && log.why[q] != Dirty && (q in active <==> Label(log.why[q]).ActivateLocked?))
    && (forall q :: q in freed ==> q !in log.why && q in log.ours && q !in writeback)
    && (forall q :: q in left ==> q !in log.why && q !in log.ours && q !in writeback)
  }

  /** The log changes for this page only. */
  ghost predicate OnlyAbout(p: nat, log: Log, log': Log) {
    forall q :: q != p ==>
      && (q in log'.why <==> q in log.why) && (q in log.why ==> log'.why[q] == log.why[q])
      && (q in log'.ours <==> q in log.ours) && (q in log'.swapped <==> q in log.swapped)
      && (q in log'.unmapped <==> q in log.unmapped) && (q in log'.written <==> q in log.written)
      && (q in log'.cleanOnly <==> q in log.cleanOnly)
  }

  lemma NothingAbout(p: nat, log: Log)
    ensures OnlyAbout(p, log, log)
  {
  }

  lemma StillAbout(p: nat, log: Log, log': Log, log'': Log)
    requires OnlyAbout(p, log, log') && OnlyAbout(p, log', log'')
    ensures OnlyAbout(p, log, log'')
  {
  }

  /** What one page's turn changes of this. */
  lemma TestedStep(list: set<nat>, ret: set<nat>, freed: set<nat>, left: set<nat>, active: set<nat>, log: Log, writeback: set<nat>,
                   p: nat, f: Fate, active': set<nat>, log': Log, writeback': set<nat>)
    requires Tested(list, ret, freed, left, active, log, writeback) && p in list && p !in ret && p !in freed && p !in left && p !in active
    requires OnlyAbout(p, log, log') && writeback' <= writeback + {p} && Decided(log', p, f)
    requires (p in log'.ours <==> f.FreeIt?) && (f.FreeIt? || f.LeaveIt? ==> p !in writeback') && (f.Again? ==> Untouched(p, log'))
    requires active' == if f.ActivateLocked? then active + {p} else active
    ensures Tested(if f.Again? then list else list - {p}, if f.FreeIt? || f.LeaveIt? || f.Again? then ret else ret + {p},
                   if f.FreeIt? then freed + {p} else freed, if f.LeaveIt? then left + {p} else left, active', log', writeback')
  {
  }

  /** The loop's invariant: the account is right, and the pages that have gone have passed the tests. */
  ghost predicate Sound(was: seq<nat>, h: set<nat>, a: set<nat>, b: Account, log: Log, writeback: set<nat>, queued: set<nat>) {
    && Kept(was, h, a, b) && Tested(Range(b.list), Range(b.ret), Range(b.freed), Range(b.left), b.active, log, writeback)
    && Range(b.list) * writeback <= queued
  }

  lemma SoundStep(was: seq<nat>, h: set<nat>, a: set<nat>, b: Account, log: Log, writeback: set<nat>, queued: set<nat>,
                  p: nat, f: Fate, log': Log, writeback': set<nat>)
    requires Distinct(was) && Sound(was, h, a, b, log, writeback, queued) && b.list != [] && p == b.list[|b.list| - 1]
    requires OnlyAbout(p, log, log') && writeback' <= writeback + {p} && Decided(log', p, f)
    requires (p in log'.ours <==> f.FreeIt?) && (f.FreeIt? || f.LeaveIt? ==> p !in writeback') && (f.Again? ==> Untouched(p, log') && p !in writeback')
    ensures Sound(was, h, a, Settled(b, p, f), log', writeback', queued)
  {
    hide Kept, Settled, Split, Distinct, Range, Decided, OnlyAbout;
    LastHeld(was, h, a, b);
    SettledKept(was, h, a, b, f);
    ListsApart(was, h, a, b);
    SettledRanges(was, b, p, f);
    LastInRange(b.list);
    TestedStep(Range(b.list), Range(b.ret), Range(b.freed), Range(b.left), b.active, log, writeback, p, f, Settled(b, p, f).active, log', writeback');
  }

  /** Where the page that is taken off the list is found afterwards. */
  lemma SoundRanges(was: seq<nat>, h: set<nat>, a: set<nat>, b: Account, log: Log, writeback: set<nat>, queued: set<nat>, p: nat, f: Fate)
    requires Distinct(was) && Sound(was, h, a, b, log, writeback, queued) && b.list != [] && p == b.list[|b.list| - 1]
    ensures p !in Range(b.freed) + Range(b.left)
    ensures var s := Settled(b, p, f);
      Range(s.freed) + Range(s.left) == Range(b.freed) + Range(b.left) + if f.FreeIt? || f.LeaveIt? then {p} else {}
  {
    hide Settled, Split, Tested;
    LastHeld(was, h, a, b);
    ListsApart(was, h, a, b);
    SettledRanges(was, b, p, f);
    LastInRange(b.list);
  }

  lemma SoundLast(was: seq<nat>, h: set<nat>, a: set<nat>, b: Account, log: Log, writeback: set<nat>, queued: set<nat>)
    requires Distinct(was) && Sound(was, h, a, b, log, writeback, queued) && b.list != []
    ensures b.list[|b.list| - 1] in writeback ==> b.list[|b.list| - 1] in queued
    ensures var p := b.list[|b.list| - 1]; p in b.held && p !in b.active && Untouched(p, log) && p in Range(was)
    ensures |b.list| <= |was| && b.list == was[..|b.list|]
  {
    LastHeld(was, h, a, b);
    LastInRange(b.list);
  }

  /** How many pages of the list are under writeback. */
  function Waiting(list: seq<nat>, writeback: set<nat>): nat { |Range(list) * writeback| }

  class Reclaimer {
    const sc: Scan
    /** What a look at a page may find against freeing it; a look for which nothing is listed finds nothing. */
    const doubts: set<(nat, Reason)>
    /** What every look at a page finds. */
    const certain: set<(nat, Reason)>
    /** The pages that are under writeback at the beginning. */
    const queued: set<nat>
    /** Pages of files, as opposed to swap-backed ones. */
    const file: set<nat>
    /** page_list; its last element is the one that lru_to_page takes. */
    var list: seq<nat>
    /** Pages whose lock this thread holds. */
    var locked: set<nat>
    /** Pages whose isolation reference is still held. */
    var held: set<nat>
    /** Pages under writeback; nobody else starts writeback on an isolated page. */
    var writeback: set<nat>
    var active: set<nat>
    var freed: seq<nat>
    /** Pages left to a speculative reference, which will free them. */
    var left: seq<nat>
    var scanned: nat
    var stats: Stats
    ghost var log: Log

    constructor (sc: Scan, list: seq<nat>, writeback: set<nat>, file: set<nat>, doubts: set<(nat, Reason)>, certain: set<(nat, Reason)>)
      ensures this.doubts == doubts && this.certain == certain && queued == this.writeback == writeback
      ensures this.sc == sc && this.list == list && this.file == file && locked == {} && held == Range(list) && active == {}
      ensures freed == [] && left == [] && stats == NO_STATS && log == NOTHING_DONE
    {
      this.sc, this.list, this.locked, this.held, this.writeback, this.file := sc, list, {}, Range(list), writeback, file;
      active, freed, left, scanned, stats, log := {}, [], [], 0, NO_STATS, NOTHING_DONE;
      this.doubts, this.certain, queued := doubts, certain, writeback;
    }

    /** A reason that a look has found, and that the caller's circumstances bear out. */
    predicate Just(p: nat, r: Reason, cleanOnly: set<nat>) {
      && (if r.UnderWriteback? then p in queued else (p, Question(r)) in doubts)
      && match r
         case MappedKept => !sc.mayUnmap
         case UnderWriteback(marked) => marked ==> (sc.kswapd && sc.zoneWriteback) || sc.saneReclaim || !sc.gfpFs
         case NoIo => !sc.gfpIo
         case OnlyKswapd => p in file && !(sc.kswapd && sc.zoneDirty)
         case OnlyIfClean => p in cleanOnly
         case NoFs => !sc.gfpFs
         case NoWrite => !sc.mayWritepage
         case InUse => !sc.force
         case RecentlyUsed => !sc.force
         case _ => true
    }

    /** What the caller's circumstances allow: unmapping, swapping and writing only if asked for, no
        writing at all by force or of pages that may be freed only if clean, files only by kswapd in a zone full of dirty pages, and waiting only
        where nothing else throttles and the wait cannot be for the caller's own filesystem or device;
        and a page is refused for such reasons only where they hold. */
    ghost predicate Allowed()
      reads this`log
    {
      && (log.unmapped != {} ==> sc.mayUnmap)
      && (log.swapped != {} ==> sc.gfpIo)
      && (log.written != {} ==> !sc.force && sc.mayWritepage && (sc.gfpFs || sc.gfpIo))
      && (log.written * file != {} ==> sc.kswapd && sc.zoneDirty)
      && log.written !! log.cleanOnly && certain <= doubts
      && (log.waited != {} ==> !sc.saneReclaim && (sc.gfpFs || sc.gfpIo))
      && (forall q :: q in log.why ==> Just(q, log.why[q], log.cleanOnly))
    }

    /** No look finds anything against freeing the page that the circumstances do not overcome: a dirty
        page may be written, an anonymous one may go to swap, a mapped one may be unmapped, and force
        does not ask whether a page is in use. */
    ghost predicate Clear(p: nat)
      reads this`log
    {
      && p !in queued
      && (forall r :: (p, r) in doubts ==>
           r == Dirty || (r == NoIo && sc.gfpIo) || (r == MappedKept && sc.mayUnmap) || ((r == InUse || r == RecentlyUsed) && sc.force))
      && ((p, Dirty) in doubts ==> sc.mayWritepage && sc.gfpFs && p !in log.cleanOnly && (p in file ==> sc.kswapd && sc.zoneDirty))
    }

    lemma JustMeaning(p: nat, r: Reason, cleanOnly: set<nat>)
      requires Just(p, r, cleanOnly)
      ensures p in queued || (p, Question(r)) in doubts
      ensures r in {InUse, NoSwapSpace, UnmapFailed, PageoutActive, Buffers} ==> (p, r) in doubts
    {
    }

    lemma ClearedMeaning(p: nat, log: Log)
      requires Cleared(p, log)
      ensures (p, Busy) !in certain && (p, NotEvictable) !in certain && (p, Buffers) !in certain && (p, StillUsed) !in certain
      ensures !sc.force ==> (p, InUse) !in certain && (p, RecentlyUsed) !in certain
    {
    }

    lemma Consistent(p: nat)
      requires Allowed()
      ensures certain <= doubts && ((p, Dirty) in doubts ==> Just(p, Dirty, log.cleanOnly))
      ensures (p, NoIo) in doubts && !sc.gfpIo ==> Just(p, NoIo, log.cleanOnly)
    {
    }

    lemma NoneCleared(log: Log)
      ensures AllCleared(Range([]) + Range([]), log)
    {
    }

    lemma ClearMeaning(p: nat)
      requires Allowed() && p in log.why && log.why[p] != Dirty
      ensures !Clear(p) && Just(p, log.why[p], log.cleanOnly)
      ensures var r := log.why[p]; Label(r).ActivateLocked? <==> r == InUse || r == NoSwapSpace || r == UnmapFailed || r == PageoutActive || r == Buffers
    {
    }

    /** The page is not freed, for this reason. */
    ghost method Refuse(p: nat, r: Reason)
      requires Allowed() && Just(p, r, log.cleanOnly)
      modifies this`log
      ensures Allowed() && log == old(log).Refuse(p, r) && OnlyAbout(p, old(log), log)
    {
      log := log.Refuse(p, r);
    }

    /** A look at the page: if it does not pass, it is not freed for this reason. */
    method Passes(p: nat, r: Reason) returns (ok: bool)
      requires Allowed() && ((p, r) in doubts ==> Just(p, r, log.cleanOnly))
      modifies this`log
      ensures Allowed() && log == (if ok then old(log) else old(log).Refuse(p, r)) && OnlyAbout(p, old(log), log)
      ensures if ok then (p, r) !in certain else (p, r) in doubts
    {
      var found := Finds(p, r);
      ok := !found;
      if found { Refuse(p, r); }
    }

    /** A look finds only what is there to be found, and whatever is always there. */
    method Finds(p: nat, r: Reason) returns (yes: bool)
      requires certain <= doubts
      ensures ((p, r) in certain ==> yes) && (yes ==> (p, r) in doubts)
    {
      yes := *;
      yes := (p, r) in certain || (yes && (p, r) in doubts);
    }

    /** What must not always be so of a page that has gone, and what must have been done to it. */
    ghost predicate Cleared(p: nat, log: Log) {
      && (p, Busy) !in certain && (p, NotEvictable) !in certain && (p, Buffers) !in certain && (p, StillUsed) !in certain
      && (!sc.force ==> (p, InUse) !in certain && (p, RecentlyUsed) !in certain)
      && ((p, MappedKept) in certain ==> sc.mayUnmap && (p in log.unmapped || (p, NoMapping) in doubts))
      && (p in log.unmapped ==> (p, UnmapFailed) !in certain && (p, UnmapLater) !in certain && (p, Mlocked) !in certain)
      && ((p, NoIo) in certain ==> p in log.swapped) && (p in log.swapped ==> (p, NoSwapSpace) !in certain)
      && ((p, Dirty) in certain ==> p in log.written)
      && (p in log.written ==> (p, PageoutKept) !in certain && (p, PageoutActive) !in certain)
    }

    ghost predicate AllCleared(pages: set<nat>, log: Log) { forall q :: q in pages ==> Cleared(q, log) }

    lemma ClearedStep(pages: set<nat>, log: Log, p: nat, log': Log, pages': set<nat>)
      requires AllCleared(pages, log) && p !in pages && OnlyAbout(p, log, log')
      requires pages' == pages || (pages' == pages + {p} && Cleared(p, log'))
      ensures AllCleared(pages', log')
    {
    }

    /** page_check_references, unless reclaim is forced. */
    method CheckReferences(p: nat) returns (r: References)
      requires Allowed() && Untouched(p, log)
      modifies this`log
      ensures !sc.force && (r.Reclaim? || r.ReclaimClean?) ==> (p, InUse) !in certain && (p, RecentlyUsed) !in certain
      ensures Allowed() && (sc.force ==> r.ReclaimClean?) && OnlyAbout(p, old(log), log)
      ensures (r.Activate? ==> Decided(log, p, ActivateLocked)) && (r.KeepRef? ==> Decided(log, p, KeepLocked))
      ensures log == match r
        case Activate => old(log).Refuse(p, InUse)
        case KeepRef => old(log).Refuse(p, RecentlyUsed)
        case ReclaimClean => old(log).(cleanOnly := old(log).cleanOnly + {p})
        case Reclaim => old(log)
    {
      r := ReclaimClean;
      if !sc.force {
        var inUse := Finds(p, InUse);
        var recentlyUsed := Finds(p, RecentlyUsed);
        var onlyIfClean: bool := *;
        r := if inUse then Activate else if recentlyUsed then KeepRef else if onlyIfClean then ReclaimClean else Reclaim;
      }
      match r {
        case Activate => Refuse(p, InUse);
        case KeepRef => Refuse(p, RecentlyUsed);
        case ReclaimClean => log := log.(cleanOnly := log.cleanOnly + {p});
        case Reclaim =>
      }
    }

    /** add_to_swap */
    method AddToSwap(p: nat) returns (ok: bool)
      requires Allowed() && sc.gfpIo
      modifies this`log
      ensures Allowed() && log == if ok then old(log).(swapped := old(log).swapped + {p}) else old(log).Refuse(p, NoSwapSpace)
      ensures OnlyAbout(p, old(log), log) && (ok ==> (p, NoSwapSpace) !in certain)
    {
      ok := Passes(p, NoSwapSpace);
      if ok { log := log.(swapped := log.swapped + {p}); }
    }

    /** try_to_unmap */
    method TryToUnmap(p: nat) returns (u: Unmapped)
      requires Allowed() && sc.mayUnmap
      modifies this`log
      ensures Allowed() && log == var tried := old(log).(unmapped := old(log).unmapped + {p}); match u
        case SwapFail => tried.Refuse(p, UnmapFailed)
        case SwapAgain => tried.Refuse(p, UnmapLater)
        case SwapMlock => tried.Refuse(p, Mlocked)
        case SwapSuccess => tried
      ensures OnlyAbout(p, old(log), log)
      ensures u.SwapSuccess? ==> (p, UnmapFailed) !in certain && (p, UnmapLater) !in certain && (p, Mlocked) !in certain
    {
      log := log.(unmapped := log.unmapped + {p});
      var failed := Finds(p, UnmapFailed);
      var later := Finds(p, UnmapLater);
      var mlocked := Finds(p, Mlocked);
      u := if failed then SwapFail else if later then SwapAgain else if mlocked then SwapMlock else SwapSuccess;
      match u {
        case SwapFail => Refuse(p, UnmapFailed);
        case SwapAgain => Refuse(p, UnmapLater);
        case SwapMlock => Refuse(p, Mlocked);
        case SwapSuccess =>
      }
    }

    /** __remove_mapping: on success no reference is left. */
    method RemoveMapping(p: nat, hasMapping: bool) returns (ok: bool)
      requires Allowed() && hasMapping
      modifies this`log
      ensures Allowed() && log == if ok then old(log).Ours(p).(detached := old(log).detached + {p}) else old(log).Refuse(p, StillUsed)
      ensures OnlyAbout(p, old(log), log) && (ok ==> (p, StillUsed) !in certain)
    {
      ok := Passes(p, StillUsed);
      if ok { log := log.Ours(p).(detached := log.detached + {p}); }
    }

    /** put_page_testzero on the isolation's reference. */
    method PutPageTestzero(p: nat) returns (zero: bool)
      requires Allowed() && p in held
      modifies this`held, this`log
      ensures Allowed() && held == old(held) - {p} && log == (if zero then old(log).Ours(p) else old(log)) && OnlyAbout(p, old(log), log)
    {
      held := held - {p};
      zero := *;
      if zero { log := log.Ours(p); }
    }

    method TrylockPage(p: nat) returns (ok: bool)
      requires Allowed()
      modifies this`locked, this`log
      ensures Allowed() && locked == (if ok then old(locked) + {p} else old(locked)) && OnlyAbout(p, old(log), log)
      ensures log == (if ok then old(log) else old(log).Refuse(p, Busy)) && (ok ==> (p, Busy) !in certain)
    {
      ok := Passes(p, Busy);
      if ok { locked := locked + {p}; }
    }

    method UnlockPage(p: nat)
      requires p in locked
      modifies this`locked
      ensures locked == old(locked) - {p}
    {
      locked := locked - {p};
    }

    /** Writeback may have ended in the meantime. */
    method PageWriteback(p: nat) returns (yes: bool)
      modifies this`writeback
      ensures yes == (p in writeback) && (yes ==> writeback == old(writeback)) && writeback <= old(writeback)
    {
      var ended: bool := *;
      if ended { writeback := writeback - {p}; }
      yes := p in writeback;
    }

    /** pageout: writepage unlocks the page if it starts the write, and may leave it under writeback; a
        page that is written, or is clean after all, may be freed as far as that goes. */
    method PageOut(p: nat) returns (r: Pageout)
      requires p in locked && Allowed()
      requires !sc.force && sc.mayWritepage && (sc.gfpFs || sc.gfpIo) && (p in file ==> sc.kswapd && sc.zoneDirty) && p !in log.cleanOnly
      modifies this`locked, this`writeback, this`log
      ensures Allowed() && log == var begun := old(log).(written := old(log).written + {p}); match r
        case PageKeep => begun.Refuse(p, PageoutKept)
        case PageActivate => begun.Refuse(p, PageoutActive)
        case _ => begun.(why := begun.why - {p})
      ensures OnlyAbout(p, old(log), log)
      ensures r.PageSuccess? || r.PageClean? ==> (p, PageoutKept) !in certain && (p, PageoutActive) !in certain
      ensures r.PageSuccess? ==> locked == old(locked) - {p} && writeback <= old(writeback) + {p}
      ensures p in writeback ==> p in old(writeback) || (p, WriteGoesOn) in doubts
      ensures !r.PageSuccess? ==> locked == old(locked) && writeback == old(writeback)
    {
      log := log.(written := log.written + {p});
      var kept := Finds(p, PageoutKept);
      var active := Finds(p, PageoutActive);
      var clean: bool := *;
      r := if kept then PageKeep else if active then PageActivate else if clean then PageClean else PageSuccess;
      match r {
        case PageKeep => Refuse(p, PageoutKept);
        case PageActivate => Refuse(p, PageoutActive);
        case PageSuccess =>
          log := log.(why := log.why - {p});
          UnlockPage(p);
          var async := Finds(p, WriteGoesOn);
          if async { writeback := writeback + {p}; }
        case PageClean => log := log.(why := log.why - {p});
      }
    }

    /** page_check_dirty_writeback: swap-backed pages do not count. */
    method CheckDirtyWriteback(p: nat) returns (dirty: bool, writeback: bool)
      ensures p !in file ==> !dirty && !writeback
    {
      dirty, writeback := false, false;
      if p in file { dirty, writeback := *, *; }
    }

    /** The counting before anything is decided. */
    method CountDirty(st: Stats, dirty: bool, writeback: bool, mapping: bool, congested: bool, pageReclaim: bool) returns (now: Stats)
      requires st.Ordered()
      ensures now.Ordered() && now.writeback == st.writeback && now.immediate == st.immediate
      ensures now.dirty == st.dirty + (if dirty || writeback then 1 else 0)
      ensures now.unqueuedDirty == st.unqueuedDirty + (if dirty && !writeback then 1 else 0)
      ensures now.congested == st.congested + (if (mapping && congested && (dirty || writeback)) || (pageReclaim && writeback) then 1 else 0)
    {
      now := st;
      if dirty || writeback {
        now := now.(dirty := now.dirty + 1);
      }
      if dirty && !writeback {
        now := now.(unqueuedDirty := now.unqueuedDirty + 1);
      }
      if ((dirty || writeback) && mapping && congested) || (writeback && pageReclaim) {
        now := now.(congested := now.congested + 1);
      }
    }

    /** What this page adds to the counts. */
    method CountPage(p: nat, st: Stats) returns (now: Stats)
      requires st.Ordered()
      ensures now.Ordered() && now.writeback == st.writeback && now.immediate == st.immediate
      ensures p !in file ==> now == st
    {
      var dirty, writtenBack := CheckDirtyWriteback(p);
      var mapping: bool, congested: bool, pageReclaim: bool := *, *, *;
      now := CountDirty(st, dirty, writtenBack, mapping, congested, pageReclaim);
    }

    /** The three cases of a page under writeback; the third waits and tries again. */
    method OnWriteback(p: nat, mayEnterFs: bool, st: Stats) returns (fate: Fate, now: Stats)
      requires p in locked && p in writeback && p in queued && st.Ordered() && Allowed() && p !in log.why
      requires (mayEnterFs ==> sc.gfpFs || sc.gfpIo) && (sc.gfpFs ==> mayEnterFs)
      modifies this`locked, this`writeback, this`log
      ensures Allowed() && Decided(log, p, fate) && OnlyAbout(p, old(log), log) && log.ours == old(log).ours
      ensures fate.KeepLocked? ==> locked == old(locked) && writeback == old(writeback) && log.why[p].UnderWriteback?
      ensures !fate.KeepLocked? ==> fate.Again? && locked == old(locked) - {p} && writeback == old(writeback) - {p}
      ensures log == old(log).(why := log.why, waited := if fate.Again? then old(log).waited + {p} else old(log).waited)
      ensures now.Ordered() && now.dirty == st.dirty
      ensures now.writeback + now.immediate == st.writeback + st.immediate + if fate.Again? then 0 else 1
      ensures now.immediate != st.immediate ==> sc.kswapd && sc.zoneWriteback
    {
      now := st;
      var pageReclaim: bool := *;
      if sc.kswapd && pageReclaim && sc.zoneWriteback {
        now := now.(immediate := now.immediate + 1);
        Refuse(p, UnderWriteback(pageReclaim));
        return KeepLocked, now;
      } else if sc.saneReclaim || !pageReclaim || !mayEnterFs {
        now := now.(writeback := now.writeback + 1);
        Refuse(p, UnderWriteback(pageReclaim));
        return KeepLocked, now;
      } else {
        UnlockPage(p);
        writeback := writeback - {p};
        log := log.(waited := log.waited + {p});
        return Again, now;
      }
    }

    /** May a dirty page be written here?  If not, the log says why. */
    method MayWrite(p: nat, references: References, mayEnterFs: bool) returns (ok: bool)
      requires Allowed() && p in log.why && log.why[p] == Dirty && (mayEnterFs ==> sc.gfpFs || sc.gfpIo)
      requires (sc.gfpFs || p in log.swapped ==> mayEnterFs) && (sc.force ==> references.ReclaimClean?) && (references.ReclaimClean? <==> p in log.cleanOnly)
      modifies this`log
      ensures Allowed() && OnlyAbout(p, old(log), log) && log == old(log).(why := log.why) && p in log.why
      ensures ok ==> p !in log.cleanOnly
      ensures ok ==> log.why[p] == Dirty && !sc.force && sc.mayWritepage && mayEnterFs && (p in file ==> sc.kswapd && sc.zoneDirty)
      ensures !ok ==> Decided(log, p, KeepLocked) && (log.why[p] == NoFs ==> p !in log.swapped)
    {
      hide OnlyAbout;
      NothingAbout(p, log);
      ok := false;
      if p in file && (!sc.kswapd || !sc.zoneDirty) { Refuse(p, OnlyKswapd); return; }
      if references.ReclaimClean? { Refuse(p, OnlyIfClean); return; }
      if !mayEnterFs { Refuse(p, NoFs); return; }
      if !sc.mayWritepage { Refuse(p, NoWrite); return; }
      ok := true;
    }

    /** After a write that writepage has begun, which may be over already: the page is unlocked. */
    method AfterWrite(p: nat) returns (fate: Fate, goesOn: bool)
      requires p !in locked && p !in log.why && Allowed() && (p in writeback ==> (p, WriteGoesOn) in doubts)
      modifies this`locked, this`writeback, this`log
      ensures Allowed() && OnlyAbout(p, old(log), log) && log == old(log).(why := log.why) && writeback <= old(writeback)
      ensures if goesOn then p !in log.why && p !in writeback else Decided(log, p, fate) && (fate.Keep? || fate.KeepLocked?)
      ensures locked == if goesOn || EndsLocked(fate) then old(locked) + {p} else old(locked)
    {
      hide Reclaimer.Allowed, OnlyAbout;
      goesOn := false;
      var underWriteback := PageWriteback(p);
      if underWriteback { Refuse(p, WriteGoesOn); return Keep, false; }
      var clean := Passes(p, WriteGoesOn);
      if !clean { return Keep, false; }
      var again := TrylockPage(p);
      if !again { return Keep, false; }
      clean := Passes(p, DirtiedAgain);
      underWriteback := PageWriteback(p);
      if !clean || underWriteback { return KeepLocked, false; }
      return Keep, true;
    }

    /** A dirty page: written out if that is allowed; goesOn means that it may be freed now. */
    method OnDirty(p: nat, references: References, mayEnterFs: bool, hasMapping: bool) returns (fate: Fate, goesOn: bool, mapping: bool)
      requires p in locked && p in held && p !in writeback && Allowed() && p in log.why && log.why[p] == Dirty
      requires (mayEnterFs ==> sc.gfpFs || sc.gfpIo) && (sc.gfpFs || p in log.swapped ==> mayEnterFs)
      requires (sc.force ==> references.ReclaimClean?) && (references.ReclaimClean? <==> p in log.cleanOnly) && (hasMapping || (p, NoMapping) in doubts)
      modifies this`locked, this`writeback, this`log
      ensures mapping || (p, NoMapping) in doubts
      ensures Allowed() && log.ours == old(log).ours && OnlyAbout(p, old(log), log) && writeback <= old(writeback) + {p}
      ensures goesOn ==> locked == old(locked) && p !in log.why && p !in writeback
      ensures log.unmapped == old(log).unmapped && log.swapped == old(log).swapped
      ensures goesOn ==> p in log.written && (p, PageoutKept) !in certain && (p, PageoutActive) !in certain
      ensures !goesOn ==> Decided(log, p, fate) && !fate.FreeIt? && !fate.LeaveIt? && !fate.Again?
      ensures !goesOn ==> locked == if EndsLocked(fate) then old(locked) else old(locked) - {p}
    {
      hide Reclaimer.Allowed, OnlyAbout, Reclaimer.Just;
      ghost var log0 := log;
      goesOn, mapping := false, hasMapping;
      var may := MayWrite(p, references, mayEnterFs);
      if !may { return KeepLocked, false, mapping; }
      ghost var log1 := log;
      var r := PageOut(p);
      StillAbout(p, log0, log1, log);
      match r {
        case PageKeep => return KeepLocked, false, mapping;
        case PageActivate => return ActivateLocked, false, mapping;
        case PageSuccess =>
          ghost var log2 := log;
          fate, goesOn := AfterWrite(p);
          StillAbout(p, log0, log2, log);
          if !goesOn { return fate, false, mapping; }
          var unmapped := Finds(p, NoMapping);
          mapping := !unmapped;
        case PageClean =>
      }
      return Keep, true, mapping;
    }

    /** A page with buffers: they must go first; then a page without a mapping goes if nobody else holds it. */
    method ReleaseBuffers(p: nat, hasMapping: bool) returns (fate: Fate, goesOn: bool)
      requires p in locked && p in held && p !in log.why && p !in log.ours && Allowed()
      modifies this`locked, this`held, this`log
      ensures Allowed() && OnlyAbout(p, old(log), log) && log == old(log).(why := log.why, ours := log.ours)
      ensures goesOn || fate.FreeIt? || fate.LeaveIt? ==> (p, Buffers) !in certain
      ensures !goesOn && (fate.FreeIt? || fate.LeaveIt?) ==> (p, StillUsed) !in certain
      ensures goesOn ==> locked == old(locked) && held == old(held) && log.ours == old(log).ours
      ensures goesOn ==> p !in log.why || (log.why[p].StillUsed? && !hasMapping)
      ensures !goesOn ==> Decided(log, p, fate) && ((fate.ActivateLocked? && log.why[p].Buffers?) || ((fate.FreeIt? || fate.LeaveIt?) && !hasMapping))
      ensures !goesOn ==> locked == if EndsLocked(fate) then old(locked) else old(locked) - {p}
      ensures !goesOn ==> held == if EndsLocked(fate) then old(held) else old(held) - {p}
      ensures !goesOn ==> log.ours == if fate.FreeIt? then old(log).ours + {p} else old(log).ours
    {
      hide Reclaimer.Allowed;
      var hasPrivate: bool := *;
      hasPrivate := hasPrivate || (p, Buffers) in certain;
      if hasPrivate {
        var released := Passes(p, Buffers);
        if !released { return ActivateLocked, false; }
        if !hasMapping {
          var onlyUs := Passes(p, StillUsed);
          if onlyUs {
            UnlockPage(p);
            var zero := PutPageTestzero(p);
            if zero { return FreeIt, false; }
            return LeaveIt, false;
          }
        }
      }
      return Keep, true;
    }

    /** try_to_release_page and __remove_mapping: the page goes if it is taken out of its mapping, or has
        none and nobody else holds it; otherwise the log says what kept it. */
    method TryToFree(p: nat, hasMapping: bool) returns (fate: Fate)
      requires p in locked && p in held && p !in log.why && p !in log.ours && Allowed() && (hasMapping || (p, NoMapping) in doubts)
      modifies this`locked, this`held, this`log
      ensures Allowed() && Decided(log, p, fate) && !fate.Again? && OnlyAbout(p, old(log), log)
      ensures log == old(log).(why := log.why, ours := log.ours, detached := log.detached)
      ensures fate.FreeIt? || fate.LeaveIt? ==> (p, Buffers) !in certain && (p, StillUsed) !in certain
      ensures !fate.FreeIt? && !fate.LeaveIt? ==>
        EndsLocked(fate) && (log.why[p].Buffers? || (log.why[p].StillUsed? && hasMapping) || (log.why[p].NoMapping? && !hasMapping))
      ensures locked == if EndsLocked(fate) then old(locked) else old(locked) - {p}
      ensures held == if fate.FreeIt? || fate.LeaveIt? then old(held) - {p} else old(held)
      ensures log.ours == (if fate.FreeIt? then old(log).ours + {p} else old(log).ours)
      ensures (fate.FreeIt? && hasMapping ==> p in log.detached) && (fate.LeaveIt? ==> !hasMapping)
    {
      hide Reclaimer.Allowed, OnlyAbout;
      ghost var log0 := log;
      var goesOn;
      fate, goesOn := ReleaseBuffers(p, hasMapping);
      if !goesOn { return; }
      ghost var log1 := log;
      if !hasMapping {
        Refuse(p, NoMapping);
        StillAbout(p, log0, log1, log);
        return KeepLocked;
      }
      var removed := RemoveMapping(p, hasMapping);
      StillAbout(p, log0, log1, log);
      if !removed { return KeepLocked; }
      held := held - {p};
      UnlockPage(p);
      return FreeIt;
    }

    /** An anonymous page gets swap space, and a mapped page is unmapped; goesOn means that it may be
        written or freed as far as that goes. */
    method SwapAndUnmap(p: nat, mapped: bool, fsAllowed: bool) returns (fate: Fate, goesOn: bool, mayEnterFs: bool, hasMapping: bool)
      requires p !in log.why && p !in log.swapped && p !in log.unmapped && Allowed() && (fsAllowed ==> sc.gfpFs || sc.gfpIo) && (sc.gfpFs ==> fsAllowed) && (mapped ==> sc.mayUnmap)
      modifies this`log
      ensures Allowed() && log.ours == old(log).ours && OnlyAbout(p, old(log), log) && old(log).cleanOnly == log.cleanOnly && old(log).written == log.written
      ensures goesOn ==> ((p, NoIo) in certain ==> p in log.swapped) && (p in log.swapped ==> (p, NoSwapSpace) !in certain)
      ensures goesOn && (p, MappedKept) in certain && mapped ==> p in log.unmapped || (p, NoMapping) in doubts
      ensures goesOn && p in log.unmapped ==> (p, UnmapFailed) !in certain && (p, UnmapLater) !in certain && (p, Mlocked) !in certain
      ensures if goesOn then p !in log.why else Decided(log, p, fate) && EndsLocked(fate)
      ensures (mayEnterFs ==> sc.gfpFs || sc.gfpIo) && (sc.gfpFs || p in log.swapped ==> mayEnterFs) && (p in log.swapped && goesOn ==> hasMapping)
      ensures hasMapping || (p, NoMapping) in doubts
    {
      hide Reclaimer.Allowed, OnlyAbout, Reclaimer.Just;
      Consistent(p);
      ghost var log0 := log;
      NothingAbout(p, log);
      goesOn, mayEnterFs := false, fsAllowed;
      var noMapping := Finds(p, NoMapping);
      hasMapping := !noMapping;
      var anonUnswapped := Finds(p, NoIo);
      if anonUnswapped {
        if !sc.gfpIo { Refuse(p, NoIo); fate := KeepLocked; return; }
        var added := AddToSwap(p);
        if !added { fate := ActivateLocked; return; }
        mayEnterFs := true;
        hasMapping := true;
      }
      var stillMapped := Finds(p, MappedKept);
      if mapped && stillMapped && hasMapping {
        ghost var log1 := log;
        var u := TryToUnmap(p);
        StillAbout(p, log0, log1, log);
        match u {
          case SwapFail => fate := ActivateLocked; return;
          case SwapAgain => fate := KeepLocked; return;
          case SwapMlock => fate := CullMlocked; return;
          case SwapSuccess =>
        }
      }
      fate, goesOn := Keep, true;
    }

    /** A page that is no longer mapped: it is cleaned if need be, and then freed. */
    method Finish(p: nat, references: References, mayEnterFs: bool, mayHaveMapping: bool) returns (fate: Fate)
      requires p in locked && p in held && p !in writeback && p !in log.why && p !in log.ours && p !in log.written && Allowed()
      requires (mayEnterFs ==> sc.gfpFs || sc.gfpIo) && (sc.gfpFs || p in log.swapped ==> mayEnterFs) && (mayHaveMapping || (p, NoMapping) in doubts)
      requires (sc.force ==> references.ReclaimClean?) && (references.ReclaimClean? <==> p in log.cleanOnly)
      modifies this`locked, this`held, this`writeback, this`log
      ensures Allowed() && Decided(log, p, fate) && !fate.Again? && OnlyAbout(p, old(log), log) && writeback <= old(writeback) + {p}
      ensures log.ours == if fate.FreeIt? then old(log).ours + {p} else old(log).ours
      ensures log.unmapped == old(log).unmapped && log.swapped == old(log).swapped
      ensures fate.FreeIt? || fate.LeaveIt? ==> p !in writeback && (p, Buffers) !in certain && (p, StillUsed) !in certain
      ensures fate.FreeIt? || fate.LeaveIt? ==>
        if p in log.written then (p, PageoutKept) !in certain && (p, PageoutActive) !in certain else (p, Dirty) !in certain
      ensures locked == if EndsLocked(fate) then old(locked) else old(locked) - {p}
      ensures held == if fate.FreeIt? || fate.LeaveIt? then old(held) - {p} else old(held)
    {
      hide Reclaimer.Allowed, OnlyAbout, Label, Decided, Reclaimer.Just;
      ghost var log0 := log;
      var hasMapping := mayHaveMapping;
      Consistent(p);
      var clean := Passes(p, Dirty);
      if !clean {
        ghost var log1 := log;
        var goesOn;
        fate, goesOn, hasMapping := OnDirty(p, references, mayEnterFs, hasMapping);
        StillAbout(p, log0, log1, log);
        if !goesOn { return; }
      }
      ghost var log2 := log;
      fate := TryToFree(p, hasMapping);
      StillAbout(p, log0, log2, log);
    }

    /** From page_check_references to the end of the loop body. */
    method Judge(p: nat, mapped: bool, fsAllowed: bool) returns (fate: Fate)
      requires p in locked && p in held && p !in writeback && Untouched(p, log) && (p, Busy) !in certain && (p, NotEvictable) !in certain
      requires ((p, MappedKept) in certain ==> mapped) && Allowed() && (fsAllowed ==> sc.gfpFs || sc.gfpIo) && (sc.gfpFs ==> fsAllowed) && (mapped ==> sc.mayUnmap)
      modifies this`locked, this`held, this`writeback, this`log
      ensures Allowed() && Decided(log, p, fate) && !fate.Again? && OnlyAbout(p, old(log), log) && writeback <= old(writeback) + {p}
      ensures log.ours == if fate.FreeIt? then old(log).ours + {p} else old(log).ours
      ensures fate.FreeIt? || fate.LeaveIt? ==> p !in writeback && Cleared(p, log)
      ensures locked == if EndsLocked(fate) then old(locked) else old(locked) - {p}
      ensures held == if fate.FreeIt? || fate.LeaveIt? then old(held) - {p} else old(held)
    {
      hide Reclaimer.Allowed, OnlyAbout, Label, Reclaimer.Just;
      ghost var log0 := log;
      var references := CheckReferences(p);
      if references.Activate? { return ActivateLocked; }
      if references.KeepRef? { return KeepLocked; }
      ghost var log1 := log;
      var goesOn, mayEnterFs, hasMapping;
      fate, goesOn, mayEnterFs, hasMapping := SwapAndUnmap(p, mapped, fsAllowed);
      StillAbout(p, log0, log1, log);
      if !goesOn { return; }
      ghost var log2 := log;
      fate := Finish(p, references, mayEnterFs, hasMapping);
      StillAbout(p, log0, log2, log);
    }

    /** The counting, the wait for writeback, and all that follows. */
    method Weigh(p: nat, mapped: bool, mayEnterFs: bool, st: Stats) returns (fate: Fate, now: Stats)
      requires p in locked && p in held && st.Ordered() && Untouched(p, log) && Allowed()
      requires (p, Busy) !in certain && (p, NotEvictable) !in certain && ((p, MappedKept) in certain ==> mapped)
      requires (p in writeback ==> p in queued) && (mayEnterFs ==> sc.gfpFs || sc.gfpIo) && (sc.gfpFs ==> mayEnterFs) && (mapped ==> sc.mayUnmap)
      modifies this`locked, this`held, this`writeback, this`log
      ensures locked == if EndsLocked(fate) then old(locked) else old(locked) - {p}
      ensures held == if fate.FreeIt? || fate.LeaveIt? then old(held) - {p} else old(held)
      ensures now.Ordered() && writeback <= old(writeback) + {p} && Allowed()
      ensures Decided(log, p, fate) && OnlyAbout(p, old(log), log)
      ensures log.ours == if fate.FreeIt? then old(log).ours + {p} else old(log).ours
      ensures fate.FreeIt? || fate.LeaveIt? ==> p !in writeback && Cleared(p, log)
      ensures p !in file ==> now.dirty == st.dirty
      ensures now.writeback + now.immediate <= st.writeback + st.immediate + if fate.KeepLocked? then 1 else 0
      ensures now.immediate != st.immediate ==> sc.kswapd && sc.zoneWriteback
      ensures fate.Again? ==> p in old(writeback) && writeback == old(writeback) - {p} && Untouched(p, log)
    {
      hide Stats.Ordered, Reclaimer.Allowed, OnlyAbout, Reclaimer.Just, Reclaimer.Cleared;
      now := CountPage(p, st);
      var underWriteback := PageWriteback(p);
      if underWriteback {
        fate, now := OnWriteback(p, mayEnterFs, now);
        return;
      }
      fate := Judge(p, mapped, mayEnterFs);
    }

    /** One page, taken off the list: where does it end? */
    method Consider(p: nat, st: Stats) returns (fate: Fate, now: Stats)
      requires p !in locked && p in held && st.Ordered() && Untouched(p, log) && Allowed()
      requires p in writeback ==> p in queued
      modifies this`locked, this`held, this`writeback, this`scanned, this`log
      ensures locked == if EndsLocked(fate) then old(locked) + {p} else old(locked)
      ensures held == if fate.FreeIt? || fate.LeaveIt? then old(held) - {p} else old(held)
      ensures now.Ordered() && writeback <= old(writeback) + {p} && Allowed()
      ensures Decided(log, p, fate) && OnlyAbout(p, old(log), log)
      ensures log.ours == if fate.FreeIt? then old(log).ours + {p} else old(log).ours
      ensures fate.FreeIt? || fate.LeaveIt? ==> p !in writeback && Cleared(p, log)
      ensures old(scanned) <= scanned <= old(scanned) + 2 && (!fate.Keep? ==> old(scanned) < scanned)
      ensures p !in file ==> now.dirty == st.dirty
      ensures now.writeback + now.immediate <= st.writeback + st.immediate + if fate.KeepLocked? then 1 else 0
      ensures now.immediate != st.immediate ==> sc.kswapd && sc.zoneWriteback
      ensures fate.Again? ==> p in old(writeback) && writeback == old(writeback) - {p} && Untouched(p, log)
    {
      hide Stats.Ordered, Reclaimer.Allowed, OnlyAbout, Reclaimer.Cleared;
      Consistent(p);
      now := st;
      var got := TrylockPage(p);
      if !got { return Keep, now; }
      scanned := scanned + 1;
      var evictable := Passes(p, NotEvictable);
      if !evictable { return CullMlocked, now; }
      var mapped := Finds(p, MappedKept);
      if !sc.mayUnmap && mapped { Refuse(p, MappedKept); return KeepLocked, now; }
      var swapCache: bool := *;
      if mapped || swapCache { scanned := scanned + 1; }
      var mayEnterFs := sc.gfpFs || (swapCache && sc.gfpIo);
      fate, now := Weigh(p, mapped, mayEnterFs, st);
    }

    /** The labels at the end of the loop body. */
    method PutAway(p: nat, fate: Fate, ret: seq<nat>, freePages: seq<nat>, activated: nat, reclaimed: nat, ghost b: Account)
      returns (ret': seq<nat>, freePages': seq<nat>, activated': nat, reclaimed': nat)
      requires (EndsLocked(fate) ==> p in locked) && !fate.Again? && b.list == list + [p]
      requires b == Account(b.list, ret, freePages, left, b.held, active, activated) && held == Settled(b, p, fate).held
      modifies this`locked, this`active, this`left
      ensures locked == if EndsLocked(fate) then old(locked) - {p} else old(locked)
      ensures Account(list, ret', freePages', left, held, active, activated') == Settled(b, p, fate)
      ensures reclaimed' == reclaimed + if fate.FreeIt? || fate.LeaveIt? then 1 else 0
    {
      ret', freePages', activated', reclaimed' := ret, freePages, activated, reclaimed;
      if fate.FreeIt? {
        reclaimed' := reclaimed' + 1;
        freePages' := [p] + freePages';
        return;
      }
      if fate.LeaveIt? {
        reclaimed' := reclaimed' + 1;
        left := left + [p];
        return;
      }
      if fate.ActivateLocked? {
        active := active + {p};
        activated' := activated' + 1;
      }
      if EndsLocked(fate) { UnlockPage(p); }
      ret' := [p] + ret';
    }

    /** What the counts mean to the caller: only pages of files are counted as dirty, each page that is
        counted as under writeback comes back, and the immediate ones ask kswapd to stall. */
    ghost predicate Reported(st: Stats, ret: seq<nat>, was: seq<nat>) {
      && (Range(was) !! file ==> st.dirty == 0)
      && st.writeback + st.immediate <= |ret|
      && (0 < st.immediate ==> sc.kswapd && sc.zoneWriteback)
    }

    lemma NothingReported(was: seq<nat>)
      ensures NO_STATS.Ordered() && Reported(NO_STATS, [], was)
    {
    }

    lemma ReportedStep(st: Stats, ret: seq<nat>, st': Stats, ret': seq<nat>, was: seq<nat>, p: nat, fate: Fate)
      requires Reported(st, ret, was) && p in Range(was) && (p !in file ==> st'.dirty == st.dirty)
      requires st'.writeback + st'.immediate <= st.writeback + st.immediate + if fate.KeepLocked? then 1 else 0
      requires |ret| + (if fate.KeepLocked? then 1 else 0) <= |ret'|
      requires st'.immediate != st.immediate ==> sc.kswapd && sc.zoneWriteback
      ensures Reported(st', ret', was)
    {
    }

    /** One turn of the loop: the page leaves the list, or its writeback ends and it stays. */
    method Turn(st: Stats, ret: seq<nat>, freePages: seq<nat>, activated: nat, reclaimed: nat,
                ghost was: seq<nat>, ghost wasHeld: set<nat>, ghost wasActive: set<nat>)
      returns (st': Stats, ret': seq<nat>, freePages': seq<nat>, activated': nat, reclaimed': nat)
      requires Distinct(was) && Sound(was, wasHeld, wasActive, Account(list, ret, freePages, left, held, active, activated), log, writeback, queued)
      requires list != [] && locked == {} && st.Ordered() && reclaimed == |freePages| + |left| && Allowed() && Reported(st, ret, was)
      requires AllCleared(Range(freePages) + Range(left), log)
      modifies this`list, this`locked, this`held, this`writeback, this`active, this`left, this`scanned, this`log
      ensures Sound(was, wasHeld, wasActive, Account(list, ret', freePages', left, held, active, activated'), log, writeback, queued)
      ensures locked == {} && st'.Ordered() && reclaimed' == |freePages'| + |left| && Allowed() && Reported(st', ret', was)
      ensures AllCleared(Range(freePages') + Range(left), log)
      ensures var before, after := Waiting(old(list), old(writeback)), Waiting(list, writeback);
        |list| <= |old(list)| && after <= before && (after < before || |list| < |old(list)|)
      ensures reclaimed' - reclaimed <= scanned - old(scanned) <= 2
    {
      hide Sound, Settled, Range, Distinct, Waiting, OnlyAbout, Decided, Untouched, Reclaimer.Allowed, Reclaimer.Reported, Stats.Ordered;
      hide Reclaimer.Cleared, Reclaimer.AllCleared;
      ghost var b := Account(list, ret, freePages, left, held, active, activated);
      ghost var log0, writeback0 := log, writeback;
      SoundLast(was, wasHeld, wasActive, b, log, writeback, queued);
      var p := list[|list| - 1];
      list := list[..|list| - 1];
      var fate;
      fate, st' := Consider(p, st);
      SoundStep(was, wasHeld, wasActive, b, log0, writeback0, queued, p, fate, log, writeback);
      WritebackShrinks(was, b.list, old(writeback), writeback);
      SettledSizes(b, p, fate);
      SoundRanges(was, wasHeld, wasActive, b, log0, writeback0, queued, p, fate);
      ClearedStep(Range(freePages) + Range(left), log0, p, log, Range(Settled(b, p, fate).freed) + Range(Settled(b, p, fate).left));
      if fate.Again? {
        ret', freePages', activated', reclaimed' := ret, freePages, activated, reclaimed;
        list := list + [p];
        assert list == b.list;
      } else {
        ret', freePages', activated', reclaimed' := PutAway(p, fate, ret, freePages, activated, reclaimed, b);
      }
      ReportedStep(st, ret, st', ret', was, p, fate);
    }

    /** Every page of the list is freed, put back on it, or left to a speculative reference, and the
        result counts the first and the last kind; what is put back is unlocked and still referenced.
        A page under writeback may be put at the tail again, which happens at most once per writeback. */
    method ShrinkPageList() returns (reclaimed: nat, activated: nat, ghost counted: Stats)
      requires Distinct(list) && Range(list) <= held && Range(list) !! active && locked == {} && freed == [] && left == []
      requires log == NOTHING_DONE && writeback <= queued && certain <= doubts
      modifies this
      ensures Range(old(list)) == Range(list) + Range(freed) + Range(left) && Range(list) !! Range(freed) !! Range(left) && Distinct(list)
      ensures |old(list)| == |list| + |freed| + |left| && reclaimed == |freed| + |left|
      ensures locked == {} && held == old(held) - Range(freed) - Range(left)
      ensures old(active) <= active && active - old(active) <= Range(list) && activated == |active - old(active)|
      ensures reclaimed <= scanned - old(scanned) <= 2 * (|old(list)| + Waiting(old(list), old(writeback)))
      ensures stats == old(stats).Plus(counted) && counted.Ordered() && Reported(counted, list, old(list)) && Allowed()
      ensures Tested({}, Range(list), Range(freed), Range(left), active, log, writeback)
      ensures forall p :: p in Range(freed) + Range(left) ==> Cleared(p, log)
      ensures forall p :: p in Range(list) ==> p in log.why && Just(p, log.why[p], log.cleanOnly) && !Clear(p)
      ensures forall p :: p in Range(list) ==> (p in active <==> log.why[p] in {InUse, NoSwapSpace, UnmapFailed, PageoutActive, Buffers})
    {
      hide Distinct, Range, Sound, Waiting, Stats.Ordered, Reclaimer.Reported, Reclaimer.Just, Reclaimer.Clear, Reclaimer.Cleared, Label;
      var ret: seq<nat>, freePages: seq<nat>, st := [], [], NO_STATS;
      reclaimed, activated := 0, 0;
      ghost var was := list;
      SoundAtFirst(was, held, active, writeback, queued);
      NothingReported(was);
      NoneCleared(log);
      while list != []
        invariant Sound(was, old(held), old(active), Account(list, ret, freePages, left, held, active, activated), log, writeback, queued)
        invariant locked == {} && freed == [] && st.Ordered() && reclaimed == |freePages| + |left| && stats == old(stats)
        invariant AllCleared(Range(freePages) + Range(left), log)
        invariant Allowed() && Reported(st, ret, was) && reclaimed <= scanned - old(scanned)
        invariant scanned - old(scanned) + 2 * (|list| + Waiting(list, writeback)) <= 2 * (|was| + Waiting(was, old(writeback)))
        decreases Waiting(list, writeback), |list|
      {
        st, ret, freePages, activated, reclaimed := Turn(st, ret, freePages, activated, reclaimed, was, old(held), old(active));
      }
      SoundAtLast(was, old(held), old(active), Account([], ret, freePages, left, held, active, activated), log, writeback, queued);
      freed := freePages;
      list := ret + list;
      assert list == ret;
      counted := st;
      stats := stats.Plus(st);
      forall p | p in Range(list)
        ensures p in log.why && Just(p, log.why[p], log.cleanOnly) && !Clear(p)
        ensures p in active <==> log.why[p] in {InUse, NoSwapSpace, UnmapFailed, PageoutActive, Buffers}
      {
        ClearMeaning(p);
      }
    }
  }

  lemma SoundAtLast(was: seq<nat>, h: set<nat>, a: set<nat>, b: Account, log: Log, writeback: set<nat>, queued: set<nat>)
    requires Distinct(was) && Sound(was, h, a, b, log, writeback, queued) && b.list == []
    ensures Tested({}, Range(b.ret), Range(b.freed), Range(b.left), b.active, log, writeback)
    ensures Range(was) == Range(b.ret) + Range(b.freed) + Range(b.left) && Range(b.ret) !! Range(b.freed) !! Range(b.left)
    ensures |was| == |b.ret| + |b.freed| + |b.left| && Distinct(b.ret)
    ensures b.held == h - Range(b.freed) - Range(b.left)
    ensures a <= b.active && b.active - a <= Range(b.ret) && b.activated == |b.active - a|
  {
    SplitMeaning(was, b.ret, b.freed, b.left);
  }

  lemma ListsApart(was: seq<nat>, h: set<nat>, a: set<nat>, b: Account)
    requires Distinct(was) && Kept(was, h, a, b)
    ensures Range(b.list) !! Range(b.ret) !! Range(b.freed) !! Range(b.left)
  {
    forall p
      ensures !(p in b.list && (p in b.ret || p in b.freed || p in b.left)) && !(p in b.ret && (p in b.freed || p in b.left)) && !(p in b.freed && p in b.left)
    {
      DistinctOnce(was, p);
      assert multiset(was)[p] == multiset(b.list)[p] + multiset(b.ret)[p] + multiset(b.freed)[p] + multiset(b.left)[p];
    }
  }

  lemma LastInRange(s: seq<nat>)
    requires s != []
    ensures s[|s| - 1] in Range(s)
  {
  }

  lemma SettledRanges(was: seq<nat>, b: Account, p: nat, f: Fate)
    requires Distinct(was) && 0 < |b.list| <= |was| && b.list == was[..|b.list|] && p == b.list[|b.list| - 1]
    ensures var s := Settled(b, p, f);
      && Range(s.list) == (if f.Again? then Range(b.list) else Range(b.list) - {p})
      && Range(s.ret) == (if f.FreeIt? || f.LeaveIt? || f.Again? then Range(b.ret) else Range(b.ret) + {p})
      && s.active == (if f.ActivateLocked? then b.active + {p} else b.active)
      && Range(s.freed) == (if f.FreeIt? then Range(b.freed) + {p} else Range(b.freed))
      && Range(s.left) == (if f.LeaveIt? then Range(b.left) + {p} else Range(b.left))
  {
    LastIsAlone(was, b.list);
  }

  lemma LastHeld(was: seq<nat>, h: set<nat>, a: set<nat>, b: Account)
    requires Kept(was, h, a, b) && b.list != []
    ensures b.list[|b.list| - 1] in b.held && b.list[|b.list| - 1] !in b.active
    ensures |b.list| <= |was| && b.list == was[..|b.list|] && b.list[|b.list| - 1] in Range(was)
  {
  }

  lemma SoundAtFirst(was: seq<nat>, h: set<nat>, a: set<nat>, writeback: set<nat>, queued: set<nat>)
    requires Range(was) <= h && Range(was) !! a && writeback <= queued
    ensures Sound(was, h, a, Account(was, [], [], [], h, a, 0), NOTHING_DONE, writeback, queued)
  {
    assert a - a == {};
  }

  lemma SettledSizes(b: Account, p: nat, f: Fate)
    requires b.list != []
    ensures var s := Settled(b, p, f);
      && |s.freed| + |s.left| == |b.freed| + |b.left| + (if f.FreeIt? || f.LeaveIt? then 1 else 0)
      && s.held == (if f.FreeIt? || f.LeaveIt? then b.held - {p} else b.held)
      && (f.Again? ==> s == b)
      && |b.ret| + (if f.KeepLocked? then 1 else 0) <= |s.ret|
  {
  }

  lemma LastIsAlone(was: seq<nat>, list: seq<nat>)
    requires Distinct(was) && 0 < |list| <= |was| && list == was[..|list|]
    ensures list[|list| - 1] !in list[..|list| - 1]
  {
  }

  lemma SmallerSet(s: set<nat>, t: set<nat>, p: nat)
    requires s <= t && p in t && p !in s
    ensures |s| < |t|
  {
    assert t == (t - {p}) + {p} && s <= t - {p};
    SubsetSize(s, t - {p});
  }

  lemma SubsetSize(s: set<nat>, t: set<nat>)
    requires s <= t
    ensures |s| <= |t|
  {
    assert t == s + (t - s);
  }

  /** Taking the last page off, or ending its writeback, brings the loop nearer to its end. */
  lemma WritebackShrinks(was: seq<nat>, list: seq<nat>, before: set<nat>, after: set<nat>)
    requires Distinct(was) && 0 < |list| <= |was| && list == was[..|list|] && after <= before + {list[|list| - 1]}
    ensures Waiting(list[..|list| - 1], after) <= Waiting(list, before)
    ensures list[|list| - 1] in before && after == before - {list[|list| - 1]} ==> Waiting(list, after) < Waiting(list, before)
  {
    var p, rest := list[|list| - 1], list[..|list| - 1];
    LastIsAlone(was, list);
    SubsetSize(Range(rest) * after, Range(list) * before);
    if p in before && after == before - {p} {
      SmallerSet(Range(list) * after, Range(list) * before, p);
    }
  }
}
