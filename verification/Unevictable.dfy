/** putback_lru_page beside the two ways to make a page evictable again: SHM_UNLOCK with
    check_move_unevictable_pages, and munlock.  Steps are sequentially consistent; what is done under
    zone->lru_lock is one step. */
module Unevictable {

  /** What a thread does next. */
  datatype Thread =
    | ToLock | ToMlock        // shmem_lock, mlock: makes the page unevictable
    | ToUnlock                // shmem_unlock: clears the mapping's mark ...
    | ToCheck                 // ... and then calls check_move_unevictable_pages
    | ToMunlock               // TestClearPageMlocked, and then isolates the page
    | Waiting                 // wants to isolate the page for some other reason
    | Clear | Test            // putback_lru_page, from redo
    | AddGood | AddBad        // evictable or not: onto which list
    | Retest | Retake         // looks again after adding; isolates again
    | Done

  /** The isolated page belongs to one thread. */
  datatype Place = Isolated(holder: nat) | Evictable | Unevictable

  /** The code, and the two ways to get the order wrong. */
  datatype Variant = Code | NoRetest | CheckFirst

  datatype State = State(
    variant: Variant,
    mappingMarked: bool, mlocked: bool,   // mapping_unevictable, PageMlocked
    flag: bool,                           // PageUnevictable
    place: Place,                         // PageLRU and the list
    threads: seq<Thread>)

  /** page_evictable */
  predicate PageEvictable(s: State) { !s.mappingMarked && !s.mlocked }

  predicate Holds(t: Thread) { t.Clear? || t.Test? || t.AddGood? || t.AddBad? }

  predicate Enabled(s: State, i: nat) { i < |s.threads| && !s.threads[i].Done? }

  function Goes(s: State, i: nat, t: Thread): State
    requires i < |s.threads|
  { s.(threads := s.threads[i := t]) }

  /** isolate_lru_page, and then putback_lru_page; or nothing, if the page is on no list. */
  function Isolate(s: State, i: nat): State
    requires i < |s.threads|
  { if s.place.Isolated? then Goes(s, i, Done) else Goes(s, i, Clear).(place := Isolated(i)) }

  /** check_move_unevictable_pages for this page. */
  function CheckMove(s: State): State {
    if !s.place.Isolated? && s.flag && PageEvictable(s) then s.(flag := false, place := Evictable) else s
  }

  function Next(s: State, i: nat): State
    requires Enabled(s, i)
  {
    match s.threads[i]
    case ToLock => Goes(s, i, Done).(mappingMarked := true)
    case ToMlock => Goes(s, i, Done).(mlocked := true)
    case ToUnlock =>
      if s.variant.CheckFirst? then Goes(CheckMove(s), i, Done).(mappingMarked := false)
      else Goes(s, i, ToCheck).(mappingMarked := false)
    case ToCheck => Goes(CheckMove(s), i, Done)
    case ToMunlock => Goes(s, i, Retake).(mlocked := false)
    case Waiting => Isolate(s, i)
    case Clear => Goes(s, i, Test).(flag := false)
    case Test => Goes(s, i, if PageEvictable(s) then AddGood else AddBad)
    case AddGood => Goes(s, i, Done).(place := Evictable)
    case AddBad => Goes(s, i, if s.variant.NoRetest? then Done else Retest).(place := Unevictable, flag := true)
    case Retest => Goes(s, i, if PageEvictable(s) then Retake else Done)
    case Retake => Isolate(s, i)
  }

  /** A thread that will look at the page again. */
  predicate Pending(t: Thread) { t.Retest? || t.Retake? || t.ToCheck? }

  /** The isolated page has one holder, and the flag names the list. */
  ghost predicate Held(s: State) {
    && s.variant.Code?
    && (s.place.Isolated? ==> s.place.holder < |s.threads|)
    && (forall i :: 0 <= i < |s.threads| ==> (Holds(s.threads[i]) <==> s.place == Isolated(i)))
    && (forall i :: 0 <= i < |s.threads| && (s.threads[i].Test? || s.threads[i].AddGood? || s.threads[i].AddBad?) ==> !s.flag)
    && (!s.place.Isolated? ==> (s.flag <==> s.place.Unevictable?))
  }

  predicate Stranded(s: State) { s.place.Unevictable? && PageEvictable(s) }

  /** An evictable page on the unevictable list is still on somebody's way. */
  ghost predicate Watched(s: State) { Stranded(s) ==> exists i :: 0 <= i < |s.threads| && Pending(s.threads[i]) }

  ghost predicate Inv(s: State) { Held(s) && Watched(s) }

  lemma HeldByHolder(s: State, i: nat)
    requires Held(s) && Enabled(s, i) && Holds(s.threads[i])
    ensures Held(Next(s, i))
  {
    assert s.place == Isolated(i);
    assert forall j :: 0 <= j < |s.threads| && j != i ==> Next(s, i).threads[j] == s.threads[j];
  }

  lemma HeldByTaker(s: State, i: nat)
    requires Held(s) && Enabled(s, i) && (s.threads[i].Waiting? || s.threads[i].Retake?)
    ensures Held(Next(s, i))
  {
    assert s.place != Isolated(i);
    assert forall j :: 0 <= j < |s.threads| && j != i ==> Next(s, i).threads[j] == s.threads[j];
  }

  lemma HeldByChecker(s: State, i: nat)
    requires Held(s) && Enabled(s, i) && s.threads[i].ToCheck?
    ensures Held(Next(s, i))
  {
    assert s.place != Isolated(i);
    assert forall j :: 0 <= j < |s.threads| && j != i ==> Next(s, i).threads[j] == s.threads[j];
  }

  lemma HeldByOther(s: State, i: nat)
    requires Held(s) && Enabled(s, i) && !Holds(s.threads[i]) && !s.threads[i].Waiting? && !s.threads[i].Retake? && !s.threads[i].ToCheck?
    ensures Held(Next(s, i))
  {
    var s' := Next(s, i);
    assert s.place != Isolated(i) && s'.place == s.place && s'.flag == s.flag && |s'.threads| == |s.threads|;
    assert !Holds(s'.threads[i]) && forall j :: 0 <= j < |s.threads| && j != i ==> s'.threads[j] == s.threads[j];
    hide Next, Isolate, CheckMove;
  }

  lemma HeldNext(s: State, i: nat)
    requires Held(s) && Enabled(s, i)
    ensures Held(Next(s, i))
  {
    hide Held, Next;
    if Holds(s.threads[i]) {
      HeldByHolder(s, i);
    } else if s.threads[i].Waiting? || s.threads[i].Retake? {
      HeldByTaker(s, i);
    } else if s.threads[i].ToCheck? {
      HeldByChecker(s, i);
    } else {
      HeldByOther(s, i);
    }
  }

  lemma WatchedNext(s: State, i: nat)
    requires Held(s) && Watched(s) && Enabled(s, i)
    ensures Watched(Next(s, i))
  {
    var s' := Next(s, i);
    if Stranded(s) && Stranded(s') {
      var j :| 0 <= j < |s.threads| && Pending(s.threads[j]);
      if j != i { assert Pending(s'.threads[j]); } else { assert Pending(s'.threads[i]); }
    } else if Stranded(s') {
      assert Pending(s'.threads[i]);
    }
  }

  lemma InvNext(s: State, i: nat)
    requires Inv(s) && Enabled(s, i)
    ensures Inv(Next(s, i))
  {
    hide Held, Watched, Next;
    HeldNext(s, i);
    WatchedNext(s, i);
  }

  ghost predicate IsRun(states: seq<State>, acts: seq<nat>) {
    && |states| == |acts| + 1
    && (forall k :: 0 <= k < |acts| ==> Enabled(states[k], acts[k]) && states[k + 1] == Next(states[k], acts[k]))
  }

  /** Any mix of threads, and a page that one of them has isolated or that is where it belongs. */
  ghost predicate Start(s: State, v: Variant) {
    && s.variant == v
    && (s.place.Isolated? ==> s.place.holder < |s.threads|)
    && (forall i :: 0 <= i < |s.threads| ==> (s.threads[i].Clear? <==> s.place == Isolated(i)))
    && (forall i :: 0 <= i < |s.threads| ==> !s.threads[i].Test? && !s.threads[i].AddGood? && !s.threads[i].AddBad? && !Pending(s.threads[i]))
    && (!s.place.Isolated? ==> (s.flag <==> s.place.Unevictable?))
    && !(s.place.Unevictable? && PageEvictable(s))
  }

  lemma {:induction false} InvAlways(states: seq<State>, acts: seq<nat>, n: nat)
    requires IsRun(states, acts) && n <= |acts| && Start(states[0], Code)
    ensures Inv(states[n])
  {
    if n > 0 {
      InvAlways(states, acts, n - 1);
      InvNext(states[n - 1], acts[n - 1]);
    }
  }

  /** In every interleaving, when all threads are done, the page is on a list, and if it is evictable
      it is not on the unevictable one. */
  lemma NeverStranded(states: seq<State>, acts: seq<nat>, n: nat)
    requires IsRun(states, acts) && n <= |acts| && Start(states[0], Code)
    requires forall i :: 0 <= i < |states[n].threads| ==> states[n].threads[i].Done?
    ensures !states[n].place.Isolated? && (PageEvictable(states[n]) ==> states[n].place.Evictable?)
  {
    InvAlways(states, acts, n);
  }

  /** Nobody marks the page again, and whatever marks it is about to be cleared. */
  ghost predicate Unlocking(s: State) {
    && (forall i :: 0 <= i < |s.threads| ==> !s.threads[i].ToLock? && !s.threads[i].ToMlock?)
    && (s.mappingMarked ==> exists i :: 0 <= i < |s.threads| && s.threads[i].ToUnlock?)
    && (s.mlocked ==> exists i :: 0 <= i < |s.threads| && s.threads[i].ToMunlock?)
  }

  /** What a step can do to the marks. */
  lemma MarksNext(s: State, i: nat)
    requires Enabled(s, i)
    ensures var t, s' := s.threads[i], Next(s, i);
      && s'.mappingMarked == (if t.ToLock? then true else if t.ToUnlock? then false else s.mappingMarked)
      && s'.mlocked == (if t.ToMlock? then true else if t.ToMunlock? then false else s.mlocked)
      && |s'.threads| == |s.threads| && s'.threads == s.threads[i := s'.threads[i]]
      && !s'.threads[i].ToLock? && !s'.threads[i].ToMlock?
  {
  }

  lemma UnlockingNext(s: State, i: nat)
    requires Unlocking(s) && Enabled(s, i)
    ensures Unlocking(Next(s, i))
  {
    hide Next;
    MarksNext(s, i);
    var s' := Next(s, i);
    if s'.mappingMarked {
      var j :| 0 <= j < |s.threads| && s.threads[j].ToUnlock?;
      assert s'.threads[j].ToUnlock?;
    }
    if s'.mlocked {
      var j :| 0 <= j < |s.threads| && s.threads[j].ToMunlock?;
      assert s'.threads[j].ToMunlock?;
    }
  }

  lemma {:induction false} UnlockingAlways(states: seq<State>, acts: seq<nat>, n: nat)
    requires IsRun(states, acts) && n <= |acts| && Unlocking(states[0])
    ensures Unlocking(states[n])
  {
    if n > 0 {
      UnlockingAlways(states, acts, n - 1);
      UnlockingNext(states[n - 1], acts[n - 1]);
    }
  }

  /** Once everything that marks the page has been cleared, it is reclaimable again. */
  lemma Rescued(states: seq<State>, acts: seq<nat>, n: nat)
    requires IsRun(states, acts) && n <= |acts| && Start(states[0], Code) && Unlocking(states[0])
    requires forall i :: 0 <= i < |states[n].threads| ==> states[n].threads[i].Done?
    ensures states[n].place.Evictable?
  {
    UnlockingAlways(states, acts, n);
    NeverStranded(states, acts, n);
  }

  // ---- every run ends

  predicate Marks(t: Thread) { t.ToLock? || t.ToMlock? || t.ToUnlock? || t.ToMunlock? }

  /** How many threads are still to change a mark. */
  function Markers(threads: seq<Thread>): nat {
    if threads == [] then 0 else Markers(threads[..|threads| - 1]) + (if Marks(threads[|threads| - 1]) then 1 else 0)
  }

  /** Steps that a thread still makes while the marks stay as they are. */
  function Rank(t: Thread, evictable: bool): (n: nat)
    ensures n <= 6
  {
    match t
    case Done => 0
    case AddGood => 1
    case ToCheck => 1
    case Retest => if evictable then 5 else 1
    case AddBad => if evictable then 6 else 2
    case Test => if evictable then 2 else 3
    case Clear => if evictable then 3 else 4
    case Retake => if evictable then 4 else 5
    case Waiting => if evictable then 4 else 5
    case _ => 0
  }

  function Ranks(threads: seq<Thread>, evictable: bool): nat {
    if threads == [] then 0 else Ranks(threads[..|threads| - 1], evictable) + Rank(threads[|threads| - 1], evictable)
  }

  /** Steps that are left at most: each change of a mark may set all threads back. */
  function WorkLeft(s: State): nat { Markers(s.threads) * (6 * |s.threads| + 1) + Ranks(s.threads, PageEvictable(s)) }

  lemma {:induction false} RanksUpdate(threads: seq<Thread>, i: nat, t: Thread, e: bool)
    requires i < |threads|
    ensures Ranks(threads[i := t], e) == Ranks(threads, e) - Rank(threads[i], e) + Rank(t, e)
    ensures Markers(threads[i := t]) == Markers(threads) - (if Marks(threads[i]) then 1 else 0) + (if Marks(t) then 1 else 0)
  {
    var n := |threads| - 1;
    if i < n {
      RanksUpdate(threads[..n], i, t, e);
      assert threads[i := t][..n] == threads[..n][i := t];
    } else {
      assert threads[i := t][..n] == threads[..n];
    }
  }

  lemma {:induction false} RanksBound(threads: seq<Thread>, e: bool)
    ensures Ranks(threads, e) <= 6 * |threads|
  {
    if threads != [] { RanksBound(threads[..|threads| - 1], e); }
  }

  /** A thread that is not done can always go on, and brings all of them nearer to the end. */
  lemma WorkFalls(s: State, i: nat)
    requires i < |s.threads| && !s.threads[i].Done?
    ensures Enabled(s, i) && |Next(s, i).threads| == |s.threads| && WorkLeft(Next(s, i)) < WorkLeft(s)
  {
    hide Ranks, Markers;
    var s', n := Next(s, i), |s.threads|;
    assert s'.threads == s.threads[i := s'.threads[i]] && !Marks(s'.threads[i]);
    RanksUpdate(s.threads, i, s'.threads[i], PageEvictable(s'));
    RanksBound(s'.threads, PageEvictable(s'));
    if Marks(s.threads[i]) {
      assert Markers(s.threads) * (6 * n + 1) == Markers(s'.threads) * (6 * n + 1) + (6 * n + 1);
    } else {
      assert PageEvictable(s') == PageEvictable(s);
    }
  }

  /** No run goes on for ever, and one that cannot be continued has all threads done. */
  lemma {:induction false} RunEnds(states: seq<State>, acts: seq<nat>)
    requires IsRun(states, acts)
    ensures |acts| + WorkLeft(states[|acts|]) <= WorkLeft(states[0])
    ensures var s := states[|acts|]; (forall i :: !Enabled(s, i)) <==> forall i :: 0 <= i < |s.threads| ==> s.threads[i].Done?
  {
    hide WorkLeft, Next;
    if acts != [] {
      var n := |acts| - 1;
      RunEnds(states[..|acts|], acts[..n]);
      WorkFalls(states[n], acts[n]);
    }
    var s := states[|acts|];
    if i: nat :| i < |s.threads| && !s.threads[i].Done? { assert Enabled(s, i); }
  }

  /** Without the second look, the unlocker can clear the mark and check between test and adding. */
  lemma NoRetestStrands() returns (states: seq<State>, acts: seq<nat>)
    ensures IsRun(states, acts) && Start(states[0], NoRetest)
    ensures var s := states[|acts|]; PageEvictable(s) && s.place.Unevictable? && forall i :: 0 <= i < |s.threads| ==> s.threads[i].Done?
  {
    var s0 := State(NoRetest, true, false, false, Isolated(0), [Clear, ToUnlock]);
    var s1 := Next(s0, 0);
    var s2 := Next(s1, 0);
    var s3 := Next(s2, 1);
    var s4 := Next(s3, 1);
    var s5 := Next(s4, 0);
    states, acts := [s0, s1, s2, s3, s4, s5], [0, 0, 1, 1, 0];
  }

  /** An unlocker that checks before it clears the mark leaves the page behind even alone. */
  lemma CheckFirstStrands() returns (states: seq<State>, acts: seq<nat>)
    ensures IsRun(states, acts) && Start(states[0], CheckFirst)
    ensures var s := states[|acts|]; PageEvictable(s) && s.place.Unevictable? && forall i :: 0 <= i < |s.threads| ==> s.threads[i].Done?
  {
    var s0 := State(CheckFirst, true, false, true, Unevictable, [ToUnlock]);
    states, acts := [s0, Next(s0, 0)], [0];
  }
}
