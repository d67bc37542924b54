/** Isolating pages from an LRU list and putting them back: isolate_lru_pages, shrink_inactive_list
    with putback_inactive_pages, and shrink_active_list with move_active_pages_to_lru.  One thread at a
    time; which pages are busy, referenced or evictable, and whose last reference is dropped, is open.
    lru_cache_add counts as having reached its list. */
module LruLists {
  import SPL = ShrinkPageList

  // enum lru_list
  const LRU_ACTIVE: nat := 1
  const LRU_FILE: nat := 2
  const LRU_UNEVICTABLE: nat := 4
  const NR_LRU_LISTS: nat := 5

  function B(b: bool): nat { if b then 1 else 0 }

  function IsFile(lru: nat): (n: nat)
    ensures n < 2
  { B(2 <= lru <= 3) }

  /** Page flags: on an LRU list, active, unevictable; and the kind of page. */
  datatype Flags = Flags(lru: set<nat>, active: set<nat>, unevictable: set<nat>, file: set<nat>) {
    /** page_lru */
    function Home(p: nat): (l: nat)
      ensures l < NR_LRU_LISTS
    { if p in unevictable then LRU_UNEVICTABLE else (if p in file then LRU_FILE else 0) + B(p in active) }
  }

  function Size(size: map<nat, nat>, p: nat): (n: nat)
    ensures 0 < n
  { if p in size && 0 < size[p] then size[p] else 1 }

  /** How many base pages a list holds. */
  function Pages(size: map<nat, nat>, s: seq<nat>): nat {
    if s == [] then 0 else Size(size, s[0]) + Pages(size, s[1..])
  }

  /** A page is on a list exactly if its flags say so, and only once. */
  ghost predicate Placed(lists: seq<seq<nat>>, f: Flags) {
    && |lists| == NR_LRU_LISTS
    && (forall l, p :: 0 <= l < NR_LRU_LISTS ==> (p in lists[l] <==> p in f.lru && f.Home(p) == l))
    && (forall l :: 0 <= l < NR_LRU_LISTS ==> SPL.Distinct(lists[l]))
  }

  lemma {:induction false} PagesJoin(size: map<nat, nat>, s: seq<nat>, t: seq<nat>)
    ensures Pages(size, s + t) == Pages(size, s) + Pages(size, t)
  {
    if s == [] {
      assert s + t == t;
    } else {
      assert (s + t)[1..] == s[1..] + t;
      PagesJoin(size, s[1..], t);
    }
  }

  lemma PagesLast(size: map<nat, nat>, s: seq<nat>)
    requires s != []
    ensures Pages(size, s) == Pages(size, s[..|s| - 1]) + Size(size, s[|s| - 1])
  {
    var p, rest := s[|s| - 1], s[..|s| - 1];
    assert s == rest + [p];
    PagesJoin(size, rest, [p]);
    assert Pages(size, [p]) == Size(size, p) by { assert [p][1..] == []; }
  }

  lemma PagesHead(size: map<nat, nat>, p: nat, s: seq<nat>)
    ensures Pages(size, [p] + s) == Size(size, p) + Pages(size, s)
  {
    assert ([p] + s)[1..] == s;
  }

  /** `was` is split into what stays and what is taken: nothing is lost, nothing is doubled. */
  ghost predicate Split(was: seq<nat>, kept: seq<nat>, taken: seq<nat>) { multiset(was) == multiset(kept) + multiset(taken) }

  lemma SplitSteps(was: seq<nat>, kept: seq<nat>, taken: seq<nat>)
    requires Split(was, kept, taken) && kept != []
    ensures var p, rest := kept[|kept| - 1], kept[..|kept| - 1]; Split(was, rest, [p] + taken) && Split(was, [p] + rest, taken)
  {
    assert kept == kept[..|kept| - 1] + [kept[|kept| - 1]];
  }

  lemma SplitMeaning(was: seq<nat>, kept: seq<nat>, taken: seq<nat>)
    requires SPL.Distinct(was) && Split(was, kept, taken)
    ensures SPL.Distinct(kept) && SPL.Distinct(taken) && SPL.Range(kept) !! SPL.Range(taken)
    ensures forall p :: p in was <==> p in kept || p in taken
  {
    forall p
      ensures multiset(kept)[p] <= 1 && multiset(taken)[p] <= 1 && !(p in kept && p in taken) && (p in was <==> p in kept || p in taken)
    {
      SPL.DistinctOnce(was, p);
      assert multiset(was)[p] == multiset(kept)[p] + multiset(taken)[p];
    }
    SPL.OnceDistinct(kept);
    SPL.OnceDistinct(taken);
  }

  /** What is left of the list and what has been taken, after a look at the page at its tail for each
      answer: busy pages go to the other end. */
  function Isolated(was: seq<nat>, busy: seq<bool>): (seq<nat>, seq<nat>) {
    if busy == [] then (was, [])
    else
      var (kept, taken) := Isolated(was, busy[..|busy| - 1]);
      if kept == [] then (kept, taken)
      else
        var p, rest := kept[|kept| - 1], kept[..|kept| - 1];
        if busy[|busy| - 1] then ([p] + rest, taken) else (rest, [p] + taken)
  }

  lemma IsolatedStep(was: seq<nat>, busy: seq<bool>, b: bool)
    ensures var (kept, taken) := Isolated(was, busy); kept != [] ==>
      var p, rest := kept[|kept| - 1], kept[..|kept| - 1];
      Isolated(was, busy + [b]) == if b then ([p] + rest, taken) else (rest, [p] + taken)
  {
    assert (busy + [b])[..|busy|] == busy;
  }

  /** The pages, from the tail, for which the answer was b. */
  function Answered(was: seq<nat>, busy: seq<bool>, b: bool): seq<nat>
    requires |busy| <= |was|
  {
    if busy == [] then []
    else (if busy[|busy| - 1] == b then [was[|was| - |busy|]] else []) + Answered(was, busy[..|busy| - 1], b)
  }

  /** Each page is looked at before any is looked at again: what has not been looked at is still at the
      tail, and the busy pages and the others keep their order. */
  lemma {:induction false} EachOnce(was: seq<nat>, busy: seq<bool>)
    requires |busy| <= |was|
    ensures Isolated(was, busy) == (Answered(was, busy, true) + was[..|was| - |busy|], Answered(was, busy, false))
  {
    if busy == [] {
      assert was == [] + was[..|was|];
    } else {
      var n := |was| - |busy|;
      EachOnce(was, busy[..|busy| - 1]);
      var before := Answered(was, busy[..|busy| - 1], true);
      var kept := before + was[..n + 1];
      assert kept[|kept| - 1] == was[n] && kept[..|kept| - 1] == before + was[..n];
      assert [was[n]] + (before + was[..n]) == ([was[n]] + before) + was[..n];
      assert [] + before == before && [] + Answered(was, busy[..|busy| - 1], false) == Answered(was, busy[..|busy| - 1], false);
    }
  }

  /** Taking pages out of one list. */
  lemma TakenOut(lists: seq<seq<nat>>, f: Flags, l: nat, kept: seq<nat>, taken: seq<nat>)
    requires Placed(lists, f) && l < NR_LRU_LISTS && Split(lists[l], kept, taken)
    ensures Placed(lists[l := kept], f.(lru := f.lru - SPL.Range(taken)))
    ensures SPL.Distinct(taken) && SPL.Range(taken) <= f.lru
  {
    SplitMeaning(lists[l], kept, taken);
  }

  /** Putting a page on the list that its flags name. */
  lemma PutOn(lists: seq<seq<nat>>, f: Flags, p: nat)
    requires Placed(lists, f) && p !in f.lru
    ensures var l := f.Home(p); Placed(lists[l := [p] + lists[l]], f.(lru := f.lru + {p}))
  {
    var l := f.Home(p);
    assert p !in lists[l];
  }

  /** The counters agree with the lists. */
  ghost predicate Counted(size: map<nat, nat>, lists: seq<seq<nat>>, nrLru: seq<int>) {
    && |lists| == NR_LRU_LISTS && |nrLru| == NR_LRU_LISTS
    && (forall l :: 0 <= l < NR_LRU_LISTS ==> nrLru[l] == Pages(size, lists[l]))
  }

  /** What the code finds when it looks at a page that it has isolated: whether it is evictable, was
      referenced, is mapped executable, and whether the isolation's reference is the last one. */
  datatype Seen = Seen(evictable: set<nat>, referenced: set<nat>, executable: set<nat>, last: set<nat>)

  /** What shrink_page_list may find, and what it is bound to find, when it looks at a page. */
  datatype Looks = Looks(underWriteback: set<nat>, doubts: set<(nat, SPL.Reason)>, certain: set<(nat, SPL.Reason)>) {
    /** Nothing speaks against freeing the page. */
    ghost predicate Clear(p: nat) { p !in underWriteback && forall r :: (p, r) !in doubts }

    /** The page is bound to be kept. */
    predicate Held(p: nat) {
      || (p, SPL.Busy) in certain || (p, SPL.NotEvictable) in certain || (p, SPL.InUse) in certain || (p, SPL.RecentlyUsed) in certain
      || (p, SPL.Buffers) in certain || (p, SPL.StillUsed) in certain
    }

    /** The page may be found to be worth keeping for longer. */
    predicate MayRise(p: nat) {
      || (p, SPL.InUse) in doubts || (p, SPL.NoSwapSpace) in doubts || (p, SPL.UnmapFailed) in doubts
      || (p, SPL.PageoutActive) in doubts || (p, SPL.Buffers) in doubts
    }
  }

  /** The size of the pages of the list that count as rotated. */
  function Rotated(size: map<nat, nat>, s: seq<nat>, counts: set<nat>): nat {
    if s == [] then 0
    else
      var p := s[|s| - 1];
      Rotated(size, s[..|s| - 1], counts) + if p in counts then Size(size, p) else 0
  }

  lemma RotatedLast(size: map<nat, nat>, s: seq<nat>, counts: set<nat>)
    requires s != []
    ensures var p := s[|s| - 1]; Rotated(size, s, counts) == Rotated(size, s[..|s| - 1], counts) + if p in counts then Size(size, p) else 0
  {
  }

  /** All of the list, if all of it counts; nothing, if nothing of it does; and otherwise what counts and
      what does not make up the list. */
  lemma {:induction false} RotatedParts(size: map<nat, nat>, s: seq<nat>, counts: set<nat>)
    ensures SPL.Range(s) <= counts ==> Rotated(size, s, counts) == Pages(size, s)
    ensures SPL.Range(s) !! counts ==> Rotated(size, s, counts) == 0
    ensures Rotated(size, s, counts) + Rotated(size, s, SPL.Range(s) - counts) == Pages(size, s)
  {
    RotatedSplit(size, s, counts, SPL.Range(s) - counts);
  }

  lemma {:induction false} RotatedSplit(size: map<nat, nat>, s: seq<nat>, counts: set<nat>, others: set<nat>)
    requires counts !! others && SPL.Range(s) <= counts + others
    ensures SPL.Range(s) <= counts ==> Rotated(size, s, counts) == Pages(size, s)
    ensures SPL.Range(s) !! counts ==> Rotated(size, s, counts) == 0
    ensures Rotated(size, s, counts) + Rotated(size, s, others) == Pages(size, s)
  {
    if s != [] {
      PagesLast(size, s);
      RotatedSplit(size, s[..|s| - 1], counts, others);
      assert s[|s| - 1] in SPL.Range(s) && SPL.Range(s[..|s| - 1]) <= SPL.Range(s);
    }
  }

  lemma RotatedNone(size: map<nat, nat>, counts: set<nat>)
    ensures Rotated(size, [], counts) == 0
  {
  }

  /** One page more is done. */
  lemma OneMore(done: set<nat>, p: nat, x: set<nat>)
    ensures (done + {p}) - x == if p in x then done - x else (done - x) + {p}
    ensures (done + {p}) * x == if p in x then done * x + {p} else done * x
  {
  }

  lemma Rises(looks: Looks, p: nat, r: SPL.Reason)
    requires r in {SPL.InUse, SPL.NoSwapSpace, SPL.UnmapFailed, SPL.PageoutActive, SPL.Buffers} && (p, r) in looks.doubts
    ensures looks.MayRise(p)
  {
  }

  lemma NotHeld(looks: Looks, p: nat)
    requires (p, SPL.Busy) !in looks.certain && (p, SPL.NotEvictable) !in looks.certain && (p, SPL.InUse) !in looks.certain
    requires (p, SPL.RecentlyUsed) !in looks.certain && (p, SPL.Buffers) !in looks.certain && (p, SPL.StillUsed) !in looks.certain
    ensures !looks.Held(p)
  {
  }

  /** What shrink_page_list does with a list: what comes back, what was activated, what is gone. */
  method CallShrinkPageList(list: seq<nat>, sc: SPL.Scan, looks: Looks, file: set<nat>)
    returns (ret: seq<nat>, reclaimed: nat, activated: set<nat>, lost: set<nat>)
    requires SPL.Distinct(list) && looks.certain <= looks.doubts
    ensures SPL.Distinct(ret) && SPL.Range(list) == SPL.Range(ret) + lost && SPL.Range(ret) !! lost
    ensures |list| == |ret| + reclaimed && activated <= SPL.Range(ret)
    ensures forall p :: p in SPL.Range(ret) ==> !looks.Clear(p)
    ensures forall p :: p in lost ==> !looks.Held(p)
    ensures forall p :: p in activated ==> looks.MayRise(p)
  {
    hide SPL.Range, SPL.Distinct, SPL.Tested, SPL.Reclaimer.Allowed, SPL.Reclaimer.Reported, SPL.Stats.Ordered, SPL.Stats.Plus;
    hide SPL.Reclaimer.Clear, SPL.Reclaimer.Just, SPL.Reclaimer.Cleared, SPL.Question, Looks.MayRise, Looks.Held;
    var r := new SPL.Reclaimer(sc.(force := false), list, looks.underWriteback, file, looks.doubts, looks.certain);
    var n;
    ghost var counted;
    reclaimed, n, counted := r.ShrinkPageList();
    assert r.active - {} == r.active;
    ret, activated, lost := r.list, r.active, SPL.Range(r.freed) + SPL.Range(r.left);
    forall p | p in SPL.Range(ret)
      ensures !looks.Clear(p) && (p in activated ==> looks.MayRise(p))
    {
      r.JustMeaning(p, r.log.why[p], r.log.cleanOnly);
      if p in activated { Rises(looks, p, r.log.why[p]); }
    }
    forall p | p in lost
      ensures !looks.Held(p)
    {
      r.ClearedMeaning(p, r.log);
      NotHeld(looks, p);
    }
  }

  class Zone {
    const size: map<nat, nat>
    const file: set<nat>
    var lists: seq<seq<nat>>
    var nrLru: seq<int>
    /** NR_ISOLATED_ANON and NR_ISOLATED_FILE */
    var isolated: seq<int>
    var recentScanned: seq<int>
    var recentRotated: seq<int>
    var lru: set<nat>
    var active: set<nat>
    var unevictable: set<nat>
    /** Pages that have been freed, or left to a last reference that frees them. */
    var gone: set<nat>

    function F(): Flags
      reads this`lru, this`active, this`unevictable
    { Flags(lru, active, unevictable, file) }

    ghost predicate Valid()
      reads this`lists, this`nrLru, this`isolated, this`recentScanned, this`recentRotated, this`lru, this`active, this`unevictable, this`gone
    {
      && |lists| == NR_LRU_LISTS && |nrLru| == NR_LRU_LISTS
      && Placed(lists, F()) && Counted(size, lists, nrLru) && lru !! gone
      && |isolated| == 2 && |recentScanned| == 2 && |recentRotated| == 2
    }

    constructor (size: map<nat, nat>, file: set<nat>)
      ensures Valid() && this.size == size && this.file == file
    {
      this.size, this.file := size, file;
      lists, nrLru, isolated := [[], [], [], [], []], [0, 0, 0, 0, 0], [0, 0];
      recentScanned, recentRotated, lru, active, unevictable, gone := [0, 0], [0, 0], {}, {}, {}, {};
    }

    /** Which list holds which pages. */
    lemma WhereFound(p: nat)
      requires Valid()
      ensures p in lists[LRU_UNEVICTABLE] <==> p in lru && p in unevictable
      ensures p in lists[0] <==> p in lru && p !in unevictable && p !in file && p !in active
      ensures p in lists[LRU_ACTIVE] <==> p in lru && p !in unevictable && p !in file && p in active
      ensures p in lists[LRU_FILE] <==> p in lru && p !in unevictable && p in file && p !in active
      ensures p in lists[LRU_FILE + LRU_ACTIVE] <==> p in lru && p !in unevictable && p in file && p in active
    {
      hide Counted;
    }

    /** isolate_lru_pages: pages move to the result, or, if busy, to the other end of the list.  The
        amount taken overshoots what was asked for by less than the page taken last. */
    method IsolateLruPages(n: nat, l: nat) returns (taken: seq<nat>, nrTaken: nat, scanned: nat, ghost looks: seq<bool>)
      requires |lists| == NR_LRU_LISTS && Placed(lists, F()) && l < LRU_UNEVICTABLE
      modifies this`lists, this`lru
      ensures Placed(lists, F()) && lists == old(lists)[l := lists[l]] && lru == old(lru) - SPL.Range(taken)
      ensures |looks| == scanned && (lists[l], taken) == Isolated(old(lists[l]), looks)
      ensures Split(old(lists[l]), lists[l], taken) && SPL.Distinct(taken) && SPL.Range(taken) <= old(lru)
      ensures scanned <= n && nrTaken == Pages(size, taken) && Pages(size, old(lists[l])) == Pages(size, lists[l]) + nrTaken
      ensures taken != [] ==> nrTaken < n + Size(size, taken[0])
      ensures scanned == n || n <= nrTaken || lists[l] == []
    {
      hide Split, Placed, Pages, Isolated, SPL.Range;
      ghost var was, flags := lists, F();
      taken, nrTaken, scanned, looks := [], 0, 0, [];
      NothingTaken(size, lists[l], lru);
      while scanned < n && nrTaken < n && lists[l] != []
        invariant |lists| == NR_LRU_LISTS && lists == was[l := lists[l]] && lru == flags.lru - SPL.Range(taken)
        invariant Split(was[l], lists[l], taken) && scanned <= n && |looks| == scanned && (lists[l], taken) == Isolated(was[l], looks)
        invariant nrTaken == Pages(size, taken) && Pages(size, was[l]) == Pages(size, lists[l]) + nrTaken
        invariant taken != [] ==> nrTaken < n + Size(size, taken[0])
      {
        var p, rest := lists[l][|lists[l]| - 1], lists[l][..|lists[l]| - 1];
        SplitSteps(was[l], lists[l], taken);
        PagesLast(size, lists[l]);
        PagesHead(size, p, taken);
        PagesHead(size, p, rest);
        RangeHead(p, taken);
        var busy: bool := *;
        IsolatedStep(was[l], looks, busy);
        looks := looks + [busy];
        if busy {
          lists := lists[l := [p] + rest];
        } else {
          lists := lists[l := rest];
          lru := lru - {p};
          taken := [p] + taken;
          nrTaken := nrTaken + Size(size, p);
        }
        scanned := scanned + 1;
      }
      TakenOut(was, flags, l, lists[l], taken);
    }

    /** SetPageLRU and add_page_to_lru_list. */
    method AddToLru(p: nat)
      requires Valid() && p !in lru && p !in gone
      modifies this`lists, this`lru, this`nrLru
      ensures Valid() && lru == old(lru) + {p} && lists == old(lists)[F().Home(p) := [p] + old(lists[F().Home(p)])]
      ensures nrLru == old(nrLru)[F().Home(p) := old(nrLru[F().Home(p)]) + Size(size, p)]
    {
      hide Placed, Pages;
      var l := F().Home(p);
      PutOn(lists, F(), p);
      PagesHead(size, p, lists[l]);
      assert |lists| == NR_LRU_LISTS;
      lru := lru + {p};
      lists := lists[l := [p] + lists[l]];
      nrLru := nrLru[l := nrLru[l] + Size(size, p)];
    }

    /** A page goes back to the list that its flags name, and the isolation's reference is dropped; if
        it was the last one the page comes off again and is freed. */
    method PutBack(p: nat, seen: Seen)
      requires Valid() && p !in lru && p !in gone
      modifies this`lists, this`lru, this`nrLru, this`active, this`gone
      ensures Valid()
      ensures p in seen.last ==> lru == old(lru) && gone == old(gone) + {p} && active == old(active) - {p}
      ensures p !in seen.last ==> lru == old(lru) + {p} && gone == old(gone) && active == old(active)
    {
      ghost var lists0, flags0, nr0 := lists, F(), nrLru;
      var l := F().Home(p);
      AddToLru(p);
      if p in seen.last {
        lru := lru - {p};
        active := active - {p};
        lists := lists[l := lists[l][1..]];
        nrLru := nrLru[l := nrLru[l] - Size(size, p)];
        gone := gone + {p};
        assert lists == lists0 && nrLru == nr0 && lru == flags0.lru;
        SamePlaces(lists0, flags0, F());
      }
    }

    /** putback_lru_page: by the end the page is on the list that suits it. */
    method PutbackLruPage(p: nat, seen: Seen)
      requires Valid() && p !in lru && p !in gone
      modifies this`lists, this`lru, this`nrLru, this`active, this`unevictable, this`gone
      ensures Valid() && unevictable == if p in seen.evictable then old(unevictable) - {p} else old(unevictable) + {p}
      ensures p in seen.last ==> lru == old(lru) && gone == old(gone) + {p} && active == old(active) - {p}
      ensures p !in seen.last ==> lru == old(lru) + {p} && gone == old(gone) && active == old(active)
    {
      hide Counted;
      ghost var f := F();
      unevictable := if p in seen.evictable then unevictable - {p} else unevictable + {p};
      SamePlaces(lists, f, F());
      PutBack(p, seen);
    }

    /** putback_inactive_pages: every page of the list ends on its LRU list, on the unevictable list if
        it is not evictable, or is freed if the last reference was ours. */
    method PutbackInactivePages(pageList: seq<nat>, seen: Seen)
      requires Valid() && SPL.Distinct(pageList) && SPL.Range(pageList) !! lru && SPL.Range(pageList) !! gone
      modifies this`lists, this`lru, this`nrLru, this`active, this`unevictable, this`gone, this`recentRotated
      ensures Valid()
      ensures var all := SPL.Range(pageList);
        && lru == old(lru) + (all - seen.last) && gone == old(gone) + all * seen.last
        && active == old(active) - all * seen.last && unevictable == old(unevictable) + (all - seen.evictable)
      ensures recentRotated[0] == old(recentRotated[0]) + Rotated(size, pageList, seen.evictable * old(active) - file)
      ensures recentRotated[1] == old(recentRotated[1]) + Rotated(size, pageList, seen.evictable * old(active) * file)
    {
      hide Placed, Counted, Rotated, Size, SPL.Distinct, SPL.Range;
      var todo := pageList;
      ghost var done: set<nat> := {};
      ghost var anon, filed := seen.evictable * active - file, seen.evictable * active * file;
      NoRange();
      RotatedNone(size, anon);
      RotatedNone(size, filed);
      while todo != []
        invariant Valid() && SPL.Distinct(todo) && SPL.Range(todo) !! done && SPL.Range(todo) !! lru && SPL.Range(todo) !! gone
        invariant SPL.Range(todo) + done == SPL.Range(pageList)
        invariant lru == old(lru) + (done - seen.last) && gone == old(gone) + done * seen.last
        invariant active == old(active) - done * seen.last && unevictable == old(unevictable) + (done - seen.evictable)
        invariant recentRotated[0] + Rotated(size, todo, anon) == old(recentRotated[0]) + Rotated(size, pageList, anon)
        invariant recentRotated[1] + Rotated(size, todo, filed) == old(recentRotated[1]) + Rotated(size, pageList, filed)
        decreases |todo|
      {
        var p := todo[|todo| - 1];
        TakeLast(todo);
        RotatedLast(size, todo, anon);
        RotatedLast(size, todo, filed);
        todo := todo[..|todo| - 1];
        OneMore(done, p, seen.last);
        OneMore(done, p, seen.evictable);
        done := done + {p};
        if p !in seen.evictable {
          PutbackLruPage(p, seen);
        } else {
          if p in active {
            var t := if p in file then 1 else 0;
            recentRotated := recentRotated[t := recentRotated[t] + Size(size, p)];
          }
          PutBack(p, seen);
        }
      }
    }

    /** Isolation with its two counters, under the lock. */
    method Isolate(n: nat, l: nat) returns (taken: seq<nat>, nrTaken: nat, ghost looks: seq<bool>)
      requires Valid() && l < LRU_UNEVICTABLE
      modifies this`lists, this`lru, this`nrLru, this`isolated
      ensures Valid() && lists == old(lists)[l := lists[l]] && lru == old(lru) - SPL.Range(taken)
      ensures Split(old(lists[l]), lists[l], taken) && SPL.Distinct(taken) && SPL.Range(taken) <= old(lru)
      ensures nrTaken == Pages(size, taken) && isolated == old(isolated)[IsFile(l) := old(isolated[IsFile(l)]) + nrTaken]
      ensures taken != [] ==> nrTaken < n + Size(size, taken[0])
      ensures forall p :: p in taken ==> old(F().Home(p)) == l
      ensures (lists[l], taken) == Isolated(old(lists[l]), looks) && |looks| <= n && (|looks| == n || n <= nrTaken || lists[l] == [])
    {
      hide Split, Pages, Isolated;
      var scanned;
      TakenHome(lists, F(), l);
      assert |lists| == NR_LRU_LISTS;
      taken, nrTaken, scanned, looks := IsolateLruPages(n, l);
      TakenFrom(old(lists[l]), lists[l], taken);
      nrLru := nrLru[l := nrLru[l] - nrTaken];
      isolated := isolated[IsFile(l) := isolated[IsFile(l)] + nrTaken];
    }

    /** shrink_page_list on the isolated pages: some are gone, the rest comes back, some activated. */
    method Reclaim(taken: seq<nat>, sc: SPL.Scan, looks: Looks) returns (ret: seq<nat>, reclaimed: nat, ghost activated: set<nat>)
      requires Valid() && SPL.Distinct(taken) && SPL.Range(taken) !! lru && SPL.Range(taken) !! gone && looks.certain <= looks.doubts
      modifies this`active, this`gone
      ensures forall p :: p in SPL.Range(ret) ==> !looks.Clear(p)
      ensures forall p :: p in SPL.Range(taken) - SPL.Range(ret) ==> !looks.Held(p)
      ensures forall p :: p in activated ==> looks.MayRise(p)
      ensures Valid() && SPL.Distinct(ret) && SPL.Range(ret) <= SPL.Range(taken) && gone == old(gone) + (SPL.Range(taken) - SPL.Range(ret))
      ensures |taken| == |ret| + reclaimed && active == old(active) + activated && activated <= SPL.Range(ret)
    {
      hide Placed, Counted, SPL.Range, SPL.Distinct, Looks.Clear, Looks.Held, Looks.MayRise;
      var up, lost;
      ret, reclaimed, up, lost := CallShrinkPageList(taken, sc, looks, file);
      FlagsOff(lists, F(), up, taken);
      activated := up;
      active := active + up;
      gone := gone + lost;
    }

    /** shrink_inactive_list: pages are taken until enough were looked at or taken, or the list is empty;
        what shrink_page_list gives back (ret) goes to its lists, the rest of what was taken is gone: all
        pages that nothing speaks against, and none that is bound to be kept; counters are as before but
        for what was scanned and rotated. */
    method ShrinkInactiveList(n: nat, l: nat, sc: SPL.Scan, looks: Looks, seen: Seen)
      returns (reclaimed: nat, ghost taken: seq<nat>, ghost busy: seq<bool>, ghost ret: seq<nat>, ghost activated: set<nat>)
      requires Valid() && (l == 0 || l == LRU_FILE) && looks.certain <= looks.doubts
      modifies this
      ensures Valid() && isolated == old(isolated)
      ensures SPL.Distinct(taken) && SPL.Range(taken) <= SPL.Range(old(lists[l])) && SPL.Range(ret) <= SPL.Range(taken)
      ensures taken == Isolated(old(lists[l]), busy).1 && |busy| <= n
      ensures |busy| == n || n <= Pages(size, taken) || Isolated(old(lists[l]), busy).0 == []
      ensures forall p :: p in SPL.Range(ret) ==> !looks.Clear(p)
      ensures forall p :: p in SPL.Range(taken) - SPL.Range(ret) ==> !looks.Held(p)
      ensures forall p :: p in activated ==> looks.MayRise(p)
      ensures taken != [] ==> Pages(size, taken) < n + Size(size, taken[0])
      ensures gone == old(gone) + (SPL.Range(taken) - SPL.Range(ret)) + SPL.Range(ret) * seen.last
      ensures lru == old(lru) - SPL.Range(taken) + (SPL.Range(ret) - seen.last)
      ensures unevictable == old(unevictable) + (SPL.Range(ret) - seen.evictable)
      ensures |taken| == |ret| + reclaimed && activated <= SPL.Range(ret) && active == old(active) + activated - SPL.Range(ret) * seen.last
      ensures recentScanned == old(recentScanned)[IsFile(l) := old(recentScanned[IsFile(l)]) + Pages(size, taken)]
      ensures recentRotated[0] == old(recentRotated[0]) + Rotated(size, ret, seen.evictable * (old(active) + activated) - file)
      ensures recentRotated[1] == old(recentRotated[1]) + Rotated(size, ret, seen.evictable * (old(active) + activated) * file)
    {
      hide Placed, Counted, Pages, Rotated, Split, SPL.Range, SPL.Distinct, IsFile, Isolated, Looks.Clear, Looks.Held, Looks.MayRise;
      RotatedNone(size, seen.evictable * active - file);
      RotatedNone(size, seen.evictable * active * file);
      assert active + {} == active;
      var list, nrTaken;
      list, nrTaken, busy := Isolate(n, l);
      taken, ret, activated := list, [], {};
      TakenFrom(old(lists[l]), lists[l], list);
      NoRange();
      if nrTaken == 0 {
        NonePages(size, list);
        reclaimed := 0;
        return;
      }
      var back;
      back, reclaimed, activated := Reclaim(list, sc, looks);
      ret := back;
      recentScanned := recentScanned[IsFile(l) := recentScanned[IsFile(l)] + nrTaken];
      PutbackInactivePages(back, seen);
      isolated := isolated[IsFile(l) := isolated[IsFile(l)] - nrTaken];
    }

    /** One page of move_active_pages_to_lru: NR_LRU is to be raised at the end, but lowered at once if
        the page is freed. */
    method MoveOne(p: nat, l: nat, moved: nat, seen: Seen) returns (moved': nat)
      requires |lists| == NR_LRU_LISTS && |nrLru| == NR_LRU_LISTS && Placed(lists, F()) && l < LRU_UNEVICTABLE
      requires Counted(size, lists, nrLru[l := nrLru[l] + moved]) && p !in lru && p !in gone && F().Home(p) == l
      modifies this`lists, this`lru, this`nrLru, this`active, this`gone
      ensures |lists| == NR_LRU_LISTS && |nrLru| == NR_LRU_LISTS && Placed(lists, F())
      ensures Counted(size, lists, nrLru[l := nrLru[l] + moved'])
      ensures p in seen.last ==> lru == old(lru) && gone == old(gone) + {p} && active == old(active) - {p}
      ensures p !in seen.last ==> lru == old(lru) + {p} && gone == old(gone) && active == old(active)
    {
      hide Placed, Counted, Pages;
      ghost var lists0, f0, nr0 := lists, F(), nrLru;
      PutOn(lists, F(), p);
      Raised(size, lists0, nr0[l := nr0[l] + moved], l, p);
      lru := lru + {p};
      lists := lists[l := [p] + lists[l]];
      moved' := moved + Size(size, p);
      assert nrLru[l := nrLru[l] + moved'] == nr0[l := nr0[l] + moved][l := nr0[l] + moved + Size(size, p)];
      if p in seen.last {
        lru := lru - {p};
        active := active - {p};
        lists := lists[l := lists[l][1..]];
        nrLru := nrLru[l := nrLru[l] - Size(size, p)];
        gone := gone + {p};
        assert lists == lists0;
        assert nrLru[l := nrLru[l] + moved'] == nr0[l := nr0[l] + moved];
        SamePlaces(lists0, f0, F());
      }
    }

    /** move_active_pages_to_lru */
    method MoveActivePagesToLru(pageList: seq<nat>, l: nat, seen: Seen)
      requires Valid() && SPL.Distinct(pageList) && SPL.Range(pageList) !! lru && SPL.Range(pageList) !! gone && l < LRU_UNEVICTABLE
      requires forall p :: p in SPL.Range(pageList) ==> F().Home(p) == l
      modifies this`lists, this`lru, this`nrLru, this`active, this`gone
      ensures Valid()
      ensures lru == old(lru) + (SPL.Range(pageList) - seen.last) && gone == old(gone) + SPL.Range(pageList) * seen.last
      ensures active == old(active) - SPL.Range(pageList) * seen.last
    {
      hide Placed, Counted, SPL.Distinct, SPL.Range, Pages;
      var todo, moved := pageList, 0;
      ghost var done: set<nat> := {};
      CountedShift(size, lists, nrLru, l, 0);
      NoRange();
      while todo != []
        invariant |lists| == NR_LRU_LISTS && |nrLru| == NR_LRU_LISTS && Placed(lists, F()) && lru !! gone
        invariant Counted(size, lists, nrLru[l := nrLru[l] + moved]) && 0 <= moved
        invariant SPL.Distinct(todo) && SPL.Range(todo) !! done && SPL.Range(todo) !! lru && SPL.Range(todo) !! gone
        invariant SPL.Range(todo) + done == SPL.Range(pageList)
        invariant lru == old(lru) + (done - seen.last) && gone == old(gone) + done * seen.last && active == old(active) - done * seen.last
        invariant forall p :: p in SPL.Range(todo) ==> F().Home(p) == l
        decreases |todo|
      {
        var p := todo[|todo| - 1];
        TakeLast(todo);
        todo := todo[..|todo| - 1];
        OneMore(done, p, seen.last);
        done := done + {p};
        moved := MoveOne(p, l, moved, seen);
      }
      nrLru := nrLru[l := nrLru[l] + moved];
    }

    /** Referenced executable file pages. */
    function Spared(seen: Seen): set<nat> { seen.evictable * seen.referenced * seen.executable * file }

    lemma SparedMeaning(seen: Seen, p: nat)
      ensures Spared(seen) <= seen.evictable && Spared(seen) == seen.evictable * seen.referenced * seen.executable * file
      ensures p in Spared(seen) <==> p in seen.evictable && p in seen.referenced && p in seen.executable && p in file
    {
    }

    /** One page of shrink_active_list: if unevictable it goes back at once, if referenced, executable
        and of a file it stays active, otherwise it is deactivated. */
    method SortPage(p: nat, l: nat, seen: Seen) returns (spared: bool, rotated: nat)
      requires Valid() && p !in lru && p !in gone && (l == 1 || l == 3) && F().Home(p) == l
      modifies this`lists, this`lru, this`nrLru, this`active, this`unevictable, this`gone
      ensures Valid() && (spared <==> p in Spared(seen))
      ensures rotated == if p in seen.evictable * seen.referenced then Size(size, p) else 0
      ensures p in seen.evictable ==> lru == old(lru) && gone == old(gone) && unevictable == old(unevictable)
      ensures p in seen.evictable ==> active == if spared then old(active) else old(active) - {p}
      ensures p !in seen.evictable ==> unevictable == old(unevictable) + {p}
      ensures p !in seen.evictable && p in seen.last ==> lru == old(lru) && gone == old(gone) + {p} && active == old(active) - {p}
      ensures p !in seen.evictable && p !in seen.last ==> lru == old(lru) + {p} && gone == old(gone) && active == old(active)
      ensures p in seen.evictable ==> F().Home(p) == if spared then l else l - 1
      ensures forall q :: q != p ==> F().Home(q) == old(F()).Home(q)
    {
      hide Placed, Counted, Size;
      ghost var f0 := F();
      spared, rotated := false, 0;
      if p !in seen.evictable {
        PutbackLruPage(p, seen);
      } else {
        if p in seen.referenced { rotated := Size(size, p); }
        if p in seen.referenced && p in seen.executable && p in file {
          spared := true;
        } else {
          active := active - {p};
          SamePlaces(lists, f0, F());
        }
      }
      HomeElsewhere(f0, F(), p);
    }

    /** The middle of shrink_active_list: unevictable pages go back at once, referenced executable file
        pages stay active, the others are deactivated. */
    method Sort(hold: seq<nat>, l: nat, seen: Seen) returns (lActive: seq<nat>, lInactive: seq<nat>, rotated: nat)
      requires Valid() && SPL.Distinct(hold) && SPL.Range(hold) !! lru && SPL.Range(hold) !! gone && (l == 1 || l == 3)
      requires forall p :: p in SPL.Range(hold) ==> F().Home(p) == l
      modifies this`lists, this`lru, this`nrLru, this`active, this`unevictable, this`gone
      ensures Valid() && SPL.Distinct(lActive) && SPL.Distinct(lInactive)
      ensures SPL.Range(lActive) == SPL.Range(hold) * Spared(seen) && SPL.Range(lInactive) == SPL.Range(hold) * seen.evictable - Spared(seen)
      ensures forall p :: p in SPL.Range(lActive) ==> F().Home(p) == l
      ensures forall p :: p in SPL.Range(lInactive) ==> F().Home(p) == l - 1
      ensures lru == old(lru) + (SPL.Range(hold) - seen.evictable - seen.last) && gone == old(gone) + (SPL.Range(hold) - seen.evictable) * seen.last
      ensures unevictable == old(unevictable) + (SPL.Range(hold) - seen.evictable)
      ensures active == old(active) - (SPL.Range(hold) * seen.evictable - Spared(seen)) - (SPL.Range(hold) - seen.evictable) * seen.last
      ensures rotated == Rotated(size, hold, seen.evictable * seen.referenced)
    {
      hide Placed, Counted, Rotated, SPL.Distinct, SPL.Range, Spared, Size, Flags.Home;
      SparedMeaning(seen, 0);
      RotatedNone(size, seen.evictable * seen.referenced);
      var todo := hold;
      lActive, lInactive, rotated := [], [], 0;
      ghost var done: set<nat> := {};
      NoRange();
      while todo != []
        invariant Valid() && SPL.Distinct(todo) && SPL.Distinct(lActive) && SPL.Distinct(lInactive)
        invariant SPL.Range(todo) !! done && SPL.Range(todo) !! lru && SPL.Range(todo) !! gone && SPL.Range(todo) + done == SPL.Range(hold)
        invariant SPL.Range(lActive) == done * Spared(seen) && SPL.Range(lInactive) == done * seen.evictable - Spared(seen)
        invariant lru == old(lru) + (done - seen.evictable - seen.last) && gone == old(gone) + (done - seen.evictable) * seen.last
        invariant unevictable == old(unevictable) + (done - seen.evictable)
        invariant active == old(active) - (done * seen.evictable - Spared(seen)) - (done - seen.evictable) * seen.last
        invariant forall p :: p in SPL.Range(todo) + SPL.Range(lActive) ==> F().Home(p) == l
        invariant rotated + Rotated(size, todo, seen.evictable * seen.referenced) == Rotated(size, hold, seen.evictable * seen.referenced)
        invariant forall p :: p in SPL.Range(lInactive) ==> F().Home(p) == l - 1
        decreases |todo|
      {
        var p := todo[|todo| - 1];
        TakeLast(todo);
        RotatedLast(size, todo, seen.evictable * seen.referenced);
        todo := todo[..|todo| - 1];
        AddHead(p, lActive);
        AddHead(p, lInactive);
        SortOne(done, p, seen.evictable, Spared(seen), seen.last);
        SparedMeaning(seen, p);
        done := done + {p};
        var spared, r := SortPage(p, l, seen);
        rotated := rotated + r;
        if spared {
          lActive := [p] + lActive;
        } else if p in seen.evictable {
          lInactive := [p] + lInactive;
        }
      }
    }

    /** The end of shrink_active_list: both heaps go back to their lists. */
    method PutBoth(lActive: seq<nat>, lInactive: seq<nat>, l: nat, seen: Seen)
      requires Valid() && (l == 1 || l == 3)
      requires SPL.Distinct(lActive) && SPL.Distinct(lInactive) && SPL.Range(lActive) !! SPL.Range(lInactive) !! lru !! gone
      requires forall p :: p in SPL.Range(lActive) ==> F().Home(p) == l
      requires forall p :: p in SPL.Range(lInactive) ==> F().Home(p) == l - 1
      modifies this`lists, this`lru, this`nrLru, this`active, this`gone
      ensures Valid()
      ensures lru == old(lru) + (SPL.Range(lActive) - seen.last) + (SPL.Range(lInactive) - seen.last)
      ensures gone == old(gone) + SPL.Range(lActive) * seen.last + SPL.Range(lInactive) * seen.last
      ensures active == old(active) - SPL.Range(lActive) * seen.last - SPL.Range(lInactive) * seen.last
    {
      hide Placed, Counted, Pages, SPL.Range, SPL.Distinct, Flags.Home;
      ghost var f1 := F();
      MoveActivePagesToLru(lActive, l, seen);
      HomeStays(lInactive, lActive, f1, F(), l - 1);
      MoveActivePagesToLru(lInactive, l - LRU_ACTIVE, seen);
    }

    /** shrink_active_list: every page taken goes back to a list unless ours was the last reference;
        evictable pages that are not spared are no longer active; the counters are as before but for
        what was scanned and rotated. */
    method ShrinkActiveList(n: nat, l: nat, seen: Seen) returns (ghost taken: seq<nat>, ghost busy: seq<bool>)
      requires Valid() && (l == 1 || l == 3)
      modifies this
      ensures Valid() && isolated == old(isolated)
      ensures SPL.Distinct(taken) && SPL.Range(taken) <= SPL.Range(old(lists[l]))
      ensures taken == Isolated(old(lists[l]), busy).1 && |busy| <= n
      ensures |busy| == n || n <= Pages(size, taken) || Isolated(old(lists[l]), busy).0 == []
      ensures taken != [] ==> Pages(size, taken) < n + Size(size, taken[0])
      ensures lru == old(lru) - SPL.Range(taken) * seen.last && gone == old(gone) + SPL.Range(taken) * seen.last
      ensures unevictable == old(unevictable) + (SPL.Range(taken) - seen.evictable)
      ensures active == old(active) - (SPL.Range(taken) * seen.evictable - seen.evictable * seen.referenced * seen.executable * file) - SPL.Range(taken) * seen.last
      ensures recentScanned == old(recentScanned)[IsFile(l) := old(recentScanned[IsFile(l)]) + Pages(size, taken)]
      ensures recentRotated == old(recentRotated)[IsFile(l) := old(recentRotated[IsFile(l)]) + Rotated(size, taken, seen.evictable * seen.referenced)]
    {
      hide Placed, Counted, Pages, Rotated, Split, SPL.Range, SPL.Distinct, Flags.Home, IsFile, Spared, Isolated;
      var list, nrTaken;
      list, nrTaken, busy := Isolate(n, l);
      taken := list;
      TakenFrom(old(lists[l]), lists[l], list);
      recentScanned := recentScanned[IsFile(l) := recentScanned[IsFile(l)] + nrTaken];
      HomeKept(list, F(), old(F()), l);
      SparedMeaning(seen, 0);
      var lActive, lInactive, rotated := Sort(list, l, seen);
      recentRotated := recentRotated[IsFile(l) := recentRotated[IsFile(l)] + rotated];
      PutBoth(lActive, lInactive, l, seen);
      isolated := isolated[IsFile(l) := isolated[IsFile(l)] - nrTaken];
      AllBack(SPL.Range(list), seen.evictable, Spared(seen), seen.last);
    }
  }

  /** Where the pages that are sorted end together. */
  lemma AllBack(all: set<nat>, evictable: set<nat>, spared: set<nat>, last: set<nat>)
    requires spared <= evictable
    ensures (all - evictable - last) + (all * spared - last) + (all * evictable - spared - last) == all - last
    ensures (all - evictable) * last + all * spared * last + (all * evictable - spared) * last == all * last
  {
  }

  /** One page more is sorted. */
  lemma SortOne(done: set<nat>, p: nat, evictable: set<nat>, spared: set<nat>, last: set<nat>)
    requires spared <= evictable
    ensures (done + {p}) * spared == if p in spared then done * spared + {p} else done * spared
    ensures (done + {p}) * evictable - spared == if p in evictable - spared then (done * evictable - spared) + {p} else done * evictable - spared
    ensures (done + {p}) - evictable == if p in evictable then done - evictable else (done - evictable) + {p}
    ensures (done + {p}) - evictable - last == if p in evictable + last then done - evictable - last else (done - evictable - last) + {p}
    ensures ((done + {p}) - evictable) * last == if p in last - evictable then (done - evictable) * last + {p} else (done - evictable) * last
  {
  }

  lemma AddHead(p: nat, s: seq<nat>)
    requires SPL.Distinct(s)
    ensures SPL.Range([p] + s) == SPL.Range(s) + {p}
    ensures p !in SPL.Range(s) ==> SPL.Distinct([p] + s)
  {
  }

  lemma HomeElsewhere(f: Flags, f': Flags, p: nat)
    requires f'.active - {p} == f.active - {p} && f'.unevictable - {p} == f.unevictable - {p} && f'.file == f.file
    ensures forall q :: q != p ==> f'.Home(q) == f.Home(q)
  {
    forall q | q != p
      ensures f'.Home(q) == f.Home(q)
    {
      assert q in f'.active - {p} <==> q in f'.active;
      assert q in f.active - {p} <==> q in f.active;
      assert q in f'.unevictable - {p} <==> q in f'.unevictable;
      assert q in f.unevictable - {p} <==> q in f.unevictable;
    }
  }

  lemma HomeKept(taken: seq<nat>, f: Flags, f0: Flags, l: nat)
    requires f.active == f0.active && f.unevictable == f0.unevictable && f.file == f0.file && forall p :: p in taken ==> f0.Home(p) == l
    ensures forall p :: p in SPL.Range(taken) ==> f.Home(p) == l
  {
  }

  lemma HomeStays(s: seq<nat>, t: seq<nat>, f: Flags, f': Flags, l: nat)
    requires SPL.Range(s) !! SPL.Range(t) && f'.active - SPL.Range(t) == f.active - SPL.Range(t) && f'.unevictable == f.unevictable && f'.file == f.file
    requires forall p :: p in SPL.Range(s) ==> f.Home(p) == l
    ensures forall p :: p in SPL.Range(s) ==> f'.Home(p) == l
  {
    forall p | p in SPL.Range(s)
      ensures f'.Home(p) == l
    {
      assert p !in SPL.Range(t);
      assert p in f'.active - SPL.Range(t) <==> p in f'.active;
      assert p in f.active - SPL.Range(t) <==> p in f.active;
      assert f.Home(p) == l;
    }
  }

  lemma CountedShift(size: map<nat, nat>, lists: seq<seq<nat>>, nrLru: seq<int>, l: nat, d: int)
    requires Counted(size, lists, nrLru) && l < NR_LRU_LISTS && d == 0
    ensures Counted(size, lists, nrLru[l := nrLru[l] + d])
  {
  }

  /** One more page at the head of a list, and its size on the counter. */
  lemma Raised(size: map<nat, nat>, lists: seq<seq<nat>>, nrLru: seq<int>, l: nat, p: nat)
    requires Counted(size, lists, nrLru) && l < NR_LRU_LISTS
    ensures Counted(size, lists[l := [p] + lists[l]], nrLru[l := nrLru[l] + Size(size, p)])
  {
    PagesHead(size, p, lists[l]);
  }

  lemma NoRange()
    ensures SPL.Range([]) == {} && SPL.Distinct([])
  {
  }

  lemma TakenHome(lists: seq<seq<nat>>, f: Flags, l: nat)
    requires Placed(lists, f) && l < NR_LRU_LISTS
    ensures forall p :: p in lists[l] ==> f.Home(p) == l && p in f.lru
  {
  }

  lemma TakenFrom(was: seq<nat>, kept: seq<nat>, taken: seq<nat>)
    requires Split(was, kept, taken)
    ensures forall p :: p in taken ==> p in was
    ensures SPL.Range(taken) <= SPL.Range(was)
  {
    forall p | p in taken
      ensures p in was
    {
      assert 0 < multiset(taken)[p] <= multiset(was)[p];
    }
  }

  lemma NonePages(size: map<nat, nat>, s: seq<nat>)
    requires Pages(size, s) == 0
    ensures s == []
  {
  }

  lemma FlagsOff(lists: seq<seq<nat>>, f: Flags, more: set<nat>, taken: seq<nat>)
    requires Placed(lists, f) && more <= SPL.Range(taken) && SPL.Range(taken) !! f.lru
    ensures Placed(lists, f.(active := f.active + more))
  {
    SamePlaces(lists, f, f.(active := f.active + more));
  }

  lemma TakeLast(s: seq<nat>)
    requires s != [] && SPL.Distinct(s)
    ensures var p, rest := s[|s| - 1], s[..|s| - 1]; SPL.Distinct(rest) && SPL.Range(s) == SPL.Range(rest) + {p} && p !in SPL.Range(rest)
  {
    assert s == s[..|s| - 1] + [s[|s| - 1]];
  }

  /** Flags of pages that are on no list do not matter. */
  lemma SamePlaces(lists: seq<seq<nat>>, f: Flags, f': Flags)
    requires Placed(lists, f) && f.lru == f'.lru && forall p :: p in f.lru ==> f.Home(p) == f'.Home(p)
    ensures Placed(lists, f')
  {
  }

  lemma NothingTaken(size: map<nat, nat>, s: seq<nat>, lru: set<nat>)
    ensures Split(s, s, []) && Pages(size, []) == 0 && lru - SPL.Range([]) == lru && Isolated(s, []) == (s, [])
  {
  }

  lemma RangeHead(p: nat, s: seq<nat>)
    ensures SPL.Range([p] + s) == SPL.Range(s) + {p}
  {
  }
}
